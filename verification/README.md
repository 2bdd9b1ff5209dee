# Single-slot PDF store

A Dafny model of the PDF embedder service (`app.py`). It has two HTTP handlers
over a GridFS bucket:

- `upload_pdf` (POST /upload) checks that the file name ends with `.pdf`. If it
  does not, it answers 400. Otherwise it deletes every stored file, puts the
  new one and answers with a success message.
- `get_latest_pdf` (GET /latest-pdf) streams back the stored file with the
  latest `uploadDate`. If the bucket is empty it answers 404 "No PDF found".

`main.py` is a byte-for-byte copy of `app.py`. Every row below that cites
`app.py` lines applies equally to the same lines of `main.py`.

The bucket is an immutable `Store`. It holds a sequence of `FileRecord`s
(id, file name, bytes, upload date) in enumeration order. It also holds two
counters, from which `Put` draws a fresh id and an upload date later than any
stored one. `fs.find()` is the sequence itself, `fs.delete(id)` is `Delete`,
and `fs.put(...)` is `Put`. The handlers are pure functions: `Handlers.Upload`
and `Handlers.LatestPdf`. An `HTTPException` is modelled as an `Err` that
carries its status code and detail text. A `StreamingResponse` is modelled as
a `Stream` of its body bytes and media type.

`Upload` also returns its trace. This is the list of bucket states after each
delete and after the put, in call order. The ordering properties are stated
over this trace. `Service` runs a sequence of requests one after another.

Files:
- `suffix.dfy`: module `Suffix`, Python's `str.endswith`.
- `gridstore.dfy`: module `GridStore`, the abstract bucket.
- `handlers.dfy`: module `Handlers`, the two handlers and their properties.
- `service.dfy`: module `Service`, sequences of requests.

### Notes on the code

- The suffix check is `pdf.filename.endswith(".pdf")`, which is case-sensitive:
  `report.PDF` is rejected and the bare name `.pdf` is accepted.
- A successful upload answers only `{"message": "PDF uploaded successfully"}`.
- The download sets only the media type `application/pdf`.

## Model

| member | source | states |
|---|---|---|
| Suffix.EndsWithIffSlice | app.py:28 | The character-by-character suffix test holds exactly when the suffix is no longer than the name and equals the name's last `len(suffix)` characters. Both directions are proved. |
| Suffix.EndsWithIffConcat | app.py:28 | The suffix test holds exactly when the name is some prefix followed by the suffix. |
| Handlers.PdfNameIff | app.py:28 | A file name passes the upload check if and only if it has at least four characters and its last four are exactly `.pdf`. |
| Handlers.PdfNameExamples | app.py:28 | `a.pdf`, `.pdf` and `report.v2.pdf` pass. `a.PDF`, `report.PDF`, `a.txt`, `pdf`, `a.pdf ` (trailing space) and the empty name fail, so the check is case-sensitive. |
| Handlers.Upload | app.py:26-36 | The upload is rejected if and only if the name fails the check. A rejection carries status 400 and "File must be a PDF.", leaves the bucket unchanged and makes no bucket call. An accepted upload answers "PDF uploaded successfully" and leaves exactly one file, with the uploaded name and bytes. It makes one bucket call per stored file, then the put, which is the last call. It preserves the bucket's uniqueness invariant. |
| Handlers.LatestPdf | app.py:38-43 | The reply is 404 "No PDF found" if and only if the bucket is empty. Otherwise it streams, as `application/pdf`, the bytes of a stored file whose upload date is maximal. |
| Handlers.UploadRemovesOldFiles | app.py:31-35 | After an accepted upload, none of the files stored beforehand remains. |
| Handlers.DeletePhaseHoldsOnlyOldFiles | app.py:31-33 | Every state during the delete loop holds only files that were stored before the upload. The state just before the put is empty. |
| Handlers.WritePhaseHoldsOnlyNewFile | app.py:35 | The state after the put holds none of the files that were stored before the upload. |
| Handlers.DeleteBeforeWrite | app.py:31-35 | No state the bucket passes through during an accepted upload holds both an old file and the new one. |
| Handlers.UploadThenLatest | app.py:35-42 | Round trip: after an accepted `upload(name, b)`, the latest PDF is exactly `b` with media type `application/pdf`. |
| Handlers.ReuploadGetsFreshId | app.py:35-42 | From any bucket, uploading the same bytes twice stores them under two different ids. Both times the latest PDF returns those bytes. |
| GridStore.Ids | app.py:32 | The loop over `fs.find()` visits one id per stored file, in enumeration order: the i-th id visited is the i-th file's id. Every stored file's id is visited, and no other id. |
| GridStore.Without | app.py:33 | Filtering out an id keeps exactly the files with a different id and never grows the list. |
| GridStore.Delete | app.py:33 | `fs.delete(id)` removes exactly the files with that id. A missing id removes nothing. The counters and the uniqueness invariant are kept. |
| GridStore.Put | app.py:35 | `fs.put` appends one file with the given name and bytes and keeps every stored file in place. In a valid bucket the new id differs from every stored id, the new upload date is later than every stored one, and the bucket stays valid. |
| GridStore.DeleteSteps | app.py:32-33 | After the k-th delete of the loop, the bucket holds exactly the original files whose id is not among the first k ids deleted. The counters are unchanged throughout. |
| GridStore.DeletingEveryIdEmpties | app.py:32-33 | Deleting the id of every enumerated file leaves the bucket empty with its counters unchanged. |
| GridStore.Newest | app.py:40 | `find().sort("uploadDate", -1).limit(1)` yields nothing if and only if the bucket is empty. Otherwise it yields a stored file with no later upload date in the bucket. |
| GridStore.NewestIsUnique | app.py:40-41 | In a valid bucket, a file has the maximal upload date if and only if it is the one the lookup returns. |
| Service.Step | app.py:26-43 | A latest-PDF request and a rejected upload leave the bucket unchanged. An accepted upload leaves exactly one file. Every request preserves the bucket invariant. |
| Service.RunKeepsOneSlot | app.py:31-35 | From a valid bucket with at most one file, any sequence of requests leaves a valid bucket with at most one file. |
| Service.RunServesLastAccepted | app.py:26-43 | After any sequence of requests that contains an upload passing the name check, the latest PDF is the bytes of the last such upload. |
| Service.RunWithoutAcceptedUploadKeepsStore | app.py:26-43 | A sequence of requests in which no upload passes the name check leaves the bucket exactly as it was. |
| Service.FromEmptyAtMostOneFile | app.py:31-35 | Starting from the empty bucket, any sequence of requests leaves at most one file. |
| Service.LatestOnEmptyIsNotFound | app.py:43 | Before any upload, reading the latest PDF answers 404 "No PDF found". |
| Service.NoAcceptedUploadStaysNotFound | app.py:28-43 | Starting from the empty bucket, a sequence with no accepted upload still reads 404, whatever rejected uploads and reads it contains. |

## Left out

- FastAPI routing, `UploadFile` and `HTTPException` plumbing, `StreamingResponse` and `io.BytesIO` buffering: framework I/O. Replies are modelled as `Reply`/`Stream` values, and the upload's body is the whole byte sequence `pdf.file` would yield.
- CORS middleware (app.py:12-18): static configuration with no behaviour.
- `MongoClient` construction, the `MONGO_URI` lookup and the GridFS chunk storage (app.py:20-24): a network client and a foreign library. They are replaced by the abstract `Store`. Database and network failures, which the code lets surface as a 500, are not modelled.
- How GridFS draws ids and upload dates: a counter in the store stands for each. Freshness of ids and strictly increasing upload dates are assumed as the `Valid` invariant.
- Concurrency: `upload_pdf` is `async`, and two uploads could interleave their delete and put phases. The model runs requests strictly one after another and proves nothing about races.
- The loop `for old_file in fs.find()` is modelled as visiting the ids enumerated when the loop starts. How a live MongoDB cursor behaves while its documents are being deleted is not modelled.
- A missing file name (`pdf.filename` being `None`) is not modelled. The name is always a string.
- GridStore.Newest: MongoDB does not specify which of several files with equal upload dates the sort returns first. The model returns the first one enumerated, and only proves maximality (uniqueness needs distinct dates, as in `Valid`).
