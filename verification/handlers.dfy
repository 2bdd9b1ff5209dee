/**
  The two HTTP handlers of the PDF service, `upload_pdf` (POST /upload) and
  `get_latest_pdf` (GET /latest-pdf), as pure transitions over the abstract
  GridFS bucket. An `HTTPException` becomes an `Err` carrying its status code
  and detail text; a `StreamingResponse` becomes a `Stream` of the bytes it
  would send.
 */
module Handlers {
  import opened Suffix
  import opened GridStore

  const PdfSuffix := ".pdf"
  const UploadedMessage := "PDF uploaded successfully"
  const NotPdfDetail := "File must be a PDF."
  const NoPdfDetail := "No PDF found"
  const PdfMediaType := "application/pdf"

  datatype HttpError = HttpError(status: nat, detail: string)

  datatype Reply<T> = Ok(value: T) | Err(error: HttpError)

  /** The body and media type of a streamed response. */
  datatype Stream = Stream(body: seq<byte>, mediaType: string)

  /** The reply of an upload, the bucket afterwards, and every state the
      bucket passed through: one entry per delete or put call, in the order
      the calls were made. */
  datatype UploadOutcome = UploadOutcome(reply: Reply<string>, store: Store, trace: seq<Store>)

  /** The name check of `upload_pdf`: exact, case-sensitive suffix `.pdf`. */
  predicate IsPdfName(filename: string) {
    EndsWith(filename, PdfSuffix)
  }

  /** A name passes exactly when its last four characters are `.pdf`. */
  lemma PdfNameIff(filename: string)
    ensures IsPdfName(filename) <==> |filename| >= 4 && filename[|filename| - 4..] == ".pdf"
  {
    EndsWithIffSlice(filename, PdfSuffix);
  }

  /** Boundary cases of the name check: the bare suffix passes, upper case
      does not. */
  lemma PdfNameExamples()
    ensures IsPdfName("a.pdf") && IsPdfName(".pdf") && IsPdfName("report.v2.pdf")
    ensures !IsPdfName("a.PDF") && !IsPdfName("report.PDF") && !IsPdfName("a.txt")
    ensures !IsPdfName("pdf") && !IsPdfName("a.pdf ") && !IsPdfName("")
  {
    PdfNameIff("a.pdf");
    PdfNameIff(".pdf");
    PdfNameIff("report.v2.pdf");
    PdfNameIff("a.PDF");
    PdfNameIff("report.PDF");
    PdfNameIff("a.txt");
    PdfNameIff("pdf");
    PdfNameIff("a.pdf ");
    PdfNameIff("");
  }

  /** `upload_pdf`: reject a name without the `.pdf` suffix with 400 before
      touching the bucket; otherwise delete every file `fs.find()` lists, one
      at a time, then put the new file and report success. */
  function Upload(st: Store, filename: string, data: seq<byte>): (o: UploadOutcome)
    ensures o.reply.Err? <==> !IsPdfName(filename)
    ensures o.reply.Err? ==> o.reply.error == HttpError(400, NotPdfDetail) && o.store == st && o.trace == []
    ensures o.reply.Ok? ==> o.reply.value == UploadedMessage
    ensures o.reply.Ok? ==> |o.store.files| == 1
    ensures o.reply.Ok? ==> o.store.files[0].filename == filename && o.store.files[0].data == data
    ensures o.reply.Ok? ==> |o.trace| == |st.files| + 1 && o.trace[|o.trace| - 1] == o.store
    ensures Valid(st) ==> Valid(o.store)
  {
    if !IsPdfName(filename) then
      UploadOutcome(Err(HttpError(400, NotPdfDetail)), st, [])
    else
      var steps := DeleteSteps(st, Ids(st.files));
      var cleared := AfterDeletes(st, steps);
      DeletingEveryIdEmpties(st);
      var stored := Put(cleared, filename, data);
      assert stored.files == [stored.files[0]];
      UploadOutcome(Ok(UploadedMessage), stored, steps + [stored])
  }

  /** `get_latest_pdf`: stream the bytes of the file with the latest upload
      date, or 404 when the bucket is empty. */
  function LatestPdf(st: Store): (r: Reply<Stream>)
    ensures r.Err? <==> |st.files| == 0
    ensures r.Err? ==> r.error == HttpError(404, NoPdfDetail)
    ensures r.Ok? ==> r.value.mediaType == PdfMediaType
    ensures r.Ok? ==> exists f :: IsNewest(f, st.files) && f.data == r.value.body
  {
    match Newest(st.files)
    case None => Err(HttpError(404, NoPdfDetail))
    case Some(f) => Ok(Stream(f.data, PdfMediaType))
  }

  /** An accepted upload removes every file stored beforehand. */
  lemma UploadRemovesOldFiles(st: Store, filename: string, data: seq<byte>)
    requires Valid(st)
    requires IsPdfName(filename)
    ensures forall f :: f in st.files ==> f !in Upload(st, filename, data).store.files
  {
  }

  /** Delete phase: every state before the last holds only files that were
      stored before the upload, and the state just before the put is empty. */
  lemma DeletePhaseHoldsOnlyOldFiles(st: Store, filename: string, data: seq<byte>)
    requires IsPdfName(filename)
    ensures var t := Upload(st, filename, data).trace;
      forall k, f :: 0 <= k < |t| - 1 && f in t[k].files ==> f in st.files
    ensures var t := Upload(st, filename, data).trace;
      AfterDeletes(st, t[..|t| - 1]).files == []
  {
    var t := Upload(st, filename, data).trace;
    var steps := DeleteSteps(st, Ids(st.files));
    DeletingEveryIdEmpties(st);
    var stored := Put(AfterDeletes(st, steps), filename, data);
    assert t == steps + [stored];
    assert t[..|t| - 1] == steps;
  }

  /** Write phase: the put is the last bucket call, and its state holds none
      of the files stored before the upload. */
  lemma WritePhaseHoldsOnlyNewFile(st: Store, filename: string, data: seq<byte>)
    requires Valid(st)
    requires IsPdfName(filename)
    ensures var t := Upload(st, filename, data).trace;
      forall f :: f in t[|t| - 1].files ==> f !in st.files
  {
  }

  /** Delete-before-write: no state the bucket passes through during an
      accepted upload holds both a file stored before it and the new one. */
  lemma DeleteBeforeWrite(st: Store, filename: string, data: seq<byte>)
    requires Valid(st)
    requires IsPdfName(filename)
    ensures var t := Upload(st, filename, data).trace;
      forall k :: 0 <= k < |t| ==>
        (forall f :: f in t[k].files ==> f in st.files) ||
        (forall f :: f in t[k].files ==> f !in st.files)
  {
    DeletePhaseHoldsOnlyOldFiles(st, filename, data);
    WritePhaseHoldsOnlyNewFile(st, filename, data);
  }

  /** Round trip: after an accepted upload the latest PDF is the uploaded
      bytes. */
  lemma UploadThenLatest(st: Store, filename: string, data: seq<byte>)
    requires IsPdfName(filename)
    ensures LatestPdf(Upload(st, filename, data).store) == Ok(Stream(data, PdfMediaType))
  {
    var s := Upload(st, filename, data).store;
    assert s.files == [s.files[0]];
  }

  /** Uploading the same bytes twice stores them under two different ids,
      and both times the latest PDF is those bytes. */
  lemma ReuploadGetsFreshId(st: Store, filename: string, data: seq<byte>)
    requires IsPdfName(filename)
    ensures var first := Upload(st, filename, data).store;
      var second := Upload(first, filename, data).store;
      && first.files[0].id != second.files[0].id
      && LatestPdf(first) == LatestPdf(second) == Ok(Stream(data, PdfMediaType))
  {
    var first := Upload(st, filename, data).store;
    UploadThenLatest(st, filename, data);
    UploadThenLatest(first, filename, data);
  }
}
