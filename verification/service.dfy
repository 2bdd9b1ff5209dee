/**
  The service as a sequential state machine: the bucket is the only state, and
  each request runs one handler to completion before the next begins.
 */
module Service {
  import opened GridStore
  import opened Handlers

  datatype Request = UploadRequest(filename: string, data: seq<byte>) | LatestRequest

  datatype Response = UploadResponse(uploaded: Reply<string>) | LatestResponse(latest: Reply<Stream>)

  /** Handle one request: its response and the bucket afterwards. */
  function Step(st: Store, req: Request): (r: (Response, Store))
    ensures req.LatestRequest? ==> r.1 == st
    ensures req.UploadRequest? && !IsPdfName(req.filename) ==> r.1 == st
    ensures req.UploadRequest? && IsPdfName(req.filename) ==> |r.1.files| == 1
    ensures Valid(st) ==> Valid(r.1)
  {
    match req
    case UploadRequest(filename, data) =>
      var o := Upload(st, filename, data);
      (UploadResponse(o.reply), o.store)
    case LatestRequest =>
      (LatestResponse(LatestPdf(st)), st)
  }

  /** The bucket after handling the requests in order. */
  function Run(st: Store, reqs: seq<Request>): Store
    decreases |reqs|
  {
    if |reqs| == 0 then st else Run(Step(st, reqs[0]).1, reqs[1..])
  }

  /** The bytes of the last upload in `reqs` whose name passes the check. */
  function LastAccepted(reqs: seq<Request>): Option<seq<byte>>
    decreases |reqs|
  {
    if |reqs| == 0 then None
    else match LastAccepted(reqs[1..])
      case Some(d) => Some(d)
      case None =>
        if reqs[0].UploadRequest? && IsPdfName(reqs[0].filename) then Some(reqs[0].data) else None
  }

  /** The single-slot invariant: from a valid bucket holding at most one
      file, any sequence of requests leaves a valid bucket holding at most
      one file. */
  lemma {:induction false} RunKeepsOneSlot(st: Store, reqs: seq<Request>)
    requires Valid(st) && |st.files| <= 1
    ensures Valid(Run(st, reqs)) && |Run(st, reqs).files| <= 1
    decreases |reqs|
  {
    if |reqs| > 0 {
      RunKeepsOneSlot(Step(st, reqs[0]).1, reqs[1..]);
    }
  }

  /** Requests that include no accepted upload leave the bucket exactly as
      it was. */
  lemma {:induction false} RunWithoutAcceptedUploadKeepsStore(st: Store, reqs: seq<Request>)
    requires LastAccepted(reqs).None?
    ensures Run(st, reqs) == st
    decreases |reqs|
  {
    if |reqs| > 0 {
      RunWithoutAcceptedUploadKeepsStore(st, reqs[1..]);
    }
  }

  /** Reading the latest PDF after any sequence of requests yields the bytes
      of the last accepted upload. */
  lemma {:induction false} RunServesLastAccepted(st: Store, reqs: seq<Request>)
    requires LastAccepted(reqs).Some?
    ensures LatestPdf(Run(st, reqs)) == Ok(Stream(LastAccepted(reqs).value, PdfMediaType))
    decreases |reqs|
  {
    var next := Step(st, reqs[0]).1;
    if LastAccepted(reqs[1..]).Some? {
      RunServesLastAccepted(next, reqs[1..]);
    } else {
      RunWithoutAcceptedUploadKeepsStore(next, reqs[1..]);
      UploadThenLatest(st, reqs[0].filename, reqs[0].data);
    }
  }

  /** Starting from the empty bucket, any sequence of requests leaves at most
      one file. */
  lemma FromEmptyAtMostOneFile(reqs: seq<Request>)
    ensures |Run(Empty, reqs).files| <= 1
  {
    RunKeepsOneSlot(Empty, reqs);
  }

  /** Before any upload, reading the latest PDF is 404. */
  lemma LatestOnEmptyIsNotFound()
    ensures LatestPdf(Empty) == Err(HttpError(404, NoPdfDetail))
  {
  }

  /** From the empty bucket, a sequence with no accepted upload still reads
      404, whatever it contains. */
  lemma NoAcceptedUploadStaysNotFound(reqs: seq<Request>)
    requires LastAccepted(reqs).None?
    ensures LatestPdf(Run(Empty, reqs)) == Err(HttpError(404, NoPdfDetail))
  {
    RunWithoutAcceptedUploadKeepsStore(Empty, reqs);
  }
}
