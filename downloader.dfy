/** The download-and-verify step (src/lib/downloader.ts). The HTTP transport
    and the SHA-256 primitive are inputs: `fetched` is what the request for
    `info.url` produced, and `sha256` maps the body to its hex digest. */
module Downloader {
  import opened Common

  /** Reason carried by the failure for a status other than 200. */
  const StatusReason := "Download failed (status not 200)."

  /** Reason carried by the failure for a digest mismatch (spelled as in the source). */
  const CorruptedReason := "Corrputed package data."

  /** A response: its HTTP status and, once read, its body. */
  datatype Response = Response(status: int, body: Bytes)

  /** What `fetch(url, { method: 'GET' })` produced: a rejection or a response. */
  datatype Fetched = Rejected | Received(res: Response)

  /** What `downloadZip` throws: the rejection of `fetch` unchanged, or an
      object carrying a reason, the response and, for a mismatch, the digest
      that was computed. */
  datatype DownloadError =
    | FetchRejected
    | Thrown(reason: string, res: Response, hash: Option<string>)

  /** The outcome of a download, with the external calls it made in order. */
  datatype Download = Download(result: Result<Bytes, DownloadError>, effects: seq<Effect>)

  /** The body is accepted: status 200 and, when a digest is expected, it matches. */
  predicate Verified(info: ZipInfo, fetched: Fetched, sha256: Bytes -> string)
  {
    fetched.Received? && fetched.res.status == 200 &&
    (!Truthy(info.hash) || sha256(fetched.res.body) == info.hash.value)
  }

  /** `downloadZip(zipInfo)`. */
  function DownloadZip(info: ZipInfo, fetched: Fetched, sha256: Bytes -> string): (d: Download)
    // The request is always made first; a rejection propagates unchanged.
    ensures |d.effects| >= 1 && d.effects[0] == Fetch(info.url)
    ensures fetched.Rejected? ==> d.result == Failure(FetchRejected) && d.effects == [Fetch(info.url)]
    // A status other than 200 fails before the body is read or hashed.
    ensures fetched.Received? && fetched.res.status != 200 ==>
      d.result == Failure(Thrown(StatusReason, fetched.res, None)) && d.effects == [Fetch(info.url)]
    // On status 200 the body is read and hashed, whether or not a digest is expected.
    ensures fetched.Received? && fetched.res.status == 200 ==>
      d.effects == [Fetch(info.url), ReadBody, Digest(fetched.res.body)]
    // The body is returned unchanged exactly when it is verified ...
    ensures d.result.Success? <==> Verified(info, fetched, sha256)
    ensures d.result.Success? ==> d.result.value == fetched.res.body
    // ... so an expected digest is always met by what is returned ...
    ensures d.result.Success? && Truthy(info.hash) ==> sha256(d.result.value) == info.hash.value
    // ... and a mismatch reports the digest that was computed.
    ensures fetched.Received? && fetched.res.status == 200 && Truthy(info.hash) &&
            sha256(fetched.res.body) != info.hash.value ==>
      d.result == Failure(Thrown(CorruptedReason, fetched.res, Some(sha256(fetched.res.body))))
  {
    match fetched
    case Rejected => Download(Failure(FetchRejected), [Fetch(info.url)])
    case Received(res) =>
      if res.status != 200 then
        Download(Failure(Thrown(StatusReason, res, None)), [Fetch(info.url)])
      else
        var zipData := res.body;
        var zipHash := sha256(zipData);
        var effects := [Fetch(info.url), ReadBody, Digest(zipData)];
        if !Truthy(info.hash) then
          Download(Success(zipData), effects)
        else if zipHash != info.hash.value then
          Download(Failure(Thrown(CorruptedReason, res, Some(zipHash))), effects)
        else
          Download(Success(zipData), effects)
  }

  /** Hashing happens exactly when the server answered 200, and then before
      any verdict on the digest. */
  lemma DigestComputedIffStatusOk(info: ZipInfo, fetched: Fetched, sha256: Bytes -> string)
    ensures var d := DownloadZip(info, fetched, sha256);
      (exists k :: 0 <= k < |d.effects| && d.effects[k].Digest?) <==>
      fetched.Received? && fetched.res.status == 200
  {
    var d := DownloadZip(info, fetched, sha256);
    if fetched.Received? && fetched.res.status == 200 {
      assert d.effects[2].Digest?;
    }
  }
}
