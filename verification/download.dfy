/** The download client `client_download.py` (`download_latest`): fetch
    `/latest`, choose a local name from the `Content-Disposition` header and
    write the streamed body to `downloaded_<name>`, counting the bytes. */
module Download {
  import opened Common
  import opened Decimal
  import Disposition

  const LocalPrefix: string := "downloaded_"
  const BinSuffix: string := ".bin"

  /** The parts of an HTTP response the client looks at: the final status,
      the `Content-Disposition` header, and the body as `iter_content`
      yields it (pieces of up to 8192 bytes; some may be empty). */
  datatype Response = Response(status: int, disposition: Option<string>, body: seq<seq<Byte>>)

  datatype Outcome =
    | Saved(localName: string, written: seq<Byte>, totalSize: nat)  // the file was written
    | NotFound                                                      // a 404 was reported
    | Failed(reason: string)                                        // an exception was caught and printed

  /** `raise_for_status()` raises for client and server errors. */
  predicate RaisesForStatus(status: int)
  {
    400 <= status < 600
  }

  /** `f"downloaded_{int(time.time())}.bin"`. */
  function FallbackName(now: nat): string
  {
    LocalPrefix + NatToString(now) + BinSuffix
  }

  /** The header gives no usable name: `if not filename`. */
  predicate NeedsFallback(cd: Option<string>)
  {
    var parsed := Disposition.FilenameFromDisposition(cd);
    parsed.None? || parsed.value == ""
  }

  /** The local file name: `downloaded_` followed by the parsed name, or by
      the fallback name when the header gives none, stripped of quotes. */
  function LocalName(cd: Option<string>, now: nat): string
  {
    var filename := if NeedsFallback(cd) then FallbackName(now)
                    else Disposition.FilenameFromDisposition(cd).value;
    LocalPrefix + Disposition.StripQuotes(filename)
  }

  /** The second `strip('"')` never changes anything: the saved name is
      `downloaded_` plus exactly the parsed name, or `downloaded_` plus the
      fallback name. */
  lemma LocalNameSpec(cd: Option<string>, now: nat)
    ensures !NeedsFallback(cd) ==>
              LocalName(cd, now) == LocalPrefix + Disposition.FilenameFromDisposition(cd).value
    ensures NeedsFallback(cd) ==> LocalName(cd, now) == LocalPrefix + FallbackName(now)
  {
    var parsed := Disposition.FilenameFromDisposition(cd);
    if parsed.Some? {
      Disposition.FilenameFromDispositionSpec(cd);
      Disposition.StripQuotesUnchanged(parsed.value);
    }
    var fb := FallbackName(now);
    assert fb[0] == 'd' && fb[|fb| - 1] == 'n';
    Disposition.StripQuotesUnchanged(fb);
  }

  /** `total_size` as the loop accumulates it: the lengths of the non-empty
      pieces, added up in order. */
  function TotalSize(chunks: seq<seq<Byte>>): nat
  {
    if |chunks| == 0 then 0
    else (if |chunks[0]| > 0 then |chunks[0]| else 0) + TotalSize(chunks[1..])
  }

  /** The reported size is the number of bytes written to the file. */
  lemma {:induction false} TotalSizeIsWritten(chunks: seq<seq<Byte>>)
    ensures TotalSize(chunks) == |Concat(chunks)|
  {
    if |chunks| > 0 {
      TotalSizeIsWritten(chunks[1..]);
    }
  }

  /** Writing every non-empty piece in order writes the body. */
  function Written(chunks: seq<seq<Byte>>): (w: seq<Byte>)
  {
    if |chunks| == 0 then []
    else (if |chunks[0]| > 0 then chunks[0] else []) + Written(chunks[1..])
  }

  /** Skipping empty pieces loses nothing: the file receives the whole body. */
  lemma {:induction false} WrittenIsBody(chunks: seq<seq<Byte>>)
    ensures Written(chunks) == Concat(chunks)
  {
    if |chunks| > 0 {
      WrittenIsBody(chunks[1..]);
    }
  }

  /** The save step shared by both clients, once the response is known to be
      usable. */
  function Save(resp: Response, now: nat): Outcome
  {
    Saved(LocalName(resp.disposition, now), Written(resp.body), TotalSize(resp.body))
  }

  /** `download_latest()`, with the clock reading the fallback name needs
      supplied as `now`. */
  function DownloadLatest(resp: Response, now: nat): (r: Outcome)
    ensures r.Failed? <==> RaisesForStatus(resp.status)
    ensures r.Saved? <==> !RaisesForStatus(resp.status)
    ensures r.Saved? ==> r.written == Concat(resp.body) && r.totalSize == |r.written|
    ensures r.Saved? ==> StartsWith(r.localName, LocalPrefix)
    ensures r.Saved? ==>
              r.localName == LocalPrefix + (if NeedsFallback(resp.disposition) then FallbackName(now)
                                            else Disposition.FilenameFromDisposition(resp.disposition).value)
  {
    LocalNameSpec(resp.disposition, now);
    WrittenIsBody(resp.body);
    TotalSizeIsWritten(resp.body);
    if RaisesForStatus(resp.status) then Failed("HTTP error")
    else Save(resp, now)
  }

  /** `download_latest()` as written: `time` is never imported, so building
      the fallback name raises `NameError`, which the outer `except` catches
      and prints, and no file is saved. */
  function DownloadLatestAsWritten(resp: Response): (r: Outcome)
    ensures !r.NotFound?
    ensures r.Saved? <==> !RaisesForStatus(resp.status) && !NeedsFallback(resp.disposition)
    ensures r.Saved? ==> r.written == Concat(resp.body) && r.totalSize == |r.written|
    ensures r.Saved? ==> StartsWith(r.localName, LocalPrefix)
  {
    WrittenIsBody(resp.body);
    TotalSizeIsWritten(resp.body);
    if RaisesForStatus(resp.status) then Failed("HTTP error")
    else if NeedsFallback(resp.disposition) then Failed("name 'time' is not defined")
    else Save(resp, 0)
  }

  /** The two agree except on a usable response without a usable name,
      where the code as written saves nothing but the intended code saves
      `downloaded_downloaded_<now>.bin`. */
  lemma FallbackDiscrepancy(resp: Response, now: nat)
    ensures !NeedsFallback(resp.disposition) || RaisesForStatus(resp.status) ==>
              DownloadLatestAsWritten(resp) == DownloadLatest(resp, now)
    ensures NeedsFallback(resp.disposition) && !RaisesForStatus(resp.status) ==>
              && DownloadLatestAsWritten(resp).Failed?
              && DownloadLatest(resp, now).Saved?
              && DownloadLatest(resp, now).localName == LocalPrefix + FallbackName(now)
  {
    LocalNameSpec(resp.disposition, now);
    if !NeedsFallback(resp.disposition) {
      LocalNameSpec(resp.disposition, 0);
    }
  }

  /** The input that shows it: a 200 response with no header at all. */
  lemma MissingHeaderExample()
    ensures DownloadLatestAsWritten(Response(200, None, [[80, 75]])).Failed?
    ensures DownloadLatest(Response(200, None, [[80, 75]]), 1700000000).Saved?
  {
  }
}
