/** The second download client, `client/client_download.py`
    (`download_file`): it fetches a named file or the latest one, reports a
    404 without writing anything, and otherwise saves the body exactly as
    the first client does. */
module ClientDownload {
  import opened Common
  import Disposition
  import Download

  const BaseUrl: string := "http://localhost:8000"
  const NamedPath: string := "/download?filename="
  const LatestPath: string := "/latest"

  /** This file's own copy of `get_filename_from_cd`, modelled the way the
      regular expression engine runs it: try each start position from the
      left until `filename=` followed by a non-newline character is found,
      then take the rest of that line and strip quotes. Its proved equality
      with the shared definition is why `DownloadFile` and
      `DownloadFileAsWritten` can read the name through
      `Disposition.FilenameFromDisposition`, as `Download.Save` does. */
  method FilenameFromDisposition(cd: Option<string>) returns (r: Option<string>)
    ensures r == Disposition.FilenameFromDisposition(cd)
  {
    if cd.None? || cd.value == "" {
      return None;
    }
    var s := cd.value;
    var i := 0;
    while i + |Disposition.Key| < |s| && !Disposition.MatchesAt(s, i)
      invariant forall j :: 0 <= j < i ==> !Disposition.MatchesAt(s, j)
      invariant Disposition.FirstMatch(s, 0) == Disposition.FirstMatch(s, i)
      decreases |s| - i
    {
      i := i + 1;
    }
    if i + |Disposition.Key| >= |s| {
      return None;
    }
    var start := i + |Disposition.Key|;
    var end := start;
    while end < |s| && s[end] != Disposition.Newline
      invariant start <= end <= |s|
      invariant Disposition.LineEnd(s, start) == Disposition.LineEnd(s, end)
      decreases |s| - end
    {
      end := end + 1;
    }
    return Some(Disposition.StripQuotes(s[start..end]));
  }

  /** Which endpoint is asked: `/download?filename=<target>` for a non-empty
      target, `/latest` for none or an empty one. */
  function RequestUrl(target: Option<string>): (url: string)
    ensures target.Some? && target.value != "" ==>
              StartsWith(url, BaseUrl + NamedPath) && url[|BaseUrl + NamedPath|..] == target.value
    ensures target.None? || target.value == "" ==> url == BaseUrl + LatestPath
  {
    if target.Some? && target.value != "" then BaseUrl + NamedPath + target.value
    else BaseUrl + LatestPath
  }

  /** Different non-empty targets ask for different URLs, and none of them is
      the `/latest` URL. */
  lemma RequestUrlInjective(a: string, b: string)
    requires a != "" && b != ""
    ensures RequestUrl(Some(a)) == RequestUrl(Some(b)) ==> a == b
    ensures RequestUrl(Some(a)) != RequestUrl(None)
  {
    var u := RequestUrl(Some(a));
    assert u[|BaseUrl|..|BaseUrl| + 2] == "/d";
    assert (BaseUrl + LatestPath)[|BaseUrl|..|BaseUrl| + 2] == "/l";
  }

  /** `download_file(target_filename)`: the URL requested and the outcome,
      given the server's response and the clock reading for a fallback
      name. */
  function DownloadFile(target: Option<string>, resp: Download.Response, now: nat): (r: (string, Download.Outcome))
    ensures r.0 == RequestUrl(target)
    ensures r.1.NotFound? <==> resp.status == 404
    ensures r.1.Failed? <==> resp.status != 404 && Download.RaisesForStatus(resp.status)
    ensures r.1.Saved? ==> r.1.written == Concat(resp.body) && r.1.totalSize == |r.1.written|
    ensures r.1.Saved? ==> r.1 == Download.DownloadLatest(resp, now)
  {
    Download.WrittenIsBody(resp.body);
    Download.TotalSizeIsWritten(resp.body);
    var url := RequestUrl(target);
    if resp.status == 404 then (url, Download.NotFound)
    else if Download.RaisesForStatus(resp.status) then (url, Download.Failed("HTTP error"))
    else (url, Download.Save(resp, now))
  }

  /** `download_file` as written: like the other client it never imports
      `time`, so a response without a usable name ends in a caught
      `NameError` and nothing is saved. */
  function DownloadFileAsWritten(target: Option<string>, resp: Download.Response): (r: (string, Download.Outcome))
    ensures r.0 == RequestUrl(target)
    ensures r.1.NotFound? <==> resp.status == 404
    ensures r.1.Saved? <==> resp.status != 404 && !Download.RaisesForStatus(resp.status)
                            && !Download.NeedsFallback(resp.disposition)
    ensures r.1.Saved? ==> r.1.written == Concat(resp.body) && r.1.totalSize == |r.1.written|
    ensures r.1.Saved? ==> r.1 == Download.DownloadLatest(resp, 0)
  {
    Download.WrittenIsBody(resp.body);
    Download.TotalSizeIsWritten(resp.body);
    var url := RequestUrl(target);
    if resp.status == 404 then (url, Download.NotFound)
    else if Download.RaisesForStatus(resp.status) then (url, Download.Failed("HTTP error"))
    else if Download.NeedsFallback(resp.disposition) then (url, Download.Failed("name 'time' is not defined"))
    else (url, Download.Save(resp, 0))
  }

  /** The two agree on every response except a usable one without a usable
      name, where the code as written fails and the intended one saves under
      the fallback name. */
  lemma FallbackDiscrepancy(target: Option<string>, resp: Download.Response, now: nat)
    ensures !Download.NeedsFallback(resp.disposition) || resp.status == 404 || Download.RaisesForStatus(resp.status) ==>
              DownloadFileAsWritten(target, resp) == DownloadFile(target, resp, now)
    ensures Download.NeedsFallback(resp.disposition) && resp.status != 404 && !Download.RaisesForStatus(resp.status) ==>
              && DownloadFileAsWritten(target, resp).1.Failed?
              && DownloadFile(target, resp, now).1.Saved?
              && DownloadFile(target, resp, now).1.localName == Download.LocalPrefix + Download.FallbackName(now)
  {
    Download.LocalNameSpec(resp.disposition, now);
    Download.LocalNameSpec(resp.disposition, 0);
  }
}
