/** The pieces together: a `.zip` uploaded to the local server with a
    clock reading newer than everything stored is what the download client
    fetches next, saved under `downloaded_<timestamp>_<name>` with its bytes
    intact. */
module Flow {
  import opened Common
  import Decimal
  import Naming
  import Paths
  import LocalStore
  import Download

  /** A stored name of a URL-safe upload is URL-safe too: digits, `_`, and
      the original characters. */
  lemma StoredNameUrlSafe(timestamp: nat, filename: string)
    requires LocalStore.UrlSafe(filename)
    ensures LocalStore.UrlSafe(LocalStore.StoredName(timestamp, filename))
  {
    var t := Decimal.NatToString(timestamp);
    var r := LocalStore.StoredName(timestamp, filename);
    assert r == t + [Naming.Joiner] + filename;
    forall k | 0 <= k < |r|
      ensures var c := r[k];
              'a' <= c <= 'z' || 'A' <= c <= 'Z' || '0' <= c <= '9' || c == '_' || c == '.' || c == '-' || c == '~'
    {
      if k < |t| {
        assert r[k] == t[k] && Decimal.IsDigit(t[k]);
      } else if k > |t| {
        assert r[k] == filename[k - |t| - 1];
      }
    }
  }

  /** A URL-safe name has no `/`. */
  lemma UrlSafeHasNoSep(name: string)
    requires LocalStore.UrlSafe(name)
    ensures Paths.Sep !in name
  {
    forall k | 0 <= k < |name|
      ensures name[k] != Paths.Sep
    {
    }
  }

  /** `download_latest` of a successful response naming a non-empty
      URL-safe file saves the streamed bytes under `downloaded_<name>`. */
  lemma DownloadServed(name: string, body: seq<seq<Byte>>, clock: nat)
    requires LocalStore.UrlSafe(name) && name != ""
    ensures Download.DownloadLatest(Download.Response(200, Some(LocalStore.ServedDisposition(name)), body), clock)
            == Download.Saved(Download.LocalPrefix + name, Concat(body), |Concat(body)|)
  {
    LocalStore.ServedNameRoundTrip(name);
    var cd := Some(LocalStore.ServedDisposition(name));
    assert !Download.NeedsFallback(cd);
    Download.LocalNameSpec(cd, clock);
  }

  /** Upload, then `download_latest`: whatever pieces the body streams in,
      the client saves exactly the uploaded bytes under `downloaded_` plus
      the stored name, and reports their count. */
  lemma UploadThenDownload(dir: seq<LocalStore.Entry>, filename: string, content: seq<Byte>, now: nat,
                           listing: seq<LocalStore.Entry>, body: seq<seq<Byte>>, clock: nat)
    requires LocalStore.IsZip(filename) && LocalStore.UrlSafe(filename)
    requires forall e :: e in dir && LocalStore.IsZip(e.name) ==> e.mtime < now
    requires forall e :: e in listing <==> e in LocalStore.Upload(dir, filename, content, now).dir
    requires Concat(body) == content
    ensures LocalStore.GetLatest(listing).Ok?
    ensures var served := LocalStore.GetLatest(listing).value;
            Download.DownloadLatest(Download.Response(200, Some(LocalStore.ServedDisposition(served.name)), body), clock)
            == Download.Saved(Download.LocalPrefix + LocalStore.StoredName(now, filename), content, |content|)
  {
    UrlSafeHasNoSep(filename);
    LocalStore.UploadThenLatest(dir, filename, content, now, listing);
    StoredNameUrlSafe(now, filename);
    DownloadServed(LocalStore.StoredName(now, filename), body, clock);
  }
}
