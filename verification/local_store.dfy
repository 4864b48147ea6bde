/** The local-disk server `main.py`: `upload_file` accepts only `.zip`
    uploads and stores each under `<timestamp>_<filename>` in one flat
    directory; `get_latest_file` serves the `.zip` file with the newest
    modification time. */
module LocalStore {
  import opened Common
  import Paths
  import Naming
  import Disposition

  const ZipSuffix: string := ".zip"
  const Uploaded: string := "uploaded"
  const NotZip: HttpError := HttpError(400, "Only .zip files are allowed")
  const NoFiles: HttpError := HttpError(404, "No files uploaded")
  /** What FastAPI answers when a handler raises anything other than an
      `HTTPException`. */
  const ServerError: HttpError := HttpError(500, "Internal Server Error")

  /** One file of the upload directory: its name, its modification time in
      whole seconds, and its bytes. */
  datatype Entry = Entry(name: string, mtime: nat, content: seq<Byte>)

  /** `name.endswith(".zip")`; the same test decides what `glob("*.zip")`
      lists. */
  predicate IsZip(name: string)
  {
    EndsWith(name, ZipSuffix)
  }

  /** A directory never holds two files of one name. */
  predicate DistinctNames(dir: seq<Entry>)
  {
    forall i, j :: 0 <= i < j < |dir| ==> dir[i].name != dir[j].name
  }

  /** The directory with every file called `name` removed. */
  function Remove(dir: seq<Entry>, name: string): (r: seq<Entry>)
    ensures forall e :: e in r <==> e in dir && e.name != name
    ensures DistinctNames(dir) ==> DistinctNames(r)
  {
    if |dir| == 0 then []
    else if dir[0].name == name then Remove(dir[1..], name)
    else [dir[0]] + Remove(dir[1..], name)
  }

  /** `open(path, "wb")` and a full copy: a file of that name is created or
      replaced. The new file is listed last. */
  function Write(dir: seq<Entry>, e: Entry): (r: seq<Entry>)
  {
    Remove(dir, e.name) + [e]
  }

  /** Writing a file adds it, drops the old file of that name (if any), and
      leaves every other file as it was. */
  lemma WriteSpec(dir: seq<Entry>, e: Entry)
    ensures e in Write(dir, e)
    ensures forall x :: x in Write(dir, e) <==> x == e || (x in dir && x.name != e.name)
    ensures DistinctNames(dir) ==> DistinctNames(Write(dir, e))
  {
    var r := Remove(dir, e.name);
    if DistinctNames(dir) {
      forall i, j | 0 <= i < j < |r| + 1
        ensures (r + [e])[i].name != (r + [e])[j].name
      {
        if j == |r| {
          assert r[i] in r;
        }
      }
    }
  }

  /** The stored name: the whole-second timestamp, `_`, and the client's
      file name unchanged (no component is stripped). */
  function StoredName(timestamp: nat, filename: string): (r: string)
    ensures Naming.SplitTimestamped(r) == Some((timestamp, filename))
    ensures EndsWith(r, [Naming.Joiner] + filename)
  {
    Naming.SplitTimestampedName(timestamp, filename);
    Naming.TimestampedName(timestamp, filename)
  }

  /** The body of a successful upload. */
  datatype Stored = Stored(filename: string, status: string)

  /** The reply and the directory afterwards. */
  datatype UploadRun = UploadRun(response: Result<Stored, HttpError>, dir: seq<Entry>)

  /** `upload_file(file)` of `POST /upload`, at clock reading `now`. A name
      with a `/` makes the stored path point into a directory that does not
      exist, so `open` raises and the request fails with a server error. */
  function Upload(dir: seq<Entry>, filename: string, content: seq<Byte>, now: nat): (r: UploadRun)
    ensures !IsZip(filename) ==> r == UploadRun(Err(NotZip), dir)
    ensures r.response.Ok? <==> IsZip(filename) && Paths.Sep !in filename
    ensures IsZip(filename) && Paths.Sep in filename ==> r.response == Err(ServerError)
    ensures r.response.Err? ==> r.dir == dir
    ensures r.response.Ok? ==>
              && r.response.value == Stored(StoredName(now, filename), Uploaded)
              && Entry(StoredName(now, filename), now, content) in r.dir
              && (forall x :: x in r.dir <==>
                     x == Entry(StoredName(now, filename), now, content)
                     || (x in dir && x.name != StoredName(now, filename)))
  {
    if !IsZip(filename) then UploadRun(Err(NotZip), dir)
    else if Paths.Sep in filename then UploadRun(Err(ServerError), dir)
    else
      var name := StoredName(now, filename);
      WriteSpec(dir, Entry(name, now, content));
      UploadRun(Ok(Stored(name, Uploaded)), Write(dir, Entry(name, now, content)))
  }

  /** Every name the upload accepts is stored under a name that still ends
      in `.zip`, so the `*.zip` listing sees it. */
  lemma StoredNameIsZip(timestamp: nat, filename: string)
    requires IsZip(filename)
    ensures IsZip(StoredName(timestamp, filename))
  {
    EndsWithTransitive(StoredName(timestamp, filename), [Naming.Joiner] + filename, ZipSuffix);
  }

  /** `UPLOAD_DIR.glob("*.zip")`: the `.zip` files, in listing order. */
  function Candidates(listing: seq<Entry>): (r: seq<Entry>)
    ensures |r| <= |listing|
  {
    if |listing| == 0 then []
    else if IsZip(listing[0].name) then [listing[0]] + Candidates(listing[1..])
    else Candidates(listing[1..])
  }

  /** The candidates are exactly the listed `.zip` files. */
  lemma {:induction false} CandidatesMembers(listing: seq<Entry>)
    ensures forall e :: e in Candidates(listing) <==> e in listing && IsZip(e.name)
    decreases |listing|
  {
    if |listing| > 0 {
      CandidatesMembers(listing[1..]);
      assert listing == [listing[0]] + listing[1..];
    }
  }

  /** The filter keeps listing order: the candidates of a listing split
      anywhere are those of the front followed by those of the back. With
      `Candidates([e])` being `[e]` for a `.zip` file and `[]` otherwise, this
      pins the whole sequence down. */
  lemma {:induction false} CandidatesAppend(front: seq<Entry>, back: seq<Entry>)
    ensures Candidates(front + back) == Candidates(front) + Candidates(back)
    decreases |front|
  {
    if |front| > 0 {
      assert (front + back)[1..] == front[1..] + back;
      CandidatesAppend(front[1..], back);
    } else {
      assert front + back == back;
    }
  }

  /** Every `.zip` file listed before position `i` is strictly older than
      the file there. */
  predicate OlderZipsBefore(listing: seq<Entry>, i: nat)
  {
    && i < |listing|
    && forall j :: 0 <= j < i && IsZip(listing[j].name) ==> listing[j].mtime < listing[i].mtime
  }

  /** Every file before position `k` is strictly older than the file there. */
  predicate StrictlyNewest(files: seq<Entry>, k: nat)
  {
    && k < |files|
    && forall j :: 0 <= j < k ==> files[j].mtime < files[k].mtime
  }

  /** Past a listed `.zip` file at the head, the `k`-th candidate is the
      `k - 1`-th candidate of the rest, and it stays strictly newest. */
  lemma CandidatesZipHead(listing: seq<Entry>, k: nat)
    requires |listing| > 0 && IsZip(listing[0].name)
    requires 0 < k && StrictlyNewest(Candidates(listing), k)
    ensures StrictlyNewest(Candidates(listing[1..]), k - 1)
    ensures Candidates(listing)[k] == Candidates(listing[1..])[k - 1]
    ensures listing[0].mtime < Candidates(listing)[k].mtime
  {
    var c := Candidates(listing);
    var t := Candidates(listing[1..]);
    assert c == [listing[0]] + t;
    forall j | 0 <= j < k - 1
      ensures t[j].mtime < t[k - 1].mtime
    {
      assert c[j + 1] == t[j];
    }
    assert c[0] == listing[0];
  }

  /** Past a listed file that is not a `.zip`, the candidates are those of
      the rest. */
  lemma CandidatesOtherHead(listing: seq<Entry>)
    requires |listing| > 0 && !IsZip(listing[0].name)
    ensures Candidates(listing) == Candidates(listing[1..])
  {
  }

  lemma OlderZipsBeforeCons(listing: seq<Entry>, i: nat)
    requires i + 1 < |listing|
    requires OlderZipsBefore(listing[1..], i)
    requires IsZip(listing[0].name) ==> listing[0].mtime < listing[i + 1].mtime
    ensures OlderZipsBefore(listing, i + 1)
  {
    forall j | 0 < j < i + 1 && IsZip(listing[j].name)
      ensures listing[j].mtime < listing[i + 1].mtime
    {
      assert listing[j] == listing[1..][j - 1];
    }
  }

  /** Where the `k`-th candidate sits in the listing, when every earlier
      candidate is strictly older: after only strictly older `.zip` files. */
  lemma {:induction false} LatestPosition(listing: seq<Entry>, k: nat) returns (i: nat)
    requires k < |Candidates(listing)|
    requires StrictlyNewest(Candidates(listing), k)
    ensures i < |listing| && listing[i] == Candidates(listing)[k]
    ensures OlderZipsBefore(listing, i)
    decreases |listing|
  {
    var rest := listing[1..];
    if IsZip(listing[0].name) {
      if k == 0 {
        assert Candidates(listing) == [listing[0]] + Candidates(rest);
        i := 0;
      } else {
        CandidatesZipHead(listing, k);
        var i' := LatestPosition(rest, k - 1);
        OlderZipsBeforeCons(listing, i');
        i := i' + 1;
      }
    } else {
      CandidatesOtherHead(listing);
      var i' := LatestPosition(rest, k);
      OlderZipsBeforeCons(listing, i');
      i := i' + 1;
    }
  }

  /** The same fact, as `GetLatest` states it. */
  lemma FirstLatestInListing(listing: seq<Entry>, k: nat)
    requires k < |Candidates(listing)|
    requires StrictlyNewest(Candidates(listing), k)
    ensures exists i :: 0 <= i < |listing| && listing[i] == Candidates(listing)[k]
                        && forall j :: 0 <= j < i && IsZip(listing[j].name) ==> listing[j].mtime < listing[i].mtime
  {
    var i := LatestPosition(listing, k);
    assert OlderZipsBefore(listing, i);
  }

  /** One step of `max(files, key=os.path.getmtime)`: `best` is the index
      kept after looking at the first `k` files, and a later file replaces
      it only when strictly newer. The result is the first file whose
      modification time is greatest. */
  function LatestFrom(files: seq<Entry>, best: nat, k: nat): (i: nat)
    requires best < k <= |files|
    requires forall j :: 0 <= j < k ==> files[j].mtime <= files[best].mtime
    requires forall j :: 0 <= j < best ==> files[j].mtime < files[best].mtime
    ensures i < |files|
    ensures forall j :: 0 <= j < |files| ==> files[j].mtime <= files[i].mtime
    ensures forall j :: 0 <= j < i ==> files[j].mtime < files[i].mtime
    decreases |files| - k
  {
    if k == |files| then best
    else if files[k].mtime > files[best].mtime then LatestFrom(files, k, k + 1)
    else LatestFrom(files, best, k + 1)
  }

  /** `max(files, key=os.path.getmtime)` as an index into `files`. */
  function Latest(files: seq<Entry>): (i: nat)
    requires |files| > 0
    ensures i < |files|
    ensures forall j :: 0 <= j < |files| ==> files[j].mtime <= files[i].mtime
    ensures forall j :: 0 <= j < i ==> files[j].mtime < files[i].mtime
  {
    LatestFrom(files, 0, 1)
  }

  /** Those two properties pin the choice down: the first file of greatest
      modification time is the only index that has both. */
  lemma LatestUnique(files: seq<Entry>, i: nat)
    requires i < |files|
    requires forall j :: 0 <= j < |files| ==> files[j].mtime <= files[i].mtime
    requires forall j :: 0 <= j < i ==> files[j].mtime < files[i].mtime
    ensures Latest(files) == i
  {
  }

  /** `get_latest_file()` over the directory as the operating system lists
      it: the served file, or 404 when no `.zip` file exists. The name the
      response carries is the served file's own name. */
  function GetLatest(listing: seq<Entry>): (r: Result<Entry, HttpError>)
    ensures r.Err? <==> forall e :: e in listing ==> !IsZip(e.name)
    ensures r.Err? ==> r.error == NoFiles
    ensures r.Ok? ==> r.value in listing && IsZip(r.value.name)
    ensures r.Ok? ==> forall e :: e in listing && IsZip(e.name) ==> e.mtime <= r.value.mtime
    ensures r.Ok? ==> exists i :: 0 <= i < |listing| && listing[i] == r.value
                        && forall j :: 0 <= j < i && IsZip(listing[j].name) ==> listing[j].mtime < r.value.mtime
  {
    var files := Candidates(listing);
    CandidatesMembers(listing);
    if |files| == 0 then Err(NoFiles)
    else
      var i := Latest(files);
      assert files[i] in files;
      assert forall e :: e in files ==> exists j :: 0 <= j < |files| && files[j] == e;
      FirstLatestInListing(listing, i);
      Ok(files[i])
  }

  /** After a successful upload whose clock reading is later than every
      `.zip` file already there, the latest file is the one just stored,
      wherever the listing puts it. */
  lemma UploadThenLatest(dir: seq<Entry>, filename: string, content: seq<Byte>, now: nat, listing: seq<Entry>)
    requires IsZip(filename) && Paths.Sep !in filename
    requires forall e :: e in dir && IsZip(e.name) ==> e.mtime < now
    requires forall e :: e in listing <==> e in Upload(dir, filename, content, now).dir
    ensures GetLatest(listing) == Ok(Entry(StoredName(now, filename), now, content))
  {
    var stored := Entry(StoredName(now, filename), now, content);
    StoredNameIsZip(now, filename);
    assert stored in listing;
    var r := GetLatest(listing);
    assert r.Ok?;
    assert stored.mtime <= r.value.mtime;
  }

  /** Characters the download name survives URL quoting unchanged with:
      ASCII letters, digits, and `_ . - ~`. */
  predicate UrlSafe(name: string)
  {
    forall k :: 0 <= k < |name| ==>
      var c := name[k];
      'a' <= c <= 'z' || 'A' <= c <= 'Z' || '0' <= c <= '9' || c == '_' || c == '.' || c == '-' || c == '~'
  }

  /** The `Content-Disposition` header `FileResponse` sends for such a
      name. */
  function ServedDisposition(name: string): string
  {
    Disposition.Attachment + Disposition.Key + [Disposition.Quote] + name + [Disposition.Quote]
  }

  /** The download clients read the served name back exactly. */
  lemma ServedNameRoundTrip(name: string)
    requires UrlSafe(name)
    ensures Disposition.FilenameFromDisposition(Some(ServedDisposition(name))) == Some(name)
  {
    if |name| > 0 {
      assert name[0] != Disposition.Quote && name[|name| - 1] != Disposition.Quote;
    }
    assert Disposition.Newline !in name by {
      forall k | 0 <= k < |name|
        ensures name[k] != Disposition.Newline
      {
      }
    }
    Disposition.AttachmentRoundTrip(name);
  }
}
