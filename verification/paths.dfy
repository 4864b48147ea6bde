/** The two ways the code takes the last component of a POSIX path:
    `os.path.basename(p)` in the upload client and `pathlib.Path(p).name` on
    the server. They differ on trailing separators and `.` components. */
module Paths {
  import opened Common

  const Sep: char := '/'

  /** `p.rfind("/")`: the index of the last `/`, or -1 when there is none. */
  function LastSep(p: string): (i: int)
    ensures -1 <= i < |p|
    ensures i >= 0 ==> p[i] == Sep
    ensures Sep !in p[i + 1..]
    decreases |p|
  {
    if |p| == 0 then -1
    else if p[|p| - 1] == Sep then |p| - 1
    else LastSep(p[..|p| - 1])
  }

  /** `os.path.basename(p)`: everything after the last `/` (all of `p` when
      there is none, the empty string when `p` ends in `/`). */
  function BaseName(p: string): (r: string)
    ensures Sep !in r
    ensures EndsWith(p, r)
    ensures |r| < |p| ==> p[|p| - |r| - 1] == Sep
  {
    p[LastSep(p) + 1..]
  }

  /** A path without separators is its own base name. */
  lemma BaseNameNoSep(p: string)
    requires Sep !in p
    ensures BaseName(p) == p
  {
    assert p[0..] == p;
  }

  /** `pathlib.PurePosixPath(p).name`: the last component once the path is
      split at `/` and empty and `.` components are dropped; empty when no
      component is left (`""`, `"."`, `"/"`, `"a/./"` has name `"a"`). */
  function PathName(p: string): (r: string)
    ensures Sep !in r
    ensures r != "."
    decreases |p|
  {
    var b := BaseName(p);
    if Kept(b) then b
    else if LastSep(p) < 0 then ""
    else
      var r := PathName(p[..LastSep(p)]);
      assert Sep !in r && r != ".";
      r
  }

  /** `p.split("/")`: the texts between separators, in order. */
  function Split(p: string): (parts: seq<string>)
    ensures |parts| >= 1
    decreases |p|
  {
    if |p| == 0 then [""]
    else if p[0] == Sep then [""] + Split(p[1..])
    else
      var rest := Split(p[1..]);
      [[p[0]] + rest[0]] + rest[1..]
  }

  /** Components that `pathlib` keeps when it parses a path. */
  predicate Kept(part: string)
  {
    part != "" && part != "."
  }

  /** The last kept component of a split path, or `""` when none is kept. */
  function LastKept(parts: seq<string>): (r: string)
    ensures r == "" || r in parts
  {
    if |parts| == 0 then ""
    else if Kept(parts[|parts| - 1]) then parts[|parts| - 1]
    else LastKept(parts[..|parts| - 1])
  }

  lemma {:induction false} SplitNoSep(b: string)
    requires Sep !in b
    ensures Split(b) == [b]
    decreases |b|
  {
    if |b| > 0 {
      SplitNoSep(b[1..]);
      assert [b[0]] + b[1..] == b;
    }
  }

  /** Splitting `q + "/" + b` splits `q` and adds `b` as the last part. */
  lemma {:induction false} SplitAppend(q: string, b: string)
    requires Sep !in b
    ensures Split(q + [Sep] + b) == Split(q) + [b]
    decreases |q|
  {
    var p := q + [Sep] + b;
    if |q| == 0 {
      assert p[1..] == b;
      SplitNoSep(b);
    } else {
      assert p[1..] == q[1..] + [Sep] + b;
      SplitAppend(q[1..], b);
    }
  }

  /** The last kept part of a path with a `/`: its base name if kept,
      otherwise that of its directory part. */
  lemma LastKeptAtLastSep(p: string)
    requires LastSep(p) >= 0
    ensures LastKept(Split(p)) == if Kept(BaseName(p)) then BaseName(p) else LastKept(Split(p[..LastSep(p)]))
  {
    var q := p[..LastSep(p)];
    var b := BaseName(p);
    assert p == q + [Sep] + b;
    SplitAppend(q, b);
    var parts := Split(q) + [b];
    assert parts[..|parts| - 1] == Split(q);
    if Kept(b) {
      assert LastKept(parts) == b;
    } else {
      assert LastKept(parts) == LastKept(Split(q));
    }
  }

  /** The last kept part of a path without a `/`: the whole path if kept. */
  lemma LastKeptWithoutSep(p: string)
    requires Sep !in p
    ensures LastKept(Split(p)) == if Kept(p) then p else ""
  {
    SplitNoSep(p);
    assert [p][..0] == [];
    if Kept(p) {
      assert LastKept([p]) == p;
    } else {
      assert LastKept([p]) == LastKept([]);
    }
  }

  /** One step of `PathName`: the base name if it is a kept component,
      otherwise the name of the directory part. */
  lemma PathNameStep(p: string)
    ensures PathName(p) == if Kept(BaseName(p)) then BaseName(p)
                           else if LastSep(p) < 0 then "" else PathName(p[..LastSep(p)])
  {
  }

  /** `Path(p).name` is exactly the last component `p.split("/")` yields once
      empty and `.` components are dropped. */
  lemma {:induction false} PathNameIsLastKept(p: string)
    ensures PathName(p) == LastKept(Split(p))
    decreases |p|
  {
    PathNameStep(p);
    var b := BaseName(p);
    if LastSep(p) < 0 {
      assert p[0..] == p;
      BaseNameNoSep(p);
      LastKeptWithoutSep(p);
      if Kept(b) {
        assert PathName(p) == b == LastKept(Split(p));
      } else {
        assert PathName(p) == "" == LastKept(Split(p));
      }
    } else {
      var q := p[..LastSep(p)];
      LastKeptAtLastSep(p);
      PathNameIsLastKept(q);
      if Kept(b) {
        assert PathName(p) == b == LastKept(Split(p));
      } else {
        assert PathName(p) == PathName(q);
        assert LastKept(Split(p)) == LastKept(Split(q));
      }
    }
  }

  /** A path with no separator keeps its text as its name, except `.`,
      which names nothing. */
  lemma PathNameNoSep(p: string)
    requires Sep !in p
    ensures PathName(p) == if p == "." then "" else p
  {
  }

  /** Trailing separators do not change the name (`Path("a/b/").name` is
      `"b"`), which is where `Path.name` and `os.path.basename` part ways. */
  lemma PathNameTrailingSep(p: string)
    ensures PathName(p + [Sep]) == PathName(p)
  {
    assert BaseName(p + [Sep]) == "";
    assert (p + [Sep])[..|p|] == p;
  }

  /** When the base name is a real component the two functions agree. */
  lemma PathNameAgreesWithBaseName(p: string)
    requires BaseName(p) != "" && BaseName(p) != "."
    ensures PathName(p) == BaseName(p)
  {
  }
}
