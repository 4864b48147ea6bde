/** The `f"{timestamp}_{name}"` scheme both servers use to name what they
    store, and the split that recovers its two halves. */
module Naming {
  import opened Common
  import opened Decimal

  const Joiner: char := '_'

  /** `f"{timestamp}_{name}"` for a whole-second Unix time. */
  function TimestampedName(timestamp: nat, name: string): (r: string)
    ensures EndsWith(r, [Joiner] + name)
    ensures StartsWith(r, NatToString(timestamp))
  {
    var t := NatToString(timestamp);
    EndsWithAppend(t, [Joiner] + name);
    t + [Joiner] + name
  }

  /** A stored name holds only digits, `_` and the characters of the name:
      any other character absent from the name is absent from it. */
  lemma TimestampedNameAvoids(timestamp: nat, name: string, c: char)
    requires c !in name && c != Joiner && !IsDigit(c)
    ensures c !in TimestampedName(timestamp, name)
  {
    var t := NatToString(timestamp);
    var r := TimestampedName(timestamp, name);
    forall k | 0 <= k < |r|
      ensures r[k] != c
    {
      if k < |t| {
        assert r[k] == t[k] && IsDigit(t[k]);
      } else if k > |t| {
        assert r[k] == name[k - |t| - 1];
      }
    }
  }

  /** Index of the first `_` in `s`, if any. */
  function FirstJoiner(s: string): (r: Option<nat>)
    ensures r.Some? ==> r.value < |s| && s[r.value] == Joiner
                        && forall k :: 0 <= k < r.value ==> s[k] != Joiner
    ensures r.None? ==> Joiner !in s
    decreases |s|
  {
    if |s| == 0 then None
    else if s[0] == Joiner then Some(0)
    else match FirstJoiner(s[1..])
         case None => None
         case Some(i) => Some(i + 1)
  }

  /** Reads a stored name back as its timestamp and original name: the text
      before the first `_` must be a non-empty run of digits. */
  function SplitTimestamped(s: string): (r: Option<(nat, string)>)
  {
    match FirstJoiner(s)
    case None => None
    case Some(i) =>
      if i == 0 || !AllDigits(s[..i]) then None
      else Some((ParseDigits(s[..i]), s[i + 1..]))
  }

  /** The timestamp and the name are recovered exactly from a stored name,
      whatever the name contains (including further `_` characters). */
  lemma SplitTimestampedName(timestamp: nat, name: string)
    ensures SplitTimestamped(TimestampedName(timestamp, name)) == Some((timestamp, name))
  {
    var t := NatToString(timestamp);
    var s := TimestampedName(timestamp, name);
    assert forall k :: 0 <= k < |t| ==> s[k] == t[k] && IsDigit(t[k]);
    assert s[|t|] == Joiner;
    assert FirstJoiner(s) == Some(|t|);
    assert s[..|t|] == t;
    assert s[|t| + 1..] == name;
    ParseNatToString(timestamp);
  }

  /** Two stored names are equal only when both halves are. */
  lemma TimestampedNameInjective(t1: nat, n1: string, t2: nat, n2: string)
    requires TimestampedName(t1, n1) == TimestampedName(t2, n2)
    ensures t1 == t2 && n1 == n2
  {
    SplitTimestampedName(t1, n1);
    SplitTimestampedName(t2, n2);
  }
}
