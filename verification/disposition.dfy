/** `get_filename_from_cd`: the file name a download client reads out of a
    `Content-Disposition` header with the pattern `filename=(.+)`, then
    `strip('"')`. */
module Disposition {
  import opened Common

  const Key: string := "filename="
  const Quote: char := '"'
  const Newline: char := '\n'

  /** The pattern `filename=(.+)` matches at `i`: the key, then at least one
      character that `.` accepts (anything but a newline). */
  predicate MatchesAt(cd: string, i: nat)
  {
    i + |Key| < |cd| && cd[i..i + |Key|] == Key && cd[i + |Key|] != Newline
  }

  /** Where the greedy `.+` stops: the first newline at or after `from`, or
      the end of the text. */
  function LineEnd(s: string, from: nat): (e: nat)
    requires from <= |s|
    ensures from <= e <= |s|
    ensures e < |s| ==> s[e] == Newline
    ensures forall k :: from <= k < e ==> s[k] != Newline
    decreases |s| - from
  {
    if from == |s| || s[from] == Newline then from else LineEnd(s, from + 1)
  }

  /** The leftmost match at or after `from`: the first hit of `re.findall`. */
  function FirstMatch(cd: string, from: nat): (r: Option<nat>)
    ensures r.Some? ==> from <= r.value && MatchesAt(cd, r.value)
    ensures r.Some? ==> forall j :: from <= j < r.value ==> !MatchesAt(cd, j)
    ensures r.None? ==> forall j :: from <= j ==> !MatchesAt(cd, j)
    decreases |cd| - from
  {
    if from + |Key| >= |cd| then None
    else if MatchesAt(cd, from) then Some(from)
    else FirstMatch(cd, from + 1)
  }

  /** Conversely, a match with none before it is the one found. */
  lemma {:induction false} FirstMatchIsLeftmost(cd: string, from: nat, i: nat)
    requires from <= i && MatchesAt(cd, i)
    requires forall j :: from <= j < i ==> !MatchesAt(cd, j)
    ensures FirstMatch(cd, from) == Some(i)
    decreases i - from
  {
    if from < i {
      FirstMatchIsLeftmost(cd, from + 1, i);
    }
  }

  /** `s.lstrip('"')`. */
  function StripLeading(s: string): (r: string)
    ensures EndsWith(s, r)
    ensures forall k :: 0 <= k < |s| - |r| ==> s[k] == Quote
    ensures |r| > 0 ==> r[0] != Quote
    decreases |s|
  {
    if |s| > 0 && s[0] == Quote then StripLeading(s[1..]) else s
  }

  /** `s.rstrip('"')`. */
  function StripTrailing(s: string): (r: string)
    ensures StartsWith(s, r)
    ensures forall k :: |r| <= k < |s| ==> s[k] == Quote
    ensures |r| > 0 ==> r[|r| - 1] != Quote
    decreases |s|
  {
    if |s| > 0 && s[|s| - 1] == Quote then StripTrailing(s[..|s| - 1]) else s
  }

  /** `s.strip('"')`. */
  function StripQuotes(s: string): (r: string)
  {
    StripTrailing(StripLeading(s))
  }

  /** `strip('"')` keeps the slice of `s` between its run of leading quotes
      and its run of trailing quotes: everything cut away is a quote, and
      what is kept neither starts nor ends with one. */
  lemma StripQuotesSlice(s: string)
    ensures var r := StripQuotes(s);
            var i := |s| - |StripLeading(s)|;
            && i + |r| <= |s|
            && r == s[i..i + |r|]
            && (forall k :: 0 <= k < i ==> s[k] == Quote)
            && (forall k :: i + |r| <= k < |s| ==> s[k] == Quote)
            && (|r| > 0 ==> r[0] != Quote && r[|r| - 1] != Quote)
  {
    var l := StripLeading(s);
    var r := StripQuotes(s);
    var i := |s| - |l|;
    assert l == s[i..];
    assert r == l[..|r|];
    forall k | i + |r| <= k < |s|
      ensures s[k] == Quote
    {
      assert s[k] == l[k - i];
    }
  }

  /** A text that neither starts nor ends with a quote is left alone. */
  lemma StripQuotesUnchanged(s: string)
    requires |s| > 0 ==> s[0] != Quote && s[|s| - 1] != Quote
    ensures StripQuotes(s) == s
  {
  }

  /** Stripping twice strips nothing more. */
  lemma StripQuotesIdempotent(s: string)
    ensures StripQuotes(StripQuotes(s)) == StripQuotes(s)
  {
    StripQuotesSlice(s);
    StripQuotesUnchanged(StripQuotes(s));
  }

  /** `get_filename_from_cd(cd)`; `None` stands for a missing header. */
  function FilenameFromDisposition(cd: Option<string>): (r: Option<string>)
  {
    if cd.None? || cd.value == "" then None
    else match FirstMatch(cd.value, 0)
      case None => None
      case Some(i) => Some(StripQuotes(cd.value[i + |Key|..LineEnd(cd.value, i + |Key|)]))
  }

  /** What `get_filename_from_cd` returns, stated without reference to how it
      searches: nothing for a missing or empty header or one where no
      `filename=` is followed by a character on its line; otherwise the rest
      of the line after the leftmost such `filename=`, stripped of quotes,
      which then neither starts nor ends with a quote. */
  lemma FilenameFromDispositionSpec(cd: Option<string>)
    ensures cd.None? || cd == Some("") ==> FilenameFromDisposition(cd).None?
    ensures cd.Some? && cd.value != "" ==>
              (FilenameFromDisposition(cd).None? <==> forall j :: !MatchesAt(cd.value, j))
    ensures FilenameFromDisposition(cd).Some? ==>
              cd.Some? &&
              exists i: nat :: && MatchesAt(cd.value, i)
                          && (forall j :: 0 <= j < i ==> !MatchesAt(cd.value, j))
                          && FilenameFromDisposition(cd).value
                             == StripQuotes(cd.value[i + |Key|..LineEnd(cd.value, i + |Key|)])
    ensures FilenameFromDisposition(cd).Some? && |FilenameFromDisposition(cd).value| > 0 ==>
              var v := FilenameFromDisposition(cd).value;
              v[0] != Quote && v[|v| - 1] != Quote
  {
    if FilenameFromDisposition(cd).Some? {
      var i := FirstMatch(cd.value, 0).value;
      StripQuotesSlice(cd.value[i + |Key|..LineEnd(cd.value, i + |Key|)]);
    }
  }

  const Attachment: string := "attachment; "

  /** No match can start at a character other than `f`. */
  lemma NoMatchAt(cd: string, j: nat)
    requires j < |cd| && cd[j] != Key[0]
    ensures !MatchesAt(cd, j)
  {
    if j + |Key| < |cd| {
      assert cd[j..j + |Key|][0] == cd[j];
    }
  }

  lemma AttachmentHasNoF(j: nat)
    requires j < |Attachment|
    ensures Attachment[j] != Key[0]
  {
    assert Key[0] == 'f';
    if j < 6 {
      assert j == 0 || j == 1 || j == 2 || j == 3 || j == 4 || j == 5;
    } else {
      assert j == 6 || j == 7 || j == 8 || j == 9 || j == 10 || j == 11;
    }
  }

  /** No match starts inside the `attachment; ` prefix. */
  lemma NoMatchInAttachment(rest: string)
    ensures forall j :: 0 <= j < |Attachment| ==> !MatchesAt(Attachment + Key + rest, j)
  {
    var cd := Attachment + Key + rest;
    forall j | 0 <= j < |Attachment|
      ensures !MatchesAt(cd, j)
    {
      assert cd[j] == Attachment[j];
      AttachmentHasNoF(j);
      NoMatchAt(cd, j);
    }
  }

  /** In `attachment; filename=...` the first match is the one after the
      `attachment; ` prefix. */
  lemma AttachmentMatch(rest: string)
    requires |rest| > 0 && rest[0] != Newline
    ensures FirstMatch(Attachment + Key + rest, 0) == Some(|Attachment|)
  {
    var cd := Attachment + Key + rest;
    var i := |Attachment|;
    assert cd[i..i + |Key|] == Key;
    assert cd[i + |Key|] == rest[0];
    NoMatchInAttachment(rest);
    FirstMatchIsLeftmost(cd, 0, i);
  }

  /** Quotes around a name that neither starts nor ends with one come off. */
  lemma StripQuotedName(name: string)
    requires |name| > 0 ==> name[0] != Quote && name[|name| - 1] != Quote
    ensures StripQuotes([Quote] + name + [Quote]) == name
  {
    var quoted := [Quote] + name + [Quote];
    assert quoted[1..] == name + [Quote];
    if |name| == 0 {
      assert StripLeading(name + [Quote]) == "";
    } else {
      assert StripLeading(name + [Quote]) == name + [Quote];
      assert (name + [Quote])[..|name|] == name;
    }
  }

  /** The header Starlette's `FileResponse` writes for an ASCII name,
      `attachment; filename="<name>"`, is read back as `<name>` whenever
      the name has no newline and neither starts nor ends with a quote. */
  lemma AttachmentRoundTrip(name: string)
    requires Newline !in name
    requires |name| > 0 ==> name[0] != Quote && name[|name| - 1] != Quote
    ensures FilenameFromDisposition(Some(Attachment + Key + [Quote] + name + [Quote])) == Some(name)
  {
    var quoted := [Quote] + name + [Quote];
    var cd := Attachment + Key + quoted;
    assert cd == Attachment + Key + [Quote] + name + [Quote];
    var start := |Attachment| + |Key|;
    AttachmentMatch(quoted);
    assert cd[start..] == quoted;
    assert Newline !in quoted;
    forall k | start <= k < |cd|
      ensures cd[k] != Newline
    {
      assert cd[k] == quoted[k - start];
    }
    assert LineEnd(cd, start) == |cd|;
    assert cd[start..|cd|] == quoted;
    StripQuotedName(name);
    assert |cd| > 0;
    assert FilenameFromDisposition(Some(cd)) == Some(StripQuotes(cd[start..LineEnd(cd, start)]));
  }

  /** `filename=""` parses to the empty name, which the download clients
      treat like a missing header. */
  lemma EmptyQuotedName()
    ensures FilenameFromDisposition(Some(Attachment + Key + [Quote, Quote])) == Some("")
  {
    AttachmentRoundTrip("");
    assert Attachment + Key + [Quote] + "" + [Quote] == Attachment + Key + [Quote, Quote];
  }
}
