/** The base 64 encoding of section 4 of RFC 4648 (alphabet `A-Z a-z 0-9 + /`,
    `=` padding), as `base64.b64encode` produces it, together with a strict
    decoder that accepts exactly the canonical encodings. */
module Base64 {
  import opened Common

  type Index = i: int | 0 <= i < 64

  const Pad: char := '='

  /** The character for a 6-bit value (Table 1 of RFC 4648). */
  function Char(i: Index): (c: char)
  {
    if i < 26 then ('A' as int + i) as char
    else if i < 52 then ('a' as int + (i - 26)) as char
    else if i < 62 then ('0' as int + (i - 52)) as char
    else if i == 62 then '+'
    else '/'
  }

  predicate InAlphabet(c: char)
  {
    'A' <= c <= 'Z' || 'a' <= c <= 'z' || '0' <= c <= '9' || c == '+' || c == '/'
  }

  /** The 6-bit value of an alphabet character: the inverse of `Char`. */
  function IndexOf(c: char): (i: Index)
    requires InAlphabet(c)
    ensures Char(i) == c
  {
    if 'A' <= c <= 'Z' then c as int - 'A' as int
    else if 'a' <= c <= 'z' then c as int - 'a' as int + 26
    else if '0' <= c <= '9' then c as int - '0' as int + 52
    else if c == '+' then 62
    else 63
  }

  lemma CharInAlphabet(i: Index)
    ensures InAlphabet(Char(i))
    ensures IndexOf(Char(i)) == i
  {
  }

  /** Three octets become four characters, most significant bits first. */
  function EncodeTriple(a: Byte, b: Byte, c: Byte): string
  {
    [Char(a / 4), Char((a % 4) * 16 + b / 16), Char((b % 16) * 4 + c / 64), Char(c % 64)]
  }

  /** `base64.b64encode(data).decode()`. */
  function Encode(data: seq<Byte>): (s: string)
    decreases |data|
  {
    if |data| == 0 then ""
    else if |data| == 1 then [Char(data[0] / 4), Char((data[0] % 4) * 16), Pad, Pad]
    else if |data| == 2 then
      [Char(data[0] / 4), Char((data[0] % 4) * 16 + data[1] / 16), Char((data[1] % 16) * 4), Pad]
    else EncodeTriple(data[0], data[1], data[2]) + Encode(data[3..])
  }

  /** Four 6-bit values regrouped into three octets, most significant bits
      first. */
  function Octets3(i0: Index, i1: Index, i2: Index, i3: Index): seq<Byte>
  {
    [i0 * 4 + i1 / 16, (i1 % 16) * 16 + i2 / 4, (i2 % 4) * 64 + i3]
  }

  /** Three 6-bit values regrouped into two octets (the last two bits are
      unused). */
  function Octets2(i0: Index, i1: Index, i2: Index): seq<Byte>
  {
    [i0 * 4 + i1 / 16, (i1 % 16) * 16 + i2 / 4]
  }

  /** Two 6-bit values regrouped into one octet (the last four bits are
      unused). */
  function Octets1(i0: Index, i1: Index): seq<Byte>
  {
    [i0 * 4 + i1 / 16]
  }

  /** Encoding regrouped octets gives the characters back. */
  lemma EncodeOctets3(i0: Index, i1: Index, i2: Index, i3: Index)
    ensures var d := Octets3(i0, i1, i2, i3);
            EncodeTriple(d[0], d[1], d[2]) == [Char(i0), Char(i1), Char(i2), Char(i3)]
  {
    var d := Octets3(i0, i1, i2, i3);
    Ungroup(i0, i1, i2, i3);
    assert d[0] / 4 == i0;
    assert (d[0] % 4) * 16 + d[1] / 16 == i1;
    assert (d[1] % 16) * 4 + d[2] / 64 == i2;
    assert d[2] % 64 == i3;
  }

  /** The same for two octets, when the unused bits are zero. */
  lemma EncodeOctets2(i0: Index, i1: Index, i2: Index)
    requires i2 % 4 == 0
    ensures Encode(Octets2(i0, i1, i2)) == [Char(i0), Char(i1), Char(i2), Pad]
  {
    Ungroup(i0, i1, i2, 0);
  }

  /** The same for one octet, when the unused bits are zero. */
  lemma EncodeOctets1(i0: Index, i1: Index)
    requires i1 % 16 == 0
    ensures Encode(Octets1(i0, i1)) == [Char(i0), Char(i1), Pad, Pad]
  {
    Ungroup(i0, i1, 0, 0);
  }

  /** Four characters of one quantum; the last quantum of a text may end in
      one or two pad characters, and the bits they leave unused must be zero
      (section 3.5 of RFC 4648), so that every decodable text is canonical. */
  function DecodeQuad(q: string, last: bool): (r: Option<seq<Byte>>)
    requires |q| == 4
  {
    if InAlphabet(q[0]) && InAlphabet(q[1]) && InAlphabet(q[2]) && InAlphabet(q[3]) then
      Some(Octets3(IndexOf(q[0]), IndexOf(q[1]), IndexOf(q[2]), IndexOf(q[3])))
    else if last && InAlphabet(q[0]) && InAlphabet(q[1]) && InAlphabet(q[2]) && q[3] == Pad
            && IndexOf(q[2]) % 4 == 0 then
      Some(Octets2(IndexOf(q[0]), IndexOf(q[1]), IndexOf(q[2])))
    else if last && InAlphabet(q[0]) && InAlphabet(q[1]) && q[2] == Pad && q[3] == Pad
            && IndexOf(q[1]) % 16 == 0 then
      Some(Octets1(IndexOf(q[0]), IndexOf(q[1])))
    else None
  }

  /** Strict decoding: the text must be whole quanta of alphabet characters,
      with padding only at the very end. */
  function Decode(s: string): (r: Option<seq<Byte>>)
    decreases |s|
  {
    if |s| == 0 then Some([])
    else if |s| < 4 then None
    else
      match DecodeQuad(s[..4], |s| == 4)
      case None => None
      case Some(head) =>
        match Decode(s[4..])
        case None => None
        case Some(tail) => Some(head + tail)
  }

  /** `x == q * d + r` with `0 <= r < d` pins down `x / d` and `x % d`. */
  lemma DivMod16(q: int, r: int)
    requires 0 <= r < 16
    ensures (q * 16 + r) / 16 == q && (q * 16 + r) % 16 == r
  {
  }

  lemma DivMod4(q: int, r: int)
    requires 0 <= r < 4
    ensures (q * 4 + r) / 4 == q && (q * 4 + r) % 4 == r
  {
  }

  lemma DivMod64(q: int, r: int)
    requires 0 <= r < 64
    ensures (q * 64 + r) / 64 == q && (q * 64 + r) % 64 == r
  {
  }

  /** Regrouping three octets into four 6-bit values and back is the identity. */
  lemma Regroup(a: Byte, b: Byte, c: Byte)
    ensures a / 4 * 4 + ((a % 4) * 16 + b / 16) / 16 == a
    ensures ((a % 4) * 16 + b / 16) % 16 * 16 + ((b % 16) * 4 + c / 64) / 4 == b
    ensures ((b % 16) * 4 + c / 64) % 4 * 64 + c % 64 == c
  {
    DivMod16(a % 4, b / 16);
    DivMod4(b % 16, c / 64);
  }

  lemma DecodeEncodeTriple(a: Byte, b: Byte, c: Byte, last: bool)
    ensures DecodeQuad(EncodeTriple(a, b, c), last) == Some([a, b, c])
  {
    var i0, i1, i2, i3 := a / 4, (a % 4) * 16 + b / 16, (b % 16) * 4 + c / 64, c % 64;
    var q := EncodeTriple(a, b, c);
    CharInAlphabet(i0);
    CharInAlphabet(i1);
    CharInAlphabet(i2);
    CharInAlphabet(i3);
    Regroup(a, b, c);
    assert IndexOf(q[0]) == i0 && IndexOf(q[1]) == i1 && IndexOf(q[2]) == i2 && IndexOf(q[3]) == i3;
  }

  lemma DecodeEncodeOne(a: Byte)
    ensures Decode(Encode([a])) == Some([a])
  {
    var s := Encode([a]);
    CharInAlphabet(a / 4);
    CharInAlphabet((a % 4) * 16);
    Regroup(a, 0, 0);
    assert IndexOf(s[0]) == a / 4 && IndexOf(s[1]) == (a % 4) * 16;
    assert s[..4] == s;
    assert DecodeQuad(s[..4], |s| == 4) == Some([a]);
    assert Decode(s[4..]) == Some([]);
    assert [a] + [] == [a];
  }

  lemma DecodeEncodeTwo(a: Byte, b: Byte)
    ensures Decode(Encode([a, b])) == Some([a, b])
  {
    var s := Encode([a, b]);
    CharInAlphabet(a / 4);
    CharInAlphabet((a % 4) * 16 + b / 16);
    CharInAlphabet((b % 16) * 4);
    Regroup(a, b, 0);
    var i0, i1, i2 := a / 4, (a % 4) * 16 + b / 16, (b % 16) * 4;
    assert i2 % 4 == 0 && i2 / 4 == b % 16;
    assert IndexOf(s[0]) == i0 && IndexOf(s[1]) == i1 && IndexOf(s[2]) == i2;
    assert [i0 * 4 + i1 / 16, (i1 % 16) * 16 + i2 / 4] == [a, b];
    assert s[..4] == s;
    assert !InAlphabet(s[3]);
    assert DecodeQuad(s[..4], |s| == 4) == Some([a, b]);
    assert Decode(s[4..]) == Some([]);
    assert [a, b] + [] == [a, b];
  }

  /** A decodable quantum followed by a decodable text decodes to both
      results joined. */
  lemma DecodeCons(q: string, rest: string, head: seq<Byte>, tail: seq<Byte>)
    requires |q| == 4
    requires DecodeQuad(q, |rest| == 0) == Some(head)
    requires Decode(rest) == Some(tail)
    ensures Decode(q + rest) == Some(head + tail)
  {
    var s := q + rest;
    assert s[..4] == q;
    assert s[4..] == rest;
  }

  /** More than two octets encode as a full quantum and then the rest. */
  lemma EncodeCons(data: seq<Byte>)
    requires |data| >= 3
    ensures Encode(data) == EncodeTriple(data[0], data[1], data[2]) + Encode(data[3..])
  {
  }

  lemma FirstThree(data: seq<Byte>)
    requires |data| >= 3
    ensures data[..3] == [data[0], data[1], data[2]]
  {
  }

  /** Every encoding decodes back to the octets it came from. */
  lemma {:induction false} DecodeEncode(data: seq<Byte>)
    ensures Decode(Encode(data)) == Some(data)
    decreases |data|
  {
    if |data| == 1 {
      DecodeEncodeOne(data[0]);
      assert data == [data[0]];
    } else if |data| == 2 {
      DecodeEncodeTwo(data[0], data[1]);
      assert data == [data[0], data[1]];
    } else if |data| >= 3 {
      var rest := data[3..];
      var t := EncodeTriple(data[0], data[1], data[2]);
      EncodeCons(data);
      DecodeEncodeTriple(data[0], data[1], data[2], |Encode(rest)| == 0);
      DecodeEncode(rest);
      FirstThree(data);
      DecodeCons(t, Encode(rest), data[..3], rest);
      assert data[..3] + data[3..] == data;
    }
  }

  /** Four 6-bit values regrouped into three octets split back into them. */
  lemma Ungroup(i0: Index, i1: Index, i2: Index, i3: Index)
    ensures (i0 * 4 + i1 / 16) / 4 == i0
    ensures (i0 * 4 + i1 / 16) % 4 * 16 + ((i1 % 16) * 16 + i2 / 4) / 16 == i1
    ensures ((i1 % 16) * 16 + i2 / 4) % 16 * 4 + ((i2 % 4) * 64 + i3) / 64 == i2
    ensures ((i2 % 4) * 64 + i3) % 64 == i3
  {
    DivMod4(i0, i1 / 16);
    DivMod16(i1 % 16, i2 / 4);
    DivMod64(i2 % 4, i3);
  }

  /** A quantum is the characters of its own 6-bit values. */
  lemma QuadChars(q: string)
    requires |q| == 4
    requires InAlphabet(q[0]) && InAlphabet(q[1])
    ensures q[0] == Char(IndexOf(q[0])) && q[1] == Char(IndexOf(q[1]))
    ensures q == [q[0], q[1], q[2], q[3]]
  {
  }

  lemma EncodeDecodeFull(q: string, last: bool, d: seq<Byte>)
    requires |q| == 4
    requires InAlphabet(q[0]) && InAlphabet(q[1]) && InAlphabet(q[2]) && InAlphabet(q[3])
    requires DecodeQuad(q, last) == Some(d)
    ensures |d| == 3 && q == EncodeTriple(d[0], d[1], d[2])
  {
    QuadChars(q);
    EncodeOctets3(IndexOf(q[0]), IndexOf(q[1]), IndexOf(q[2]), IndexOf(q[3]));
  }

  lemma EncodeDecodeOnePad(q: string, d: seq<Byte>)
    requires |q| == 4
    requires InAlphabet(q[0]) && InAlphabet(q[1]) && InAlphabet(q[2]) && q[3] == Pad
    requires DecodeQuad(q, true) == Some(d)
    ensures |d| == 2 && q == Encode(d)
  {
    QuadChars(q);
    EncodeOctets2(IndexOf(q[0]), IndexOf(q[1]), IndexOf(q[2]));
  }

  lemma EncodeDecodeTwoPads(q: string, d: seq<Byte>)
    requires |q| == 4
    requires InAlphabet(q[0]) && InAlphabet(q[1]) && q[2] == Pad && q[3] == Pad
    requires DecodeQuad(q, true) == Some(d)
    ensures |d| == 1 && q == Encode(d)
  {
    QuadChars(q);
    EncodeOctets1(IndexOf(q[0]), IndexOf(q[1]));
  }

  /** A decodable quantum is the encoding of what it decodes to. */
  lemma EncodeDecodeQuad(q: string, last: bool, d: seq<Byte>)
    requires |q| == 4
    requires DecodeQuad(q, last) == Some(d)
    ensures 1 <= |d| <= 3
    ensures |d| < 3 ==> last
    ensures |d| == 3 ==> q == EncodeTriple(d[0], d[1], d[2])
    ensures |d| < 3 ==> q == Encode(d)
  {
    if InAlphabet(q[0]) && InAlphabet(q[1]) && InAlphabet(q[2]) && InAlphabet(q[3]) {
      EncodeDecodeFull(q, last, d);
    } else if InAlphabet(q[0]) && InAlphabet(q[1]) && InAlphabet(q[2]) && q[3] == Pad {
      EncodeDecodeOnePad(q, d);
    } else {
      EncodeDecodeTwoPads(q, d);
    }
  }

  /** Every decodable text is the encoding of what it decodes to, so `Encode`
      and `Decode` are inverse bijections between octet strings and canonical
      base 64 texts. */
  lemma {:induction false} EncodeDecode(s: string, data: seq<Byte>)
    requires Decode(s) == Some(data)
    ensures Encode(data) == s
    decreases |s|
  {
    if |s| > 0 {
      var head :| DecodeQuad(s[..4], |s| == 4) == Some(head);
      EncodeDecodeQuad(s[..4], |s| == 4, head);
      var tail :| Decode(s[4..]) == Some(tail);
      assert data == head + tail;
      EncodeDecode(s[4..], tail);
      if |head| < 3 {
        assert |s| == 4;
        assert tail == [];
        assert data == head;
      } else {
        assert data[3..] == tail;
        assert s == s[..4] + s[4..];
      }
    }
  }

  /** Both directions of the correspondence together. */
  lemma DecodeIffEncode(s: string, data: seq<Byte>)
    ensures Decode(s) == Some(data) <==> s == Encode(data)
  {
    if Decode(s) == Some(data) {
      EncodeDecode(s, data);
    }
    if s == Encode(data) {
      DecodeEncode(data);
    }
  }

  /** Every character of a full quantum is in the alphabet. */
  lemma TripleChars(a: Byte, b: Byte, c: Byte)
    ensures forall i :: 0 <= i < 4 ==> InAlphabet(EncodeTriple(a, b, c)[i])
  {
    CharInAlphabet(a / 4);
    CharInAlphabet((a % 4) * 16 + b / 16);
    CharInAlphabet((b % 16) * 4 + c / 64);
    CharInAlphabet(c % 64);
  }

  lemma DivThreeStep(n: nat)
    requires n >= 3
    ensures n / 3 == (n - 3) / 3 + 1
  {
  }

  /** Four characters for every started group of three octets, and only
      alphabet and pad characters. */
  lemma {:induction false} EncodeShape(data: seq<Byte>)
    ensures |Encode(data)| == 4 * ((|data| + 2) / 3)
    ensures forall i :: 0 <= i < |Encode(data)| ==> InAlphabet(Encode(data)[i]) || Encode(data)[i] == Pad
    decreases |data|
  {
    if |data| == 1 {
      CharInAlphabet(data[0] / 4);
      CharInAlphabet((data[0] % 4) * 16);
    } else if |data| == 2 {
      CharInAlphabet(data[0] / 4);
      CharInAlphabet((data[0] % 4) * 16 + data[1] / 16);
      CharInAlphabet((data[1] % 16) * 4);
    } else if |data| >= 3 {
      var t := EncodeTriple(data[0], data[1], data[2]);
      var rest := Encode(data[3..]);
      EncodeCons(data);
      TripleChars(data[0], data[1], data[2]);
      EncodeShape(data[3..]);
      DivThreeStep(|data| + 2);
      forall i | 4 <= i < |Encode(data)|
        ensures Encode(data)[i] == rest[i - 4]
      {
      }
    }
  }
}
