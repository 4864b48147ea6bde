/** Shared vocabulary: bytes, optional values, results, HTTP errors and the
    sequence helpers (concatenation, prefix, suffix) that every module uses. */
module Common {

  /** One octet, as Python's `bytes` holds them. */
  type Byte = b: int | 0 <= b < 256

  /** Python's `None` or a value. */
  datatype Option<+T> = None | Some(value: T)

  /** A value or an error; used for FastAPI handlers that either return a
      body or raise an `HTTPException`. */
  datatype Result<+T, +E> = Ok(value: T) | Err(error: E)

  /** What an `HTTPException(status_code, detail)` carries. */
  datatype HttpError = HttpError(status: nat, detail: string)

  function Min(a: nat, b: nat): (m: nat)
    ensures m <= a && m <= b
    ensures m == a || m == b
  {
    if a <= b then a else b
  }

  /** The pieces of `parts` joined in order, like `b"".join(parts)`. */
  function Concat<T>(parts: seq<seq<T>>): seq<T>
  {
    if |parts| == 0 then [] else parts[0] + Concat(parts[1..])
  }

  /** Python's `s.startswith(p)`. */
  predicate StartsWith<T(==)>(s: seq<T>, p: seq<T>)
  {
    |p| <= |s| && s[..|p|] == p
  }

  /** Python's `s.endswith(p)`. */
  predicate EndsWith<T(==)>(s: seq<T>, p: seq<T>)
  {
    |p| <= |s| && s[|s| - |p|..] == p
  }

  /** Adding a key and then removing it leaves the map without that key. */
  lemma RemoveUpdated<K, V>(m: map<K, V>, k: K, v: V)
    ensures m[k := v] - {k} == m - {k}
  {
  }

  /** Whatever precedes a suffix, the suffix stays a suffix. */
  lemma EndsWithAppend<T>(front: seq<T>, back: seq<T>)
    ensures EndsWith(front + back, back)
  {
    assert (front + back)[|front + back| - |back|..] == back;
  }

  /** A suffix of a suffix is a suffix. */
  lemma EndsWithTransitive<T>(s: seq<T>, mid: seq<T>, p: seq<T>)
    requires EndsWith(s, mid) && EndsWith(mid, p)
    ensures EndsWith(s, p)
  {
    assert s[|s| - |p|..] == mid[|mid| - |p|..];
  }
}
