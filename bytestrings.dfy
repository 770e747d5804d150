/**
  Byte strings. A Rust `String` or `&str` is modelled as its UTF-8 bytes, so that
  `len()` and slicing work on byte positions exactly as they do in the source.
*/
module ByteStrings {
  import opened Options

  newtype byte = x: int | 0 <= x < 256
  type Bytes = seq<byte>

  const LF: byte := 10
  const CR: byte := 13
  const DQUOTE: byte := 34
  const HASH: byte := 35
  const PERCENT: byte := 37
  const SQUOTE: byte := 39
  const STAR: byte := 42
  const DOT: byte := 46
  const EQUALS: byte := 61
  const BACKSLASH: byte := 92
  const UNDERSCORE: byte := 95

  /** The bytes of an ASCII string literal (every character below 128 is one byte). */
  function FromAscii(s: string): (r: Bytes)
    ensures |r| == |s|
  {
    seq(|s|, i requires 0 <= i < |s| => (s[i] as int % 256) as byte)
  }

  /** Position of the first occurrence of `b`, as `str::find` / `split_once` locate it. */
  function IndexOf(s: Bytes, b: byte): (r: Option<nat>)
    ensures r.Some? ==> r.value < |s| && s[r.value] == b && b !in s[..r.value]
    ensures r.None? ==> b !in s
  {
    if s == [] then None
    else if s[0] == b then Some(0)
    else match IndexOf(s[1..], b)
      case None => None
      case Some(i) => assert s[1..][..i] == s[1..i + 1]; Some(i + 1)
  }

  lemma IndexOfSeparator(a: Bytes, b: byte, c: Bytes)
    requires b !in a
    ensures IndexOf(a + [b] + c, b) == Some(|a|)
  {
    var s := a + [b] + c;
    assert s[|a|] == b;
    assert s[..|a|] == a;
  }

  /** `pat` occurs in `s` starting at byte `i`. */
  predicate OccursAt(pat: Bytes, s: Bytes, i: nat)
  {
    i + |pat| <= |s| && s[i..i + |pat|] == pat
  }

  /** Rust's `str::contains` with a string pattern, on the bytes of both strings. */
  predicate Contains(s: Bytes, pat: Bytes)
  {
    exists i: int | 0 <= i && i + |pat| <= |s| :: OccursAt(pat, s, i)
  }
}
