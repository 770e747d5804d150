/**
  `mask_value`: the display form of a secret in list views. A value of at most
  eight bytes becomes that many `*`; a longer one keeps its first four and last
  four bytes around `...`.
*/
module Mask {
  import opened ByteStrings

  const ELLIPSIS: Bytes := [DOT, DOT, DOT]

  /** Rust's `str::is_char_boundary` on the UTF-8 bytes of a string. */
  predicate IsCharBoundary(s: Bytes, i: nat)
    requires i <= |s|
  {
    i == 0 || i == |s| || !(0x80 <= s[i] < 0xC0)
  }

  /** The slices `&value[..4]` and `&value[len-4..]` do not panic. */
  predicate Maskable(value: Bytes)
  {
    |value| <= 8 || (IsCharBoundary(value, 4) && IsCharBoundary(value, |value| - 4))
  }

  function MaskValue(value: Bytes): (r: Bytes)
    requires Maskable(value)
    ensures |value| <= 8 ==> |r| == |value| && forall i :: 0 <= i < |r| ==> r[i] == STAR
    ensures |value| > 8 ==> |r| == 11 && r[..4] == value[..4] && r[4..7] == ELLIPSIS && r[7..] == value[|value| - 4..]
  {
    if |value| <= 8 then seq(|value|, _ => STAR)
    else value[..4] + ELLIPSIS + value[|value| - 4..]
  }

  /**
    The masked form of a long value is determined by its first and last four
    bytes: whatever lies between them never reaches the display.
  */
  lemma MaskRevealsOnlyEnds(v: Bytes, w: Bytes)
    requires |v| > 8 && |w| > 8 && Maskable(v) && Maskable(w)
    requires v[..4] == w[..4] && v[|v| - 4..] == w[|w| - 4..]
    ensures MaskValue(v) == MaskValue(w)
  {
    var mv, mw := MaskValue(v), MaskValue(w);
    assert mv == mv[..4] + mv[4..7] + mv[7..];
    assert mw == mw[..4] + mw[4..7] + mw[7..];
  }

  /** The masked form of a short value depends on its length alone. */
  lemma MaskShortRevealsOnlyLength(v: Bytes, w: Bytes)
    requires |v| == |w| <= 8
    ensures MaskValue(v) == MaskValue(w)
  {
  }
}
