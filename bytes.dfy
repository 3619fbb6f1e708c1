/** Bytes, the ASCII constants the grammars mention, and ASCII case folding. */
module Bytes {
  newtype uint8 = x: int | 0 <= x < 256

  type Bytes = seq<uint8>

  /** The bytes of a string literal whose characters are all below U+0100. */
  function ToBytes(s: string): (b: Bytes)
    ensures |b| == |s|
  {
    seq(|s|, i requires 0 <= i < |s| => (s[i] as int % 256) as uint8)
  }

  const SP: uint8 := 32
  const HTAB: uint8 := 9
  const CR: uint8 := 13
  const LF: uint8 := 10
  const COLON: uint8 := 58
  const CRLF: Bytes := [CR, LF]

  predicate IsAsciiUpper(c: uint8) { 'A' as uint8 <= c <= 'Z' as uint8 }

  predicate IsAsciiLower(c: uint8) { 'a' as uint8 <= c <= 'z' as uint8 }

  predicate IsAsciiDigit(c: uint8) { '0' as uint8 <= c <= '9' as uint8 }

  /** `u8::to_ascii_lowercase`: maps `A`-`Z` to `a`-`z` and leaves every other byte alone. */
  function ToAsciiLower(c: uint8): (r: uint8)
    ensures IsAsciiUpper(c) ==> r as int == c as int + 32 && IsAsciiLower(r)
    ensures !IsAsciiUpper(c) ==> r == c
  {
    if IsAsciiUpper(c) then c + 32 else c
  }

  /** `<[u8]>::eq_ignore_ascii_case`: same length, and equal byte by byte after lowering. */
  predicate EqIgnoreAsciiCase(a: Bytes, b: Bytes) {
    |a| == |b| && forall i :: 0 <= i < |a| ==> ToAsciiLower(a[i]) == ToAsciiLower(b[i])
  }

  /** `<[u8]>::to_ascii_lowercase`. */
  function Lowercase(a: Bytes): (r: Bytes)
    ensures |r| == |a|
    ensures forall i :: 0 <= i < |a| ==> r[i] == ToAsciiLower(a[i])
  {
    seq(|a|, i requires 0 <= i < |a| => ToAsciiLower(a[i]))
  }

  /** Comparing ignoring ASCII case is comparing the lowered forms. */
  lemma EqIgnoreAsciiCaseIsLowercaseEq(a: Bytes, b: Bytes)
    ensures EqIgnoreAsciiCase(a, b) <==> Lowercase(a) == Lowercase(b)
  {
    if Lowercase(a) == Lowercase(b) {
      assert |a| == |b|;
      forall i | 0 <= i < |a| ensures ToAsciiLower(a[i]) == ToAsciiLower(b[i]) {
        assert Lowercase(a)[i] == Lowercase(b)[i];
      }
    }
  }

  /** Every element of `s` satisfies `p`. */
  predicate All<C>(s: seq<C>, p: C -> bool) {
    forall i :: 0 <= i < |s| ==> p(s[i])
  }
}
