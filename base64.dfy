/**
 * Base64 with the standard alphabet and `=` padding (section 4 of RFC 4648), the encoding
 * the `base64` crate's `STANDARD` engine writes. The decoder is strict: it accepts only
 * the canonical encoding of some byte string (section 3.5 of RFC 4648), so it inverts the
 * encoder exactly.
 */
module Base64 {
  import opened Bytes
  import opened Wrappers
  import Nom

  const PAD: uint8 := '=' as uint8

  /** The character for a 6-bit value: `A`-`Z`, `a`-`z`, `0`-`9`, `+`, `/`. */
  function Sextet(v: int): (c: uint8)
    requires 0 <= v < 64
  {
    if v < 26 then (65 + v) as uint8
    else if v < 52 then (97 + v - 26) as uint8
    else if v < 62 then (48 + v - 52) as uint8
    else if v == 62 then '+' as uint8
    else '/' as uint8
  }

  predicate IsAlphabet(c: uint8) {
    IsAsciiUpper(c) || IsAsciiLower(c) || IsAsciiDigit(c) || c == '+' as uint8 || c == '/' as uint8
  }

  /** The 6-bit value of an alphabet character; `None` for anything else, `=` included. */
  function SextetValue(c: uint8): (r: Option<int>)
    ensures r.Some? <==> IsAlphabet(c)
    ensures r.Some? ==> 0 <= r.value < 64 && Sextet(r.value) == c
  {
    if IsAsciiUpper(c) then Some(c as int - 65)
    else if IsAsciiLower(c) then Some(c as int - 97 + 26)
    else if IsAsciiDigit(c) then Some(c as int - 48 + 52)
    else if c == '+' as uint8 then Some(62)
    else if c == '/' as uint8 then Some(63)
    else None
  }

  lemma SextetInAlphabet(v: int)
    requires 0 <= v < 64
    ensures IsAlphabet(Sextet(v)) && Sextet(v) != PAD
    ensures SextetValue(Sextet(v)) == Some(v)
  {
  }

  /** Three bytes, 24 bits, as four characters. */
  function Group(a: uint8, b: uint8, c: uint8): Bytes {
    [Sextet(a as int / 4), Sextet(a as int % 4 * 16 + b as int / 16),
     Sextet(b as int % 16 * 4 + c as int / 64), Sextet(c as int % 64)]
  }

  /** A last group of two bytes: three characters, one pad. */
  function Tail2(a: uint8, b: uint8): Bytes {
    [Sextet(a as int / 4), Sextet(a as int % 4 * 16 + b as int / 16), Sextet(b as int % 16 * 4), PAD]
  }

  /** A last group of one byte: two characters, two pads. */
  function Tail1(a: uint8): Bytes {
    [Sextet(a as int / 4), Sextet(a as int % 4 * 16), PAD, PAD]
  }

  /** Four characters for every three bytes, rounding up: `4 * ((n + 2) / 3)`. */
  function EncodedLen(n: nat): nat {
    4 * ((n + 2) / 3)
  }

  function Encode(d: Bytes): Bytes {
    if |d| == 0 then []
    else if |d| == 1 then Tail1(d[0])
    else if |d| == 2 then Tail2(d[0], d[1])
    else Group(d[0], d[1], d[2]) + Encode(d[3..])
  }

  lemma LengthStep(n: nat)
    requires n >= 3
    ensures EncodedLen(n) == 4 + EncodedLen(n - 3)
  {
  }

  lemma {:induction false} EncodeLength(d: Bytes)
    ensures |Encode(d)| == EncodedLen(|d|)
    decreases |d|
  {
    if |d| >= 3 {
      EncodeLength(d[3..]);
      LengthStep(|d|);
      assert Encode(d) == Group(d[0], d[1], d[2]) + Encode(d[3..]);
    }
  }

  /** Four alphabet characters back to three bytes. */
  function DecodeGroup(q: Bytes): (r: Option<Bytes>)
    requires |q| == 4
  {
    var v0, v1, v2, v3 := SextetValue(q[0]), SextetValue(q[1]), SextetValue(q[2]), SextetValue(q[3]);
    if v0.None? || v1.None? || v2.None? || v3.None? then None
    else Some([(v0.value * 4 + v1.value / 16) as uint8,
               (v1.value % 16 * 16 + v2.value / 4) as uint8,
               (v2.value % 4 * 64 + v3.value) as uint8])
  }

  /**
   * The last four characters: a full group, or a group padded down to one or two bytes.
   * The bits that the padding leaves over must be zero.
   */
  function DecodeLast(q: Bytes): (r: Option<Bytes>)
    requires |q| == 4
  {
    var v0, v1, v2 := SextetValue(q[0]), SextetValue(q[1]), SextetValue(q[2]);
    if q[2] == PAD && q[3] == PAD then
      if v0.None? || v1.None? || v1.value % 16 != 0 then None
      else Some([(v0.value * 4 + v1.value / 16) as uint8])
    else if q[3] == PAD then
      if v0.None? || v1.None? || v2.None? || v2.value % 4 != 0 then None
      else Some([(v0.value * 4 + v1.value / 16) as uint8, (v1.value % 16 * 16 + v2.value / 4) as uint8])
    else DecodeGroup(q)
  }

  /** Strict decoding: `None` for a length off a multiple of four, a stray character or pad. */
  function Decode(e: Bytes): (r: Option<Bytes>)
    decreases |e|
  {
    if e == [] then Some([])
    else if |e| < 4 then None
    else if |e| == 4 then DecodeLast(e)
    else
      var g := DecodeGroup(e[..4]);
      var rest := Decode(e[4..]);
      if g.None? || rest.None? then None else Some(g.value + rest.value)
  }

  // Encoding then decoding gives the bytes back, group by group.

  /** The bit arithmetic of a group: the four 6-bit values put back together. */
  lemma GroupBits(a: int, b: int, c: int)
    requires 0 <= a < 256 && 0 <= b < 256 && 0 <= c < 256
    ensures var v1, v2 := a % 4 * 16 + b / 16, b % 16 * 4 + c / 64;
      && a / 4 * 4 + v1 / 16 == a && v1 % 16 * 16 + v2 / 4 == b && v2 % 4 * 64 + c % 64 == c
  {
    var v1, v2 := a % 4 * 16 + b / 16, b % 16 * 4 + c / 64;
    assert v1 / 16 == a % 4 && v1 % 16 == b / 16;
    assert v2 / 4 == b % 16 && v2 % 4 == c / 64;
  }

  lemma GroupRoundTrip(a: uint8, b: uint8, c: uint8)
    ensures DecodeGroup(Group(a, b, c)) == Some([a, b, c])
  {
    var v0, v1, v2, v3 := a as int / 4, a as int % 4 * 16 + b as int / 16, b as int % 16 * 4 + c as int / 64, c as int % 64;
    SextetInAlphabet(v0);
    SextetInAlphabet(v1);
    SextetInAlphabet(v2);
    SextetInAlphabet(v3);
    GroupBits(a as int, b as int, c as int);
  }

  lemma Tail2RoundTrip(a: uint8, b: uint8)
    ensures DecodeLast(Tail2(a, b)) == Some([a, b])
  {
    var v0, v1, v2 := a as int / 4, a as int % 4 * 16 + b as int / 16, b as int % 16 * 4;
    SextetInAlphabet(v0);
    SextetInAlphabet(v1);
    SextetInAlphabet(v2);
    assert v1 / 16 == a as int % 4 && v1 % 16 == b as int / 16;
    assert v2 / 4 == b as int % 16 && v2 % 4 == 0;
  }

  lemma Tail1RoundTrip(a: uint8)
    ensures DecodeLast(Tail1(a)) == Some([a])
  {
    var v0, v1 := a as int / 4, a as int % 4 * 16;
    SextetInAlphabet(v0);
    SextetInAlphabet(v1);
    assert v1 / 16 == a as int % 4 && v1 % 16 == 0;
  }

  /** The last group of a full encoding decodes as a full group. */
  lemma GroupIsLast(a: uint8, b: uint8, c: uint8)
    ensures DecodeLast(Group(a, b, c)) == Some([a, b, c])
  {
    SextetInAlphabet(b as int % 16 * 4 + c as int / 64);
    SextetInAlphabet(c as int % 64);
    GroupRoundTrip(a, b, c);
  }

  /** Decoding a full group followed by more groups. */
  lemma DecodeCons(q: Bytes, rest: Bytes)
    requires |q| == 4 && rest != []
    ensures Decode(q + rest)
         == if DecodeGroup(q).None? || Decode(rest).None? then None
            else Some(DecodeGroup(q).value + Decode(rest).value)
  {
    assert (q + rest)[..4] == q && (q + rest)[4..] == rest;
  }

  /** Sequences of one, two and three bytes are their displays. */
  lemma Displays(d: Bytes)
    ensures |d| == 1 ==> d == [d[0]]
    ensures |d| == 2 ==> d == [d[0], d[1]]
    ensures |d| == 3 ==> d == [d[0], d[1], d[2]]
  {
  }

  lemma EncodeOne(a: uint8)
    ensures Decode(Encode([a])) == Some([a])
  {
    assert Encode([a]) == Tail1(a);
    Tail1RoundTrip(a);
  }

  lemma EncodeTwo(a: uint8, b: uint8)
    ensures Decode(Encode([a, b])) == Some([a, b])
  {
    assert Encode([a, b]) == Tail2(a, b);
    Tail2RoundTrip(a, b);
  }

  lemma EncodeThree(a: uint8, b: uint8, c: uint8)
    ensures Decode(Encode([a, b, c])) == Some([a, b, c])
  {
    var e := Group(a, b, c);
    assert [a, b, c][3..] == [];
    Nom.AppendEmpty(e);
    assert Encode([a, b, c]) == e;
    GroupIsLast(a, b, c);
  }

  lemma {:induction false} DecodeEncode(d: Bytes)
    ensures Decode(Encode(d)) == Some(d)
    decreases |d|
  {
    if |d| == 0 {
    } else if |d| == 1 {
      Displays(d);
      EncodeOne(d[0]);
    } else if |d| == 2 {
      Displays(d);
      EncodeTwo(d[0], d[1]);
    } else if |d| == 3 {
      Displays(d);
      EncodeThree(d[0], d[1], d[2]);
    } else {
      var g := Group(d[0], d[1], d[2]);
      var rest := Encode(d[3..]);
      assert Encode(d) == g + rest;
      EncodeLength(d[3..]);
      GroupRoundTrip(d[0], d[1], d[2]);
      DecodeEncode(d[3..]);
      DecodeCons(g, rest);
      assert [d[0], d[1], d[2]] + d[3..] == d;
    }
  }

  // Whatever the strict decoder accepts is an encoding: decoding then encoding gives it back.

  /** Four sextets packed into three bytes unpack to the same sextets. */
  lemma SextetBits(v0: int, v1: int, v2: int, v3: int)
    requires 0 <= v0 < 64 && 0 <= v1 < 64 && 0 <= v2 < 64 && 0 <= v3 < 64
    ensures var t0, t1, t2 := v0 * 4 + v1 / 16, v1 % 16 * 16 + v2 / 4, v2 % 4 * 64 + v3;
      && 0 <= t0 < 256 && 0 <= t1 < 256 && 0 <= t2 < 256
      && t0 / 4 == v0 && t0 % 4 * 16 + t1 / 16 == v1
      && t1 % 16 * 4 + t2 / 64 == v2 && t2 % 64 == v3
  {
    var t0, t1, t2 := v0 * 4 + v1 / 16, v1 % 16 * 16 + v2 / 4, v2 % 4 * 64 + v3;
    assert t0 / 4 == v0 && t0 % 4 == v1 / 16;
    assert t1 / 16 == v1 % 16 && t1 % 16 == v2 / 4;
    assert t2 / 64 == v2 % 4 && t2 % 64 == v3;
  }

  lemma GroupOfSextets(v0: int, v1: int, v2: int, v3: int)
    requires 0 <= v0 < 64 && 0 <= v1 < 64 && 0 <= v2 < 64 && 0 <= v3 < 64
    ensures var t0, t1, t2 := v0 * 4 + v1 / 16, v1 % 16 * 16 + v2 / 4, v2 % 4 * 64 + v3;
      && 0 <= t0 < 256 && 0 <= t1 < 256 && 0 <= t2 < 256
      && Group(t0 as uint8, t1 as uint8, t2 as uint8) == [Sextet(v0), Sextet(v1), Sextet(v2), Sextet(v3)]
      && (v2 % 4 == 0 ==> Tail2(t0 as uint8, t1 as uint8) == [Sextet(v0), Sextet(v1), Sextet(v2), PAD])
      && (v1 % 16 == 0 ==> Tail1(t0 as uint8) == [Sextet(v0), Sextet(v1), PAD, PAD])
  {
    SextetBits(v0, v1, v2, v3);
  }

  lemma GroupSound(q: Bytes)
    requires |q| == 4 && DecodeGroup(q).Some?
    ensures var t := DecodeGroup(q).value; |t| == 3 && Group(t[0], t[1], t[2]) == q
  {
    var v0, v1, v2, v3 := SextetValue(q[0]).value, SextetValue(q[1]).value,
                          SextetValue(q[2]).value, SextetValue(q[3]).value;
    GroupOfSextets(v0, v1, v2, v3);
    assert [Sextet(v0), Sextet(v1), Sextet(v2), Sextet(v3)] == q;
  }

  lemma Last2Sound(q: Bytes)
    requires |q| == 4 && q[2] != PAD && q[3] == PAD && DecodeLast(q).Some?
    ensures var t := DecodeLast(q).value; |t| == 2 && Tail2(t[0], t[1]) == q
  {
    var v0, v1, v2 := SextetValue(q[0]).value, SextetValue(q[1]).value, SextetValue(q[2]).value;
    GroupOfSextets(v0, v1, v2, 0);
    assert [Sextet(v0), Sextet(v1), Sextet(v2), PAD] == q;
  }

  lemma Last1Sound(q: Bytes)
    requires |q| == 4 && q[2] == PAD && q[3] == PAD && DecodeLast(q).Some?
    ensures var t := DecodeLast(q).value; |t| == 1 && Tail1(t[0]) == q
  {
    var v0, v1 := SextetValue(q[0]).value, SextetValue(q[1]).value;
    GroupOfSextets(v0, v1, 0, 0);
    assert [Sextet(v0), Sextet(v1), PAD, PAD] == q;
  }

  lemma LastSound(q: Bytes)
    requires |q| == 4 && DecodeLast(q).Some?
    ensures Encode(DecodeLast(q).value) == q
  {
    var t := DecodeLast(q).value;
    if q[2] == PAD && q[3] == PAD {
      Last1Sound(q);
    } else if q[3] == PAD {
      Last2Sound(q);
    } else {
      GroupSound(q);
      assert t[3..] == [];
      Nom.AppendEmpty(Group(t[0], t[1], t[2]));
    }
  }

  lemma {:induction false} EncodeDecode(e: Bytes)
    requires Decode(e).Some?
    ensures Encode(Decode(e).value) == e
    decreases |e|
  {
    if e == [] {
    } else if |e| == 4 {
      LastSound(e);
    } else {
      var q, rest := e[..4], e[4..];
      assert e == q + rest;
      DecodeCons(q, rest);
      GroupSound(q);
      EncodeDecode(rest);
      var t := DecodeGroup(q).value;
      var r := Decode(rest).value;
      assert r != [];
      assert (t + r)[..3] == t && (t + r)[3..] == r;
    }
  }

  /** The strict decoder and the encoder are inverse: `Decode(e) == Some(d)` iff `e == Encode(d)`. */
  lemma DecodeIffEncode(d: Bytes, e: Bytes)
    ensures Decode(e) == Some(d) <==> e == Encode(d)
  {
    if Decode(e) == Some(d) {
      EncodeDecode(e);
    }
    if e == Encode(d) {
      DecodeEncode(d);
    }
  }

  // What an encoding looks like.

  /** The number of `=` an encoding of `n` bytes ends with. */
  function PadCount(n: nat): nat {
    if n % 3 == 1 then 2 else if n % 3 == 2 then 1 else 0
  }

  /** `e` is alphabet characters followed by exactly `pad` pad characters. */
  predicate Shaped(e: Bytes, pad: nat) {
    && pad <= |e|
    && (forall i :: 0 <= i < |e| - pad ==> IsAlphabet(e[i]))
    && (forall i :: |e| - pad <= i < |e| ==> e[i] == PAD)
  }

  lemma GroupShape(a: uint8, b: uint8, c: uint8)
    ensures Shaped(Group(a, b, c), 0)
  {
    SextetInAlphabet(a as int / 4);
    SextetInAlphabet(a as int % 4 * 16 + b as int / 16);
    SextetInAlphabet(b as int % 16 * 4 + c as int / 64);
    SextetInAlphabet(c as int % 64);
  }

  lemma Tail2Shape(a: uint8, b: uint8)
    ensures Shaped(Tail2(a, b), 1)
  {
    SextetInAlphabet(a as int / 4);
    SextetInAlphabet(a as int % 4 * 16 + b as int / 16);
    SextetInAlphabet(b as int % 16 * 4);
  }

  lemma Tail1Shape(a: uint8)
    ensures Shaped(Tail1(a), 2)
  {
    SextetInAlphabet(a as int / 4);
    SextetInAlphabet(a as int % 4 * 16);
  }

  lemma ShapedCons(g: Bytes, rest: Bytes, pad: nat)
    requires Shaped(g, 0) && Shaped(rest, pad)
    ensures Shaped(g + rest, pad)
  {
    assert forall i :: |g| <= i < |g + rest| ==> (g + rest)[i] == rest[i - |g|];
  }

  lemma ShortShape(d: Bytes)
    requires |d| < 3
    ensures Shaped(Encode(d), PadCount(|d|))
  {
    if |d| == 1 {
      Tail1Shape(d[0]);
    } else if |d| == 2 {
      Tail2Shape(d[0], d[1]);
    }
  }

  lemma PadStep(n: nat)
    requires n >= 3
    ensures PadCount(n) == PadCount(n - 3)
  {
    assert n % 3 == (n - 3) % 3;
  }

  lemma {:induction false} EncodeShape(d: Bytes)
    ensures Shaped(Encode(d), PadCount(|d|))
    decreases |d|
  {
    if |d| < 3 {
      ShortShape(d);
    } else {
      var g := Group(d[0], d[1], d[2]);
      assert Encode(d) == g + Encode(d[3..]);
      GroupShape(d[0], d[1], d[2]);
      EncodeShape(d[3..]);
      PadStep(|d|);
      ShapedCons(g, Encode(d[3..]), PadCount(|d|));
    }
  }

  /** The encoding of a suffix starts with the group at its head. */
  lemma EncodeFrom(d: Bytes, i: nat)
    requires i + 3 <= |d|
    ensures Encode(d[i..]) == Group(d[i], d[i + 1], d[i + 2]) + Encode(d[i + 3..])
  {
    assert d[i..][3..] == d[i + 3..];
  }
}
