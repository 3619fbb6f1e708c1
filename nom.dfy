/**
 * The nom 8 primitives that the two header grammars are built from, as functions on
 * sequences. `Outcome` is nom's `IResult` with the Rust panic a mapping closure can raise
 * added as a fourth case. A streaming primitive that runs out of input before it has seen
 * the element that ends its match answers `Incomplete`; a complete one decides with what
 * it has.
 */
module Nom {
  import opened Bytes

  /**
   * `Done(rest, out)` is `Ok((remaining, output))`, `Incomplete` is `Err::Incomplete`,
   * `Fail` is `Err::Error`, and `Panic` is a Rust panic (`unwrap()` or `unreachable!()`).
   * The grammars raise no `Err::Failure`.
   */
  datatype Outcome<C, T> = Done(rest: seq<C>, out: T) | Incomplete | Fail | Panic
  {
    /** Passes a non-`Done` outcome on unchanged under another output type, as `?` does. */
    function Cast<U>(): (r: Outcome<C, U>)
      requires !Done?
      ensures !r.Done? && r.Incomplete? == Incomplete? && r.Fail? == Fail?
    {
      if Incomplete? then Incomplete else if Fail? then Fail else Panic
    }
  }

  /**
   * `after`, the outcome on the input extended by `t`, agrees with `before`, the outcome
   * on the input alone, whenever `before` was definite: a `Done` keeps its output and
   * only grows its unconsumed rest by `t`, and a failure or a panic stays one.
   */
  ghost predicate Extends<C, T>(before: Outcome<C, T>, after: Outcome<C, T>, t: seq<C>) {
    match before
    case Done(rest, out) => after == Done(rest + t, out)
    case Incomplete => true
    case Fail => after.Fail?
    case Panic => after.Panic?
  }

  /**
   * If the outcome on a longer input is a `Done` that leaves fewer than `|t|` elements
   * unconsumed, the outcome without the last `|t|` elements was `Incomplete`.
   */
  lemma StableBeforeDone<C, T>(before: Outcome<C, T>, after: Outcome<C, T>, t: seq<C>)
    requires Extends(before, after, t)
    requires after.Done? && |after.rest| < |t|
    ensures before.Incomplete?
  {
  }

  /** The length of the longest prefix of `s` whose elements all satisfy `p`. */
  function Span<C>(p: C -> bool, s: seq<C>): (n: nat)
    ensures n <= |s|
    ensures forall i :: 0 <= i < n ==> p(s[i])
    ensures n < |s| ==> !p(s[n])
  {
    if s == [] || !p(s[0]) then 0 else 1 + Span(p, s[1..])
  }

  /** Once a span has met an element that stops it, appending cannot change it. */
  lemma SpanExtends<C>(p: C -> bool, s: seq<C>, t: seq<C>)
    requires Span(p, s) < |s|
    ensures Span(p, s + t) == Span(p, s)
  {
    var n, m := Span(p, s), Span(p, s + t);
    assert (s + t)[n] == s[n];
    if m < n {
      assert (s + t)[m] == s[m];
    }
  }

  /** `bytes::streaming::take_while`: the longest prefix satisfying `p`, possibly empty. */
  function TakeWhile<C>(p: C -> bool, s: seq<C>): (r: Outcome<C, seq<C>>)
    ensures r.Done? || r.Incomplete?
    ensures r.Incomplete? <==> All(s, p)
    ensures r.Done? ==> s == r.out + r.rest && All(r.out, p) && r.rest != [] && !p(r.rest[0])
  {
    var n := Span(p, s);
    if n == |s| then Incomplete else Done(s[n..], s[..n])
  }

  /** `bytes::streaming::take_while1`: as `TakeWhile`, but an empty match fails. */
  function TakeWhile1<C>(p: C -> bool, s: seq<C>): (r: Outcome<C, seq<C>>)
    ensures !r.Panic?
    ensures r.Incomplete? <==> All(s, p)
    ensures r.Fail? <==> s != [] && !p(s[0])
    ensures r.Done? ==> s == r.out + r.rest && r.out != [] && All(r.out, p) && r.rest != [] && !p(r.rest[0])
  {
    var n := Span(p, s);
    if n == |s| then Incomplete else if n == 0 then Fail else Done(s[n..], s[..n])
  }

  /**
   * `bytes::streaming::tag`: `s` starts with `tag`; `Incomplete` while `s` is still a
   * strict prefix of `tag`; `Fail` at the first mismatch.
   */
  function Tag<C(==)>(tag: seq<C>, s: seq<C>): (r: Outcome<C, seq<C>>)
    ensures !r.Panic?
    ensures r.Done? <==> tag <= s
    ensures r.Done? ==> s == tag + r.rest && r.out == tag
    ensures r.Incomplete? <==> |s| < |tag| && s == tag[..|s|]
  {
    if tag <= s then Done(s[|tag|..], tag) else if s <= tag then Incomplete else Fail
  }

  /** `character::complete::space0` and the like: the longest prefix satisfying `p`. */
  function TakeWhileComplete<C>(p: C -> bool, s: seq<C>): (r: Outcome<C, seq<C>>)
    ensures r.Done? && s == r.out + r.rest && All(r.out, p)
    ensures r.rest == [] || !p(r.rest[0])
  {
    var n := Span(p, s);
    Done(s[n..], s[..n])
  }

  /** `bytes::complete::tag`: `s` starts with `tag`, or the parse fails. */
  function TagComplete<C(==)>(tag: seq<C>, s: seq<C>): (r: Outcome<C, seq<C>>)
    ensures r.Done? || r.Fail?
    ensures r.Done? <==> tag <= s
    ensures r.Done? ==> s == tag + r.rest && r.out == tag
  {
    if tag <= s then Done(s[|tag|..], tag) else Fail
  }

  lemma TakeWhileExtends<C>(p: C -> bool, s: seq<C>, t: seq<C>)
    ensures Extends(TakeWhile(p, s), TakeWhile(p, s + t), t)
  {
    if Span(p, s) < |s| {
      SpanExtends(p, s, t);
      assert (s + t)[Span(p, s)..] == s[Span(p, s)..] + t;
      assert (s + t)[..Span(p, s)] == s[..Span(p, s)];
    }
  }

  lemma TakeWhile1Extends<C>(p: C -> bool, s: seq<C>, t: seq<C>)
    ensures Extends(TakeWhile1(p, s), TakeWhile1(p, s + t), t)
  {
    if Span(p, s) < |s| {
      SpanExtends(p, s, t);
      assert (s + t)[Span(p, s)..] == s[Span(p, s)..] + t;
      assert (s + t)[..Span(p, s)] == s[..Span(p, s)];
    }
  }

  lemma TagExtends<C>(tag: seq<C>, s: seq<C>, t: seq<C>)
    ensures Extends(Tag(tag, s), Tag(tag, s + t), t)
  {
    if tag <= s {
      assert (s + t)[..|tag|] == s[..|tag|];
      assert (s + t)[|tag|..] == s[|tag|..] + t;
    } else if !(s <= tag) {
      var k :| 0 <= k < |s| && k < |tag| && s[k] != tag[k];
      assert (s + t)[k] == s[k];
    }
  }

  // Reading a known split: how each primitive answers on input of a given shape.

  /** A run of elements satisfying `p`, ended by one that does not (or by the end), is the span. */
  lemma SpanSplit<C>(p: C -> bool, a: seq<C>, b: seq<C>)
    requires All(a, p)
    requires b == [] || !p(b[0])
    ensures Span(p, a + b) == |a|
  {
    assert forall i :: 0 <= i < |a| ==> (a + b)[i] == a[i];
    assert b != [] ==> (a + b)[|a|] == b[0];
  }

  lemma TakeWhileSplit<C>(p: C -> bool, a: seq<C>, b: seq<C>)
    requires All(a, p) && b != [] && !p(b[0])
    ensures TakeWhile(p, a + b) == Done(b, a)
  {
    SpanSplit(p, a, b);
    assert (a + b)[|a|..] == b && (a + b)[..|a|] == a;
  }

  lemma TakeWhile1Split<C>(p: C -> bool, a: seq<C>, b: seq<C>)
    requires a != [] && All(a, p) && b != [] && !p(b[0])
    ensures TakeWhile1(p, a + b) == Done(b, a)
  {
    SpanSplit(p, a, b);
    assert (a + b)[|a|..] == b && (a + b)[..|a|] == a;
  }

  lemma TakeWhileCompleteSplit<C>(p: C -> bool, a: seq<C>, b: seq<C>)
    requires All(a, p) && (b == [] || !p(b[0]))
    ensures TakeWhileComplete(p, a + b) == Done(b, a)
  {
    SpanSplit(p, a, b);
    assert (a + b)[|a|..] == b && (a + b)[..|a|] == a;
  }

  lemma TagSplit<C>(tag: seq<C>, b: seq<C>)
    ensures Tag(tag, tag + b) == Done(b, tag)
    ensures TagComplete(tag, tag + b) == Done(b, tag)
  {
    assert (tag + b)[|tag|..] == b;
  }

  // Regrouping concatenations, kept apart from the parsers so that proving them does
  // not drag the parsers' definitions into the sequence reasoning.

  lemma Assoc<C>(a: seq<C>, b: seq<C>, c: seq<C>)
    ensures a + b + c == a + (b + c)
  {
  }

  lemma Assoc4<C>(a: seq<C>, b: seq<C>, c: seq<C>, d: seq<C>)
    ensures a + b + c + d == a + (b + (c + d))
  {
  }

  /** Two splits in a row are one split into three. */
  lemma Chain<C>(s: seq<C>, a: seq<C>, m: seq<C>, b: seq<C>, c: seq<C>)
    requires s == a + m && m == b + c
    ensures s == a + b + c
  {
  }

  /** Three splits in a row are one split into four. */
  lemma Chain4<C>(s: seq<C>, a: seq<C>, m: seq<C>, b: seq<C>, n: seq<C>, c: seq<C>, d: seq<C>)
    requires s == a + m && m == b + n && n == c + d
    ensures s == a + b + c + d
  {
  }

  lemma FirstOfAppend<C>(a: seq<C>, b: seq<C>)
    requires a != [] || b != []
    ensures (a + b)[0] == if a != [] then a[0] else b[0]
  {
  }

  lemma SplitAt<C>(s: seq<C>, k: nat)
    requires k <= |s|
    ensures s[..k] + s[k..] == s
  {
  }

  lemma AppendEmpty<C>(a: seq<C>)
    ensures a + [] == a
  {
  }

  lemma EmptyAppend<C>(a: seq<C>)
    ensures [] + a == a
  {
  }
}
