/**
 * The header block that the grammar of `src/main.rs` accepts, written as data with a
 * serialiser, and the proof that `multiple_headers` reads back exactly the serialisations
 * of valid blocks, leaving whatever follows the blank line unconsumed. Then the ways a
 * block goes wrong: a bad line fails the whole block, a line that ends early is a failure
 * rather than a request for more input, and a bare name asks for more input.
 */
module MainHeaderGrammar {
  import opened Bytes
  import opened Nom
  import opened MainHeaders

  /**
   * A header line as sent: blanks before the name, the name, blanks before the colon,
   * blanks after it, and the value (which keeps any blanks it ends with).
   */
  datatype HeaderText = HeaderText(lead: string, name: string, ws1: string, ws2: string, value: string)

  /**
   * A line `single_header` reads back. An empty name is allowed; its blanks are then all in
   * `lead`, which is how the parser splits them. The value must not start with a blank,
   * since the blanks after the colon would take it.
   */
  predicate ValidText(h: HeaderText) {
    && All(h.lead, IsBlank) && All(h.name, IsKeyChar) && All(h.ws1, IsBlank)
    && (h.name == [] ==> h.ws1 == [])
    && All(h.ws2, IsBlank) && All(h.value, IsLineChar)
    && (h.value == [] || !IsBlank(h.value[0]))
  }

  predicate ValidTexts(hs: seq<HeaderText>) {
    forall i :: 0 <= i < |hs| ==> ValidText(hs[i])
  }

  /** A line without its line ending. */
  function LineBody(h: HeaderText): string {
    h.lead + h.name + h.ws1 + [':'] + h.ws2 + h.value
  }

  function LineText(h: HeaderText): string {
    LineBody(h) + LINE_END
  }

  function LinesText(hs: seq<HeaderText>): string {
    if hs == [] then [] else LineText(hs[0]) + LinesText(hs[1..])
  }

  /** The block on the wire: the header lines, then the bare line ending. */
  function BlockText(hs: seq<HeaderText>): string {
    LinesText(hs) + LINE_END
  }

  /**
   * The headers the parser reports for these lines. `RequestGrammar.Fields` has the same
   * shape on purpose, over the request scanner's line and header types.
   */
  function HeadersOf(hs: seq<HeaderText>): (r: seq<Header>)
    ensures |r| == |hs|
    ensures forall i :: 0 <= i < |hs| ==> r[i] == Header(hs[i].name, hs[i].value)
  {
    if hs == [] then [] else [Header(hs[0].name, hs[0].value)] + HeadersOf(hs[1..])
  }

  // How the serialisations split at the combinator boundaries.

  lemma BodyRegroup(h: HeaderText, t: string)
    ensures LineBody(h) + t == h.lead + (h.name + (h.ws1 + ([':'] + (h.ws2 + (h.value + t)))))
  {
  }

  lemma LineRegroup(h: HeaderText, r: string)
    ensures LineText(h) + r == LineBody(h) + (LINE_END + r)
  {
  }

  lemma LinesSplit(hs: seq<HeaderText>, r: string)
    requires hs != []
    ensures LinesText(hs) + r == LineText(hs[0]) + (LinesText(hs[1..]) + r)
    ensures HeadersOf(hs) == [Header(hs[0].name, hs[0].value)] + HeadersOf(hs[1..])
  {
  }

  lemma LinesCons(h: HeaderText, hs: seq<HeaderText>, r: string)
    requires ValidText(h) && ValidTexts(hs)
    ensures ValidTexts([h] + hs)
    ensures LinesText([h] + hs) + r == LineText(h) + (LinesText(hs) + r)
    ensures HeadersOf([h] + hs) == [Header(h.name, h.value)] + HeadersOf(hs)
  {
    assert ([h] + hs)[1..] == hs;
    assert forall i :: 1 <= i < |[h] + hs| ==> ([h] + hs)[i] == hs[i - 1];
  }

  lemma BlockRegroup(hs: seq<HeaderText>, r: string)
    ensures BlockText(hs) + r == LinesText(hs) + (LINE_END + r)
  {
  }

  /** Rebuilds a line from the pieces the parser splits off one after the other. */
  lemma LineFromParts(h: HeaderText, s: string, k: string, c: string, v: string, r: string)
    requires s == h.lead + (h.name + (h.ws1 + k))
    requires k == [':'] + c
    requires c == h.ws2 + (h.value + v)
    requires v == LINE_END + r
    ensures s == LineText(h) + r
  {
    BodyRegroup(h, LINE_END + r);
    LineRegroup(h, r);
  }

  /** A valid line does not start with a line ending, so `many_till` does not stop there. */
  lemma LineStart(h: HeaderText, t: string)
    requires ValidText(h)
    ensures LineBody(h) + t != [] && (LineBody(h) + t)[0] != '\r'
  {
    BodyRegroup(h, t);
    var w := h.ws1 + ([':'] + (h.ws2 + (h.value + t)));
    FirstOfAppend(h.ws1, [':'] + (h.ws2 + (h.value + t)));
    FirstOfAppend(h.name, w);
    FirstOfAppend(h.lead, h.name + w);
  }

  lemma LineIsNotEnd(h: HeaderText, r: string)
    requires ValidText(h)
    ensures ParseCarriageReturn(LineText(h) + r).Fail?
  {
    LineRegroup(h, r);
    LineStart(h, LINE_END + r);
  }

  // Reading a known shape back, one combinator group at a time.

  lemma Space0None(t: string)
    requires t == [] || !IsBlank(t[0])
    ensures Space0(t) == Done(t, [])
  {
    TakeWhileCompleteSplit(IsBlank, [], t);
    EmptyAppend(t);
  }

  lemma KeyAroundOf(lead: string, name: string, ws1: string, t: string)
    requires All(lead, IsBlank) && All(name, IsKeyChar) && All(ws1, IsBlank)
    requires name == [] ==> ws1 == []
    requires t != [] && !IsBlank(t[0]) && (ws1 == [] ==> !IsKeyChar(t[0]))
    ensures WhitespaceAround(ParseHeaderKey, lead + (name + (ws1 + t))) == Done(t, name)
  {
    FirstOfAppend(ws1, t);
    FirstOfAppend(name, ws1 + t);
    TakeWhileCompleteSplit(IsBlank, lead, name + (ws1 + t));
    TakeWhileSplit(IsKeyChar, name, ws1 + t);
    TakeWhileCompleteSplit(IsBlank, ws1, t);
  }

  /** `not_line_ending` stops at an LF, at a CR LF, or at the end. */
  lemma NotLineEndingOf(v: string, t: string)
    requires All(v, IsLineChar)
    requires t == [] || t[0] == '\n' || (|t| > 1 && t[0] == '\r' && t[1] == '\n')
    ensures NotLineEnding(v + t) == Done(t, v)
  {
    SpanSplit(IsLineChar, v, t);
    assert (v + t)[|v|..] == t && (v + t)[..|v|] == v;
  }

  /** A CR that is not followed by LF makes `not_line_ending` fail. */
  lemma NotLineEndingLoneCr(v: string, t: string)
    requires All(v, IsLineChar)
    requires t != [] && t[0] == '\r' && (|t| == 1 || t[1] != '\n')
    ensures NotLineEnding(v + t) == Fail
  {
    SpanSplit(IsLineChar, v, t);
    assert (v + t)[|v|] == '\r';
    assert |v + t| == 1 + |v| || (v + t)[|v| + 1] != '\n';
  }

  lemma ValueAroundOf(ws2: string, value: string, t: string)
    requires All(ws2, IsBlank) && All(value, IsLineChar) && (value == [] || !IsBlank(value[0]))
    requires t == [] || t[0] == '\n' || (|t| > 1 && t[0] == '\r' && t[1] == '\n')
    ensures WhitespaceAround(ParseHeaderValue, ws2 + (value + t)) == Done(t, value)
  {
    if value == [] {
      EmptyAppend(t);
    } else {
      FirstOfAppend(value, t);
    }
    TakeWhileCompleteSplit(IsBlank, ws2, value + t);
    NotLineEndingOf(value, t);
    Space0None(t);
  }

  /**
   * What decides a line once its value has been read: the line ending that follows, `t`.
   * CR LF ends the header; a bare LF or the end of the input fails it.
   */
  lemma SingleHeaderAfterValue(h: HeaderText, t: string)
    requires ValidText(h)
    requires t == [] || t[0] == '\n' || (|t| > 1 && t[0] == '\r' && t[1] == '\n')
    ensures SingleHeader(LineBody(h) + t)
         == if LINE_END <= t then Done(t[2..], Header(h.name, h.value)) else Fail
  {
    BodyRegroup(h, t);
    var c := h.ws2 + (h.value + t);
    KeyAroundOf(h.lead, h.name, h.ws1, [':'] + c);
    TagSplit([':'], c);
    ValueAroundOf(h.ws2, h.value, t);
    var s := LineBody(h) + t;
    assert WhitespaceAround(ParseHeaderKey, s) == Done([':'] + c, h.name);
    assert Tag([':'], [':'] + c) == Done(c, [':']);
    assert WhitespaceAround(ParseHeaderValue, c) == Done(t, h.value);
    if LINE_END <= t {
      assert ParseCarriageReturn(t) == Done(t[2..], ());
    } else {
      assert ParseCarriageReturn(t) == Fail;
    }
  }

  lemma SingleHeaderOf(h: HeaderText, r: string)
    requires ValidText(h)
    ensures SingleHeader(LineText(h) + r) == Done(r, Header(h.name, h.value))
  {
    LineRegroup(h, r);
    SingleHeaderAfterValue(h, LINE_END + r);
    assert (LINE_END + r)[2..] == r;
  }

  /** Every valid block is read back whole, and the bytes after it are left alone. */
  lemma {:induction false} LinesOf(hs: seq<HeaderText>, r: string)
    requires ValidTexts(hs)
    ensures MultipleHeaders(LinesText(hs) + (LINE_END + r)) == Done(r, HeadersOf(hs))
  {
    if hs == [] {
      EmptyAppend(LINE_END + r);
      TagSplit(LINE_END, r);
    } else {
      var tail := LinesText(hs[1..]) + (LINE_END + r);
      LinesSplit(hs, LINE_END + r);
      LinesOf(hs[1..], r);
      assert MultipleHeaders(tail) == Done(r, HeadersOf(hs[1..]));
      ValidLineContinues(hs[0], tail);
    }
  }

  lemma MultipleHeadersOf(hs: seq<HeaderText>, r: string)
    requires ValidTexts(hs)
    ensures MultipleHeaders(BlockText(hs) + r) == Done(r, HeadersOf(hs))
  {
    BlockRegroup(hs, r);
    LinesOf(hs, r);
  }

  // Recovering the shape from what the parser accepted.

  lemma KeyAroundSound(s: string) returns (lead: string, ws1: string)
    requires WhitespaceAround(ParseHeaderKey, s).Done?
    ensures var k := WhitespaceAround(ParseHeaderKey, s);
      && All(lead, IsBlank) && All(k.out, IsKeyChar) && All(ws1, IsBlank)
      && (k.out == [] ==> ws1 == [])
      && s == lead + (k.out + (ws1 + k.rest))
  {
    var a := Space0(s);
    var x := ParseHeaderKey(a.rest);
    var b := Space0(x.rest);
    lead, ws1 := a.out, b.out;
    if x.out == [] {
      EmptyAppend(x.rest);
      Space0None(x.rest);
    }
  }

  lemma ValueAroundSound(t: string) returns (ws2: string)
    requires WhitespaceAround(ParseHeaderValue, t).Done?
    ensures var v := WhitespaceAround(ParseHeaderValue, t);
      && All(ws2, IsBlank) && All(v.out, IsLineChar) && (v.out == [] || !IsBlank(v.out[0]))
      && t == ws2 + (v.out + v.rest)
  {
    var a := Space0(t);
    var v := NotLineEnding(a.rest);
    ws2 := a.out;
    if v.rest != [] {
      assert !IsBlank(v.rest[0]);
    }
    Space0None(v.rest);
    if v.out != [] {
      FirstOfAppend(v.out, v.rest);
    }
  }

  lemma SingleHeaderSound(s: string) returns (h: HeaderText)
    requires SingleHeader(s).Done?
    ensures ValidText(h)
    ensures s == LineText(h) + SingleHeader(s).rest
    ensures SingleHeader(s).out == Header(h.name, h.value)
  {
    var key := WhitespaceAround(ParseHeaderKey, s);
    var lead, ws1 := KeyAroundSound(s);
    var colon := Tag([':'], key.rest);
    var value := WhitespaceAround(ParseHeaderValue, colon.rest);
    var ws2 := ValueAroundSound(colon.rest);
    var end := ParseCarriageReturn(value.rest);
    h := HeaderText(lead, key.out, ws1, ws2, value.out);
    LineFromParts(h, s, key.rest, colon.rest, value.rest, end.rest);
  }

  lemma {:induction false} LinesSound(s: string) returns (hs: seq<HeaderText>)
    requires MultipleHeaders(s).Done?
    ensures ValidTexts(hs)
    ensures s == LinesText(hs) + (LINE_END + MultipleHeaders(s).rest)
    ensures MultipleHeaders(s).out == HeadersOf(hs)
    decreases |s|
  {
    if ParseCarriageReturn(s).Done? {
      hs := [];
      EmptyAppend(LINE_END + MultipleHeaders(s).rest);
    } else {
      var h := SingleHeader(s);
      var more := MultipleHeaders(h.rest);
      assert MultipleHeaders(s) == Done(more.rest, [h.out] + more.out);
      var l := SingleHeaderSound(s);
      var tail := LinesSound(h.rest);
      hs := [l] + tail;
      LinesCons(l, tail, LINE_END + more.rest);
    }
  }

  /** Every block the parser accepts is the serialisation of valid lines, then what is left. */
  lemma MultipleHeadersSound(s: string) returns (hs: seq<HeaderText>)
    requires MultipleHeaders(s).Done?
    ensures ValidTexts(hs)
    ensures s == BlockText(hs) + MultipleHeaders(s).rest
    ensures MultipleHeaders(s).out == HeadersOf(hs)
  {
    hs := LinesSound(s);
    BlockRegroup(hs, MultipleHeaders(s).rest);
  }

  // How a block goes wrong.

  lemma FirstLineDecides(t: string)
    requires ParseCarriageReturn(t).Fail? && !SingleHeader(t).Done?
    ensures MultipleHeaders(t) == SingleHeader(t).Cast()
  {
  }

  lemma ValidLineContinues(h: HeaderText, tail: string)
    requires ValidText(h)
    ensures MultipleHeaders(LineText(h) + tail)
         == var more := MultipleHeaders(tail);
            if more.Done? then Done(more.rest, [Header(h.name, h.value)] + more.out) else more
  {
    LineIsNotEnd(h, tail);
    SingleHeaderOf(h, tail);
  }

  /** Valid lines in front of a failure, or of a request for more input, do not change it. */
  lemma {:induction false} LaterLineDecides(hs: seq<HeaderText>, t: string)
    requires ValidTexts(hs) && !MultipleHeaders(t).Done?
    ensures MultipleHeaders(LinesText(hs) + t) == MultipleHeaders(t)
  {
    if hs == [] {
      EmptyAppend(t);
    } else {
      var tail := LinesText(hs[1..]) + t;
      LinesSplit(hs, t);
      LaterLineDecides(hs[1..], t);
      assert MultipleHeaders(tail) == MultipleHeaders(t);
      ValidLineContinues(hs[0], tail);
    }
  }

  /**
   * A name followed, after any blanks, by anything but a colon fails the line: `Host x`
   * as well as `Host?`. Without blanks a further letter or dash would just extend the name.
   */
  lemma NameStopsEarly(lead: string, name: string, ws1: string, c: char, r: string)
    requires All(lead, IsBlank) && All(name, IsKeyChar) && All(ws1, IsBlank)
    requires name == [] ==> ws1 == []
    requires !IsBlank(c) && (ws1 == [] ==> !IsKeyChar(c)) && c != ':'
    ensures SingleHeader(lead + (name + (ws1 + ([c] + r)))) == Fail
  {
    KeyAroundOf(lead, name, ws1, [c] + r);
    assert Tag([':'], [c] + r) == Fail;
  }

  lemma DigitLine(name: string, d: char, r: string)
    requires All(name, IsKeyChar) && '0' <= d <= '9'
    ensures MultipleHeaders(name + ([d] + r)) == Fail
  {
    NameStopsEarly([], name, [], d, r);
    EmptyAppend([d] + r);
    EmptyAppend(name + ([d] + r));
    FirstOfAppend(name, [d] + r);
    FirstLineDecides(name + ([d] + r));
  }

  /** Names are letters and dashes only: a digit in a name fails the whole block. */
  lemma DigitInNameFails(hs: seq<HeaderText>, name: string, d: char, r: string)
    requires ValidTexts(hs) && All(name, IsKeyChar) && '0' <= d <= '9'
    ensures MultipleHeaders(LinesText(hs) + (name + ([d] + r))) == Fail
  {
    DigitLine(name, d, r);
    LaterLineDecides(hs, name + ([d] + r));
  }

  lemma BareLineFeedLine(h: HeaderText, r: string)
    requires ValidText(h)
    ensures MultipleHeaders(LineBody(h) + ("\n" + r)) == Fail
  {
    SingleHeaderAfterValue(h, "\n" + r);
    LineStart(h, "\n" + r);
    FirstLineDecides(LineBody(h) + ("\n" + r));
  }

  /** A header line ended by a bare LF fails the whole block. */
  lemma BareLineFeedFails(hs: seq<HeaderText>, h: HeaderText, r: string)
    requires ValidTexts(hs) && ValidText(h)
    ensures MultipleHeaders(LinesText(hs) + (LineBody(h) + ("\n" + r))) == Fail
  {
    BareLineFeedLine(h, r);
    LaterLineDecides(hs, LineBody(h) + ("\n" + r));
  }

  lemma ValueAroundLoneCr(ws2: string, value: string, t: string)
    requires All(ws2, IsBlank) && All(value, IsLineChar) && (value == [] || !IsBlank(value[0]))
    requires t != [] && t[0] == '\r' && (|t| == 1 || t[1] != '\n')
    ensures WhitespaceAround(ParseHeaderValue, ws2 + (value + t)) == Fail
  {
    FirstOfAppend(value, t);
    TakeWhileCompleteSplit(IsBlank, ws2, value + t);
    NotLineEndingLoneCr(value, t);
  }

  lemma SingleHeaderLoneCr(h: HeaderText, t: string)
    requires ValidText(h)
    requires t != [] && t[0] == '\r' && (|t| == 1 || t[1] != '\n')
    ensures SingleHeader(LineBody(h) + t) == Fail
  {
    BodyRegroup(h, t);
    var c := h.ws2 + (h.value + t);
    KeyAroundOf(h.lead, h.name, h.ws1, [':'] + c);
    TagSplit([':'], c);
    ValueAroundLoneCr(h.ws2, h.value, t);
  }

  lemma LoneCarriageReturnLine(h: HeaderText, t: string)
    requires ValidText(h)
    requires t != [] && t[0] == '\r' && (|t| == 1 || t[1] != '\n')
    ensures MultipleHeaders(LineBody(h) + t) == Fail
  {
    SingleHeaderLoneCr(h, t);
    LineStart(h, t);
    FirstLineDecides(LineBody(h) + t);
  }

  /** A CR inside a value that is not followed by LF fails the whole block. */
  lemma LoneCarriageReturnFails(hs: seq<HeaderText>, h: HeaderText, t: string)
    requires ValidTexts(hs) && ValidText(h)
    requires t != [] && t[0] == '\r' && (|t| == 1 || t[1] != '\n')
    ensures MultipleHeaders(LinesText(hs) + (LineBody(h) + t)) == Fail
  {
    LoneCarriageReturnLine(h, t);
    LaterLineDecides(hs, LineBody(h) + t);
  }

  lemma TruncatedLine(h: HeaderText)
    requires ValidText(h)
    ensures MultipleHeaders(LineBody(h)) == Fail
  {
    SingleHeaderAfterValue(h, []);
    AppendEmpty(LineBody(h));
    LineStart(h, []);
    FirstLineDecides(LineBody(h));
  }

  /**
   * A line cut off after its colon is a failure, not a request for more input: the value
   * and the line ending are read by the complete parsers.
   */
  lemma TruncatedLineFails(hs: seq<HeaderText>, h: HeaderText)
    requires ValidTexts(hs) && ValidText(h)
    ensures MultipleHeaders(LinesText(hs) + LineBody(h)) == Fail
  {
    TruncatedLine(h);
    LaterLineDecides(hs, LineBody(h));
  }

  /** A line that ends inside its name, blanks before it included, asks for more. */
  lemma EndsInName(lead: string, name: string)
    requires All(lead, IsBlank) && All(name, IsKeyChar)
    ensures WhitespaceAround(ParseHeaderKey, lead + name) == Incomplete
    ensures SingleHeader(lead + name) == Incomplete
    ensures MultipleHeaders(lead + name) == Incomplete
  {
    TakeWhileCompleteSplit(IsBlank, lead, name);
    if lead + name != [] {
      FirstOfAppend(lead, name);
    }
    assert SingleHeader(lead + name) == Incomplete;
    FirstLineDecides(lead + name);
  }

  /**
   * A line that ends in the blanks after its name asks for more: the name is read, and the
   * streaming `char(':')` meets the end of the input.
   */
  lemma EndsInBlanks(lead: string, name: string, ws1: string)
    requires All(lead, IsBlank) && All(name, IsKeyChar) && All(ws1, IsBlank)
    requires name != [] && ws1 != []
    ensures WhitespaceAround(ParseHeaderKey, lead + (name + ws1)) == Done([], name)
    ensures SingleHeader(lead + (name + ws1)) == Incomplete
    ensures MultipleHeaders(lead + (name + ws1)) == Incomplete
  {
    FirstOfAppend(name, ws1);
    TakeWhileCompleteSplit(IsBlank, lead, name + ws1);
    TakeWhileSplit(IsKeyChar, name, ws1);
    AppendEmpty(ws1);
    TakeWhileCompleteSplit(IsBlank, ws1, []);
    assert SingleHeader(lead + (name + ws1)) == Incomplete;
    FirstLineDecides(lead + (name + ws1));
  }

  /**
   * A first line that ends before its colon, inside the name or in the blanks after it,
   * asks for more: the streaming name scan, or the streaming `char(':')` after the
   * complete `space0`, meets the end of the input.
   */
  lemma BareNameLine(lead: string, name: string, ws1: string)
    requires All(lead, IsBlank) && All(name, IsKeyChar) && All(ws1, IsBlank)
    ensures MultipleHeaders(lead + (name + ws1)) == Incomplete
  {
    if name == [] {
      EmptyAppend(ws1);
      AppendEmpty(lead + ws1);
      EndsInName(lead + ws1, []);
    } else if ws1 == [] {
      AppendEmpty(name);
      EndsInName(lead, name);
    } else {
      EndsInBlanks(lead, name, ws1);
    }
  }

  /** Input that ends before a colon, after any valid lines, asks for more. */
  lemma BareNameIsIncomplete(hs: seq<HeaderText>, lead: string, name: string, ws1: string)
    requires ValidTexts(hs) && All(lead, IsBlank) && All(name, IsKeyChar) && All(ws1, IsBlank)
    ensures MultipleHeaders(LinesText(hs) + (lead + (name + ws1))) == Incomplete
  {
    BareNameLine(lead, name, ws1);
    LaterLineDecides(hs, lead + (name + ws1));
  }
}
