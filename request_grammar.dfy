/**
 * The request-head grammar that `src/http/parser.rs` accepts, written as data with a
 * serialiser, and the proof that the scanner accepts exactly the serialisations of
 * well-formed heads: it reads every one back (with any bytes after it left unconsumed),
 * and every input it accepts is one. Each combinator group of the scanner gets its own
 * pair of lemmas, one reading a known shape back and one recovering the shape.
 */
module RequestGrammar {
  import opened Bytes
  import opened Wrappers
  import opened Nom
  import opened HttpMethods
  import opened HttpStreamParser
  import opened HttpStreamStability

  /** A header line as sent: name, blanks before the colon, blanks after it, value. */
  datatype HeaderLine = HeaderLine(name: Bytes, ws1: Bytes, ws2: Bytes, value: Bytes)

  /** A request head as sent, blank runs included. */
  datatype RequestHead = RequestHead(
    verb: HttpMethod, gap1: Bytes, target: Bytes, gap2: Bytes,
    major: Bytes, minor: Bytes, lines: seq<HeaderLine>)

  /** The delimiters of section 3.2.6 of RFC 7230: `DQUOTE` and `(),/:;<=>?@[\]{}`. */
  const DELIMITERS: Bytes := ToBytes("\"(),/:;<=>?@[\\]{}")

  /** A visible ASCII character, `VCHAR` of RFC 5234: `!` (0x21) to `~` (0x7E). */
  predicate IsVisible(c: uint8) { 0x21 <= c <= 0x7E }

  /**
   * Section 3.2.6 of RFC 7230 defines `tchar` as any visible character except the
   * delimiters; the source's list of header-name bytes is exactly that set.
   */
  lemma HeaderKeyCharIsTchar(c: uint8)
    ensures HeaderKeyChar(c) <==> IsVisible(c) && c !in DELIMITERS
  {
    DelimiterBytes(c);
  }

  lemma DelimiterBytes(c: uint8)
    ensures c in DELIMITERS <==> (|| c == 34 || c == 40 || c == 41 || c == 44 || c == 47
                                  || 58 <= c <= 64 || 91 <= c <= 93 || c == 123 || c == 125)
  {
    assert DELIMITERS == [34, 40, 41, 44, 47, 58, 59, 60, 61, 62, 63, 64, 91, 92, 93, 123, 125];
  }

  /** A non-empty run of spaces and tabs. */
  predicate Blanks(w: Bytes) { w != [] && All(w, IsSpace) }

  /** A non-empty run of ASCII digits. */
  predicate Digits(d: Bytes) { d != [] && All(d, IsAsciiDigit) }

  /**
   * A header line the scanner can read back: a non-empty token name, blank runs of spaces
   * and tabs, and a value free of CR and LF that does not itself start with a blank (the
   * blank run after the colon would swallow it). Trailing blanks are part of the value.
   */
  predicate ValidLine(l: HeaderLine) {
    && l.name != [] && All(l.name, HeaderKeyChar)
    && All(l.ws1, IsSpace) && All(l.ws2, IsSpace)
    && All(l.value, HeaderValueChar) && (l.value == [] || !IsSpace(l.value[0]))
  }

  predicate ValidLines(ls: seq<HeaderLine>) {
    forall i :: 0 <= i < |ls| ==> ValidLine(ls[i])
  }

  function LineBytes(l: HeaderLine): Bytes {
    l.name + l.ws1 + [COLON] + l.ws2 + l.value + CRLF
  }

  function LinesBytes(ls: seq<HeaderLine>): Bytes {
    if ls == [] then [] else LineBytes(ls[0]) + LinesBytes(ls[1..])
  }

  /**
   * The (name, value) pairs the scanner reports for these lines. `MainHeaderGrammar.HeadersOf`
   * has the same shape on purpose, over the other grammar's line and header types.
   */
  function Fields(ls: seq<HeaderLine>): (hs: seq<Header>)
    ensures |hs| == |ls|
    ensures forall i :: 0 <= i < |ls| ==> hs[i] == Header(ls[i].name, ls[i].value)
  {
    if ls == [] then [] else [Header(ls[0].name, ls[0].value)] + Fields(ls[1..])
  }

  /** A start line of the right shape, whatever the values of its version numbers. */
  predicate StartLineShape(h: RequestHead) {
    && Blanks(h.gap1) && h.target != [] && All(h.target, IsNotSpace) && Blanks(h.gap2)
    && Digits(h.major) && Digits(h.minor)
  }

  /** A start line the scanner accepts: both version numbers fit in a `u8`. */
  predicate ValidStartLine(h: RequestHead) {
    StartLineShape(h) && Decimal(h.major) <= 255 && Decimal(h.minor) <= 255
  }

  predicate WellFormed(h: RequestHead) {
    ValidStartLine(h) && ValidLines(h.lines)
  }

  function VersionBytes(major: Bytes, minor: Bytes): Bytes {
    HTTP_SLASH + major + DOT + minor
  }

  function StartLineBytes(h: RequestHead): Bytes {
    Name(h.verb) + h.gap1 + h.target + h.gap2 + VersionBytes(h.major, h.minor) + CRLF
  }

  /** The head on the wire: start line, header lines, blank line. */
  function HeadBytes(h: RequestHead): Bytes {
    StartLineBytes(h) + LinesBytes(h.lines) + CRLF
  }

  /** The bytes that end the grammar's runs are outside the classes those runs consist of. */
  lemma Delimiters()
    ensures !HeaderKeyChar(SP) && !HeaderKeyChar(HTAB) && !HeaderKeyChar(COLON)
    ensures !HeaderKeyChar(CR) && !HeaderKeyChar(LF)
    ensures !IsSpace(COLON) && !IsSpace(CR) && !HeaderValueChar(CR) && !HeaderValueChar(LF)
    ensures !IsAsciiDigit(CR) && !IsAsciiDigit(DOT[0]) && !IsSpace(HTTP_SLASH[0])
  {
  }

  /** Every method token is a word. */
  lemma NameIsWord(m: HttpMethod)
    ensures Name(m) != [] && All(Name(m), IsNotSpace)
  {
  }

  // How the serialisations split at the scanner's combinator boundaries.

  lemma LineRegroup(l: HeaderLine, end: Bytes, r: Bytes)
    ensures l.name + l.ws1 + [COLON] + l.ws2 + l.value + end + r
         == l.name + l.ws1 + ([COLON] + (l.ws2 + l.value + end + r))
  {
  }

  lemma LinesBytesSplit(ls: seq<HeaderLine>, r: Bytes)
    requires ls != []
    ensures LinesBytes(ls) + r == LineBytes(ls[0]) + (LinesBytes(ls[1..]) + r)
    ensures Fields(ls) == [Header(ls[0].name, ls[0].value)] + Fields(ls[1..])
  {
  }

  lemma LinesCons(l: HeaderLine, ls: seq<HeaderLine>, r: Bytes)
    requires ValidLine(l) && ValidLines(ls)
    ensures ValidLines([l] + ls)
    ensures LinesBytes([l] + ls) + r == LineBytes(l) + (LinesBytes(ls) + r)
    ensures Fields([l] + ls) == [Header(l.name, l.value)] + Fields(ls)
  {
    assert ([l] + ls)[1..] == ls;
    assert forall i :: 1 <= i < |[l] + ls| ==> ([l] + ls)[i] == ls[i - 1];
  }

  lemma VersionRegroup(x: Bytes, y: Bytes, r: Bytes)
    ensures VersionBytes(x, y) + r == HTTP_SLASH + (x + DOT + y + r)
  {
  }

  lemma StartLineRegroup(h: RequestHead, r: Bytes)
    ensures StartLineBytes(h) + r
         == Name(h.verb) + h.gap1 + (h.target + h.gap2 + (VersionBytes(h.major, h.minor) + CRLF + r))
    ensures Name(h.verb) + h.gap1 + h.target + h.gap2 + VersionBytes(h.major, h.minor) + r
         == Name(h.verb) + h.gap1 + (h.target + h.gap2 + (VersionBytes(h.major, h.minor) + r))
  {
  }

  lemma HeadRegroup(h: RequestHead, r: Bytes)
    ensures HeadBytes(h) + r == StartLineBytes(h) + (LinesBytes(h.lines) + CRLF + r)
  {
  }

  // Header lines

  lemma NameThenBlanksOf(name: Bytes, ws: Bytes, r: Bytes)
    requires name != [] && All(name, HeaderKeyChar) && All(ws, IsSpace)
    requires r != [] && !IsSpace(r[0]) && (ws == [] ==> !HeaderKeyChar(r[0]))
    ensures NameThenBlanks(name + ws + r) == Done(r, name)
  {
    Assoc(name, ws, r);
    Delimiters();
    FirstOfAppend(ws, r);
    TakeWhile1Split(HeaderKeyChar, name, ws + r);
    TakeWhileSplit(IsSpace, ws, r);
  }

  lemma NameThenBlanksSound(s: Bytes) returns (ws: Bytes)
    requires NameThenBlanks(s).Done?
    ensures var r := NameThenBlanks(s);
      && r.out != [] && All(r.out, HeaderKeyChar) && All(ws, IsSpace)
      && s == r.out + ws + r.rest && r.rest != [] && !IsSpace(r.rest[0])
  {
    var name := TakeWhile1(HeaderKeyChar, s);
    var blanks := Space0(name.rest);
    ws := blanks.out;
    Chain(s, name.out, name.rest, ws, blanks.rest);
  }

  lemma BlanksValueEndOf(ws: Bytes, v: Bytes, r: Bytes)
    requires All(ws, IsSpace) && All(v, HeaderValueChar) && (v == [] || !IsSpace(v[0]))
    ensures BlanksValueEnd(ws + v + CRLF + r) == Done(r, v)
  {
    Assoc4(ws, v, CRLF, r);
    Delimiters();
    FirstOfAppend(v, CRLF + r);
    TakeWhileSplit(IsSpace, ws, v + (CRLF + r));
    TakeWhileSplit(HeaderValueChar, v, CRLF + r);
    TagSplit(CRLF, r);
  }

  lemma BlanksValueEndSound(s: Bytes) returns (ws: Bytes)
    requires BlanksValueEnd(s).Done?
    ensures var r := BlanksValueEnd(s);
      && All(r.out, HeaderValueChar) && (r.out == [] || !IsSpace(r.out[0]))
      && All(ws, IsSpace) && s == ws + r.out + CRLF + r.rest
  {
    var blanks := Space0(s);
    ws := blanks.out;
    var value := TakeWhile(HeaderValueChar, blanks.rest);
    var end := CarriageReturn(value.rest);
    if value.out != [] {
      FirstOfAppend(value.out, value.rest);
    }
    Chain4(s, ws, blanks.rest, value.out, value.rest, CRLF, end.rest);
  }

  /** A valid header line, followed by anything, is read back as its name and value. */
  lemma ParseHeaderLineOf(l: HeaderLine, r: Bytes)
    requires ValidLine(l)
    ensures ParseHeaderLine(LineBytes(l) + r) == Done(r, Header(l.name, l.value))
  {
    var afterColon := l.ws2 + l.value + CRLF + r;
    LineRegroup(l, CRLF, r);
    Delimiters();
    NameThenBlanksOf(l.name, l.ws1, [COLON] + afterColon);
    TagSplit([COLON], afterColon);
    BlanksValueEndOf(l.ws2, l.value, r);
  }

  /** Whatever the header-line parser accepts is a valid line followed by the rest. */
  lemma ParseHeaderLineSound(s: Bytes) returns (l: HeaderLine)
    requires ParseHeaderLine(s).Done?
    ensures ValidLine(l) && s == LineBytes(l) + ParseHeaderLine(s).rest
    ensures ParseHeaderLine(s).out == Header(l.name, l.value)
  {
    var name := NameThenBlanks(s);
    var ws1 := NameThenBlanksSound(s);
    var colon := Tag([COLON], name.rest);
    var value := BlanksValueEnd(colon.rest);
    var ws2 := BlanksValueEndSound(colon.rest);
    l := HeaderLine(name.out, ws1, ws2, value.out);
    LineRegroup(l, CRLF, value.rest);
  }

  /** A header line ended by a bare LF is rejected, not left waiting for more input. */
  lemma BareLineFeedFails(l: HeaderLine, r: Bytes)
    requires ValidLine(l)
    ensures ParseHeaderLine(l.name + l.ws1 + [COLON] + l.ws2 + l.value + [LF] + r) == Fail
  {
    var afterColon := l.ws2 + l.value + [LF] + r;
    LineRegroup(l, [LF], r);
    Delimiters();
    NameThenBlanksOf(l.name, l.ws1, [COLON] + afterColon);
    TagSplit([COLON], afterColon);
    BareLineFeedEndsValue(l.ws2, l.value, r);
  }

  lemma BareLineFeedEndsValue(ws: Bytes, v: Bytes, r: Bytes)
    requires All(ws, IsSpace) && All(v, HeaderValueChar) && (v == [] || !IsSpace(v[0]))
    ensures BlanksValueEnd(ws + v + [LF] + r) == Fail
  {
    Assoc4(ws, v, [LF], r);
    Delimiters();
    FirstOfAppend(v, [LF] + r);
    TakeWhileSplit(IsSpace, ws, v + ([LF] + r));
    TakeWhileSplit(HeaderValueChar, v, [LF] + r);
  }

  /**
   * A name followed, after any blanks, by anything but a colon is rejected: `Host x` as
   * well as `Host?`. Without blanks a further name byte would just extend the name.
   */
  lemma MissingColonFails(name: Bytes, ws: Bytes, c: uint8, r: Bytes)
    requires name != [] && All(name, HeaderKeyChar) && All(ws, IsSpace)
    requires c != COLON && !IsSpace(c) && (ws == [] ==> !HeaderKeyChar(c))
    ensures ParseHeaderLine(name + ws + [c] + r) == Fail
  {
    NameThenBlanksOf(name, ws, [c] + r);
    Assoc(name + ws, [c], r);
  }

  // Header blocks

  lemma {:induction false} ParseHeadersOf(ls: seq<HeaderLine>, u: Bytes)
    requires ValidLines(ls) && ParseHeaderLine(u).Fail?
    ensures ParseHeaders(LinesBytes(ls) + u) == Done(u, Fields(ls))
    decreases |ls|
  {
    if ls == [] {
      EmptyAppend(u);
    } else {
      assert ValidLine(ls[0]);
      ParseHeadersOf(ls[1..], u);
      LinesBytesSplit(ls, u);
      ParseHeaderLineOf(ls[0], LinesBytes(ls[1..]) + u);
    }
  }

  lemma {:induction false} ParseHeadersSound(s: Bytes) returns (ls: seq<HeaderLine>)
    requires ParseHeaders(s).Done?
    ensures ParseHeaderLine(ParseHeaders(s).rest).Fail?
    ensures ValidLines(ls) && s == LinesBytes(ls) + ParseHeaders(s).rest
    ensures Fields(ls) == ParseHeaders(s).out
    decreases |s|
  {
    var line := ParseHeaderLine(s);
    if line.Done? {
      var l := ParseHeaderLineSound(s);
      var more := ParseHeaders(line.rest);
      var tail := ParseHeadersSound(line.rest);
      ls := [l] + tail;
      LinesCons(l, tail, more.rest);
    } else {
      ls := [];
      EmptyAppend(s);
    }
  }

  lemma HeaderBlockOf(ls: seq<HeaderLine>, r: Bytes)
    requires ValidLines(ls)
    ensures HeaderBlock(LinesBytes(ls) + CRLF + r) == Done(r, Fields(ls))
  {
    Delimiters();
    ParseHeadersOf(ls, CRLF + r);
    Assoc(LinesBytes(ls), CRLF, r);
    TagSplit(CRLF, r);
  }

  lemma HeaderBlockSound(s: Bytes) returns (ls: seq<HeaderLine>)
    requires HeaderBlock(s).Done?
    ensures ValidLines(ls) && s == LinesBytes(ls) + CRLF + HeaderBlock(s).rest
    ensures Fields(ls) == HeaderBlock(s).out
  {
    var headers := ParseHeaders(s);
    ls := ParseHeadersSound(s);
    var end := CarriageReturn(headers.rest);
    Chain(s, LinesBytes(ls), headers.rest, CRLF, end.rest);
  }

  // Start lines

  lemma MethodThenBlanksOf(m: HttpMethod, gap: Bytes, r: Bytes)
    requires Blanks(gap) && r != [] && !IsSpace(r[0])
    ensures MethodThenBlanks(Name(m) + gap + r) == Done(r, m)
  {
    NameIsWord(m);
    FromName(m);
    Assoc(Name(m), gap, r);
    FirstOfAppend(gap, r);
    TakeWhile1Split(IsNotSpace, Name(m), gap + r);
    TakeWhile1Split(IsSpace, gap, r);
  }

  lemma MethodThenBlanksSound(s: Bytes) returns (gap: Bytes)
    requires MethodThenBlanks(s).Done?
    ensures var r := MethodThenBlanks(s);
      && Blanks(gap) && s == Name(r.out) + gap + r.rest && r.rest != [] && !IsSpace(r.rest[0])
  {
    var m := ParseMethod(s);
    var blanks := Space1(m.rest);
    gap := blanks.out;
    Chain(s, Name(m.out), m.rest, gap, blanks.rest);
  }

  lemma TargetThenBlanksOf(target: Bytes, gap: Bytes, r: Bytes)
    requires target != [] && All(target, IsNotSpace)
    requires Blanks(gap) && r != [] && !IsSpace(r[0])
    ensures TargetThenBlanks(target + gap + r) == Done(r, target)
  {
    Assoc(target, gap, r);
    FirstOfAppend(gap, r);
    TakeWhile1Split(IsNotSpace, target, gap + r);
    TakeWhile1Split(IsSpace, gap, r);
  }

  lemma TargetThenBlanksSound(s: Bytes) returns (gap: Bytes)
    requires TargetThenBlanks(s).Done?
    ensures var r := TargetThenBlanks(s);
      && r.out != [] && All(r.out, IsNotSpace) && Blanks(gap)
      && s == r.out + gap + r.rest && r.rest != [] && !IsSpace(r.rest[0])
  {
    var target := Word(s);
    var blanks := Space1(target.rest);
    gap := blanks.out;
    Chain(s, target.out, target.rest, gap, blanks.rest);
  }

  lemma VersionDigitsOf(x: Bytes, y: Bytes, r: Bytes)
    requires Digits(x) && Digits(y) && r != [] && !IsAsciiDigit(r[0])
    ensures VersionDigits(x + DOT + y + r) == Done(r, (x, y))
  {
    Delimiters();
    Assoc4(x, DOT, y, r);
    TakeWhile1Split(IsAsciiDigit, x, DOT + (y + r));
    TagSplit(DOT, y + r);
    TakeWhile1Split(IsAsciiDigit, y, r);
  }

  lemma VersionDigitsSound(s: Bytes)
    requires VersionDigits(s).Done?
    ensures var r := VersionDigits(s);
      && Digits(r.out.0) && Digits(r.out.1) && s == r.out.0 + DOT + r.out.1 + r.rest
      && r.rest != [] && !IsAsciiDigit(r.rest[0])
  {
    var x := Digit1(s);
    var dot := Tag(DOT, x.rest);
    var y := Digit1(dot.rest);
    Chain4(s, x.out, x.rest, DOT, dot.rest, y.out, y.rest);
  }

  /** The version field, and the panic when a digit run's value does not fit in a `u8`. */
  lemma ParseHttpVersionOf(x: Bytes, y: Bytes, r: Bytes)
    requires Digits(x) && Digits(y) && r != [] && !IsAsciiDigit(r[0])
    ensures Decimal(x) > 255 || Decimal(y) > 255 ==> ParseHttpVersion(VersionBytes(x, y) + r) == Panic
    ensures Decimal(x) <= 255 && Decimal(y) <= 255 ==>
              ParseHttpVersion(VersionBytes(x, y) + r) == Done(r, (Decimal(x) as uint8, Decimal(y) as uint8))
  {
    VersionRegroup(x, y, r);
    TagSplit(HTTP_SLASH, x + DOT + y + r);
    VersionDigitsOf(x, y, r);
  }

  /**
   * What the version parser accepts, and when it panics: in both cases the input is
   * `HTTP/` and two digit runs; it panics exactly when one of them exceeds 255.
   */
  lemma ParseHttpVersionSound(s: Bytes) returns (x: Bytes, y: Bytes, r: Bytes)
    requires ParseHttpVersion(s).Done? || ParseHttpVersion(s).Panic?
    ensures Digits(x) && Digits(y) && s == VersionBytes(x, y) + r && r != [] && !IsAsciiDigit(r[0])
    ensures ParseHttpVersion(s).Panic? <==> Decimal(x) > 255 || Decimal(y) > 255
    ensures ParseHttpVersion(s).Done? ==>
              ParseHttpVersion(s) == Done(r, (Decimal(x) as uint8, Decimal(y) as uint8))
  {
    var h := Tag(HTTP_SLASH, s);
    var v := VersionDigits(h.rest);
    VersionDigitsSound(h.rest);
    x, y, r := v.out.0, v.out.1, v.rest;
    VersionRegroup(x, y, r);
  }

  lemma VersionThenEndOf(x: Bytes, y: Bytes, r: Bytes)
    requires Digits(x) && Digits(y) && Decimal(x) <= 255 && Decimal(y) <= 255
    ensures VersionThenEnd(VersionBytes(x, y) + CRLF + r)
              == Done(r, (Decimal(x) as uint8, Decimal(y) as uint8))
  {
    Delimiters();
    Assoc(VersionBytes(x, y), CRLF, r);
    ParseHttpVersionOf(x, y, CRLF + r);
    TagSplit(CRLF, r);
  }

  lemma VersionThenEndSound(s: Bytes) returns (x: Bytes, y: Bytes)
    requires VersionThenEnd(s).Done?
    ensures Digits(x) && Digits(y) && Decimal(x) <= 255 && Decimal(y) <= 255
    ensures s == VersionBytes(x, y) + CRLF + VersionThenEnd(s).rest
  {
    var v := ParseHttpVersion(s);
    var r;
    x, y, r := ParseHttpVersionSound(s);
    var end := CarriageReturn(v.rest);
    Chain(s, VersionBytes(x, y), v.rest, CRLF, end.rest);
  }

  lemma ParseStartLineOf(h: RequestHead, r: Bytes)
    requires ValidStartLine(h)
    ensures ParseStartLine(StartLineBytes(h) + r) == Done(r, ())
  {
    var version := VersionBytes(h.major, h.minor);
    StartLineRegroup(h, r);
    Delimiters();
    MethodThenBlanksOf(h.verb, h.gap1, h.target + h.gap2 + (version + CRLF + r));
    TargetThenBlanksOf(h.target, h.gap2, version + CRLF + r);
    VersionThenEndOf(h.major, h.minor, r);
  }

  lemma ParseStartLineSound(s: Bytes) returns (h: RequestHead)
    requires ParseStartLine(s).Done?
    ensures ValidStartLine(h) && h.lines == [] && s == StartLineBytes(h) + ParseStartLine(s).rest
  {
    var m := MethodThenBlanks(s);
    var gap1 := MethodThenBlanksSound(s);
    var target := TargetThenBlanks(m.rest);
    var gap2 := TargetThenBlanksSound(m.rest);
    var version := VersionThenEnd(target.rest);
    var x, y := VersionThenEndSound(target.rest);
    h := RequestHead(m.out, gap1, target.out, gap2, x, y, []);
    StartLineRegroup(h, version.rest);
  }

  // Whole heads

  lemma ParseHeadOf(h: RequestHead, r: Bytes)
    requires WellFormed(h)
    ensures ParseHead(HeadBytes(h) + r) == Done(r, Fields(h.lines))
  {
    HeadRegroup(h, r);
    ParseStartLineOf(h, LinesBytes(h.lines) + CRLF + r);
    HeaderBlockOf(h.lines, r);
  }

  lemma ParseHeadSound(s: Bytes) returns (h: RequestHead)
    requires ParseHead(s).Done?
    ensures WellFormed(h) && s == HeadBytes(h) + ParseHead(s).rest
    ensures Fields(h.lines) == ParseHead(s).out
  {
    var start := ParseStartLine(s);
    var h0 := ParseStartLineSound(s);
    var block := HeaderBlock(start.rest);
    var ls := HeaderBlockSound(start.rest);
    h := h0.(lines := ls);
    assert StartLineBytes(h) == StartLineBytes(h0);
    HeadRegroup(h, block.rest);
  }

  /**
   * A well-formed head, followed by any bytes at all, yields the first key value with
   * exactly those bytes as the rest, or a permanent failure when no field is the key.
   */
  lemma KeyOfWellFormedHead(h: RequestHead, r: Bytes)
    requires WellFormed(h)
    ensures FindKey(Fields(h.lines)).Some? ==>
              ParseWebsocketKey(HeadBytes(h) + r) == Done(r, FindKey(Fields(h.lines)).value)
    ensures FindKey(Fields(h.lines)).None? ==> ParseWebsocketKey(HeadBytes(h) + r) == Fail
  {
    ParseHeadOf(h, r);
  }

  /** Every strict prefix of a well-formed head is `Incomplete`, key or no key. */
  lemma WellFormedPrefixIsIncomplete(h: RequestHead, p: Bytes, u: Bytes)
    requires WellFormed(h) && p + u == HeadBytes(h) && u != []
    ensures ParseWebsocketKey(p) == Incomplete
  {
    ParseHeadOf(h, []);
    AppendEmpty(HeadBytes(h));
    HeadPrefixIsIncomplete(p, u);
  }

  /** Whatever the scanner accepts is a well-formed head, whose first key field it returns. */
  lemma KeySound(s: Bytes)
    requires ParseWebsocketKey(s).Done?
    ensures exists h :: WellFormed(h) && s == HeadBytes(h) + ParseWebsocketKey(s).rest
                        && FindKey(Fields(h.lines)) == Some(ParseWebsocketKey(s).out)
  {
    var h := ParseHeadSound(s);
  }

  /** A first word that is not a method token makes the scanner panic. */
  lemma UnknownMethodPanics(w: Bytes, r: Bytes)
    requires w != [] && All(w, IsNotSpace) && FromBytes(w).None?
    requires r != [] && IsSpace(r[0])
    ensures ParseWebsocketKey(w + r) == Panic
  {
    TakeWhile1Split(IsNotSpace, w, r);
  }

  /** A version number above 255 makes the scanner panic once the byte after it arrives. */
  lemma VersionOverflowPanics(h: RequestHead, r: Bytes)
    requires StartLineShape(h) && (Decimal(h.major) > 255 || Decimal(h.minor) > 255)
    requires r != [] && !IsAsciiDigit(r[0])
    ensures ParseWebsocketKey(Name(h.verb) + h.gap1 + h.target + h.gap2
                              + VersionBytes(h.major, h.minor) + r) == Panic
  {
    var version := VersionBytes(h.major, h.minor);
    StartLineRegroup(h, r);
    Delimiters();
    MethodThenBlanksOf(h.verb, h.gap1, h.target + h.gap2 + (version + r));
    TargetThenBlanksOf(h.target, h.gap2, version + r);
    ParseHttpVersionOf(h.major, h.minor, r);
  }

  /**
   * A header line that is malformed, where the blank line should be, makes the whole head
   * fail permanently once a third byte shows it is not the blank line.
   */
  lemma MalformedLineFails(h: RequestHead, u: Bytes)
    requires ValidStartLine(h) && ValidLines(h.lines)
    requires ParseHeaderLine(u).Fail?
    requires !(CRLF <= u) && u != [] && u != [CR]
    ensures ParseWebsocketKey(StartLineBytes(h) + LinesBytes(h.lines) + u) == Fail
  {
    Assoc(StartLineBytes(h), LinesBytes(h.lines), u);
    ParseStartLineOf(h, LinesBytes(h.lines) + u);
    ParseHeadersOf(h.lines, u);
  }
}
