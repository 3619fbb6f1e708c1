/**
 * The upgrade-request head scanner of `src/http/parser.rs`: a request line, header fields
 * whose names are RFC 7230 tokens, a blank line, and then the value of the first
 * `Sec-WebSocket-Key` field. Each nom function, and each combinator group inside one,
 * is a Dafny function over the bytes received so far; every primitive is the streaming
 * kind, so running out of bytes before a match is decided answers `Incomplete`.
 */
module HttpStreamParser {
  import opened Bytes
  import opened Wrappers
  import opened Nom
  import opened HttpMethods

  type Result<T> = Outcome<uint8, T>

  /** One parsed header field: the name and the value, both slices of the input. */
  datatype Header = Header(name: Bytes, value: Bytes)

  const HTTP_SLASH: Bytes := ['H' as uint8, 'T' as uint8, 'T' as uint8, 'P' as uint8, '/' as uint8]
  const DOT: Bytes := ['.' as uint8]
  /** `Sec-WebSocket-Key`. */
  const SEC_WEBSOCKET_KEY: Bytes := [
    'S' as uint8, 'e' as uint8, 'c' as uint8, '-' as uint8, 'W' as uint8, 'e' as uint8, 'b' as uint8, 'S' as uint8, 'o' as uint8,
    'c' as uint8, 'k' as uint8, 'e' as uint8, 't' as uint8, '-' as uint8, 'K' as uint8, 'e' as uint8, 'y' as uint8]

  /** nom's `AsChar::is_space` on a byte: a space or a horizontal tab. */
  predicate IsSpace(c: uint8) { c == SP || c == HTAB }

  predicate IsNotSpace(c: uint8) { !IsSpace(c) }

  /** `word`: one or more bytes other than space and tab, which must be followed by one. */
  function Word(s: Bytes): (r: Result<Bytes>)
    ensures !r.Panic?
    ensures r.Incomplete? <==> All(s, IsNotSpace)
    ensures r.Fail? <==> s != [] && IsSpace(s[0])
    ensures r.Done? ==> s == r.out + r.rest && r.out != [] && All(r.out, IsNotSpace)
                        && r.rest != [] && IsSpace(r.rest[0])
  {
    TakeWhile1(IsNotSpace, s)
  }

  /** `carriage_return`: exactly CR LF. */
  function CarriageReturn(s: Bytes): (r: Result<Bytes>)
    ensures !r.Panic?
    ensures r.Done? <==> CRLF <= s
    ensures r.Done? ==> s == CRLF + r.rest
    ensures r.Incomplete? <==> s == [] || s == [CR]
  {
    Tag(CRLF, s)
  }

  /** `space0` (streaming). */
  function Space0(s: Bytes): (r: Result<Bytes>)
    ensures r.Done? || r.Incomplete?
  {
    TakeWhile(IsSpace, s)
  }

  /** `space1` (streaming). */
  function Space1(s: Bytes): (r: Result<Bytes>)
    ensures !r.Panic?
    ensures r.Done? ==> s == r.out + r.rest && r.out != [] && All(r.out, IsSpace)
                        && r.rest != [] && !IsSpace(r.rest[0])
  {
    TakeWhile1(IsSpace, s)
  }

  /** `digit1` (streaming): one or more ASCII digits. */
  function Digit1(s: Bytes): (r: Result<Bytes>)
    ensures !r.Panic?
    ensures r.Fail? <==> s != [] && !IsAsciiDigit(s[0])
    ensures r.Done? ==> s == r.out + r.rest && r.out != [] && All(r.out, IsAsciiDigit)
  {
    TakeWhile1(IsAsciiDigit, s)
  }

  /** The decimal value of a run of ASCII digits, as `str::parse` computes it. */
  function Decimal(d: Bytes): (r: nat)
    requires All(d, IsAsciiDigit)
    ensures r == 0 <==> forall i :: 0 <= i < |d| ==> d[i] == '0' as uint8
    ensures |d| <= 1 ==> r <= 9
    ensures |d| <= 2 ==> r <= 99
  {
    if d == [] then 0 else Decimal(d[..|d| - 1]) * 10 + (d[|d| - 1] - '0' as uint8) as int
  }

  // The request line

  /** `parse_method`: a word, which must be one of the nine method tokens or the code panics. */
  function ParseMethod(s: Bytes): (r: Result<HttpMethod>)
    ensures r.Done? ==> s == Name(r.out) + r.rest && r.rest != [] && IsSpace(r.rest[0])
    ensures r.Panic? <==> Word(s).Done? && FromBytes(Word(s).out).None?
  {
    var w := Word(s);
    if !w.Done? then w.Cast()
    else match FromBytes(w.out)
      case Some(m) => Done(w.rest, m)
      case None => Panic
  }

  /** `terminated(parse_method, space1)`. */
  function MethodThenBlanks(s: Bytes): (r: Result<HttpMethod>)
    ensures r.Done? ==> Name(r.out) <= s && |r.rest| < |s| - |Name(r.out)|
  {
    var m := ParseMethod(s);
    if !m.Done? then m else
    var gap := Space1(m.rest);
    if !gap.Done? then gap.Cast() else Done(gap.rest, m.out)
  }

  /** `terminated(word, space1)`: the request target and the blanks after it. */
  function TargetThenBlanks(s: Bytes): (r: Result<Bytes>)
    ensures !r.Panic?
    ensures r.Done? ==> r.out != [] && r.out <= s && |r.rest| < |s| - |r.out|
  {
    var target := Word(s);
    if !target.Done? then target else
    var gap := Space1(target.rest);
    if !gap.Done? then gap.Cast() else Done(gap.rest, target.out)
  }

  /** `separated_pair(digit1, tag("."), digit1)`. */
  function VersionDigits(s: Bytes): (r: Result<(Bytes, Bytes)>)
    ensures !r.Panic?
    ensures r.Done? ==> All(r.out.0, IsAsciiDigit) && All(r.out.1, IsAsciiDigit)
    ensures r.Done? ==> |r.rest| + |r.out.0| + |DOT| + |r.out.1| == |s|
  {
    var x := Digit1(s);
    if !x.Done? then x.Cast() else
    var dot := Tag(DOT, x.rest);
    if !dot.Done? then dot.Cast() else
    var y := Digit1(dot.rest);
    if !y.Done? then y.Cast() else Done(y.rest, (x.out, y.out))
  }

  /**
   * `parse_http_version`: `HTTP/`, then the two digit runs, each converted with
   * `parse::<u8>().unwrap()`, which panics when its value exceeds 255.
   */
  function ParseHttpVersion(s: Bytes): (r: Result<(uint8, uint8)>)
    ensures r.Done? || r.Panic? ==> HTTP_SLASH <= s
    ensures r.Done? ==> |r.rest| + |HTTP_SLASH| + 3 <= |s|
  {
    var h := Tag(HTTP_SLASH, s);
    if !h.Done? then h.Cast() else
    var v := VersionDigits(h.rest);
    if !v.Done? then v.Cast() else
    var (x, y) := v.out;
    if Decimal(x) > 255 || Decimal(y) > 255 then Panic
    else Done(v.rest, (Decimal(x) as uint8, Decimal(y) as uint8))
  }

  /** `terminated(parse_http_version, carriage_return)`. */
  function VersionThenEnd(s: Bytes): (r: Result<(uint8, uint8)>)
    ensures r.Done? ==> |r.rest| + |HTTP_SLASH| + 3 + |CRLF| <= |s|
  {
    var v := ParseHttpVersion(s);
    if !v.Done? then v else
    var end := CarriageReturn(v.rest);
    if !end.Done? then end.Cast() else Done(end.rest, v.out)
  }

  /** `parse_start_line`: method, blanks, target, blanks, version, CR LF. */
  function ParseStartLine(s: Bytes): (r: Result<()>)
    ensures r.Done? ==> |r.rest| < |s|
  {
    var m := MethodThenBlanks(s);
    if !m.Done? then m.Cast() else
    var target := TargetThenBlanks(m.rest);
    if !target.Done? then target.Cast() else
    var version := VersionThenEnd(target.rest);
    if !version.Done? then version.Cast() else Done(version.rest, ())
  }

  // Header lines

  /** `header_key_char`: the bytes the source lists, which are RFC 7230's `tchar`. */
  predicate HeaderKeyChar(c: uint8) {
    || c == '!' as uint8 || c == '#' as uint8 || c == '$' as uint8 || c == '%' as uint8
    || c == '&' as uint8 || c == '\'' as uint8 || c == '*' as uint8 || c == '+' as uint8
    || c == '-' as uint8 || c == '.' as uint8 || c == '^' as uint8 || c == '_' as uint8
    || c == '`' as uint8 || c == '|' as uint8 || c == '~' as uint8
    || IsAsciiDigit(c) || IsAsciiLower(c) || IsAsciiUpper(c)
  }

  /** `header_value_char`: anything but CR and LF. */
  predicate HeaderValueChar(c: uint8) { c != CR && c != LF }

  /** `terminated(take_while1(header_key_char), space0)`. */
  function NameThenBlanks(s: Bytes): (r: Result<Bytes>)
    ensures !r.Panic?
    ensures r.Done? ==> r.out != [] && |r.rest| < |s|
  {
    var name := TakeWhile1(HeaderKeyChar, s);
    if !name.Done? then name else
    var ws := Space0(name.rest);
    if !ws.Done? then ws else Done(ws.rest, name.out)
  }

  /** `terminated(preceded(space0, take_while(header_value_char)), carriage_return)`. */
  function BlanksValueEnd(s: Bytes): (r: Result<Bytes>)
    ensures !r.Panic?
    ensures r.Done? ==> |r.rest| < |s|
  {
    var ws := Space0(s);
    if !ws.Done? then ws else
    var value := TakeWhile(HeaderValueChar, ws.rest);
    if !value.Done? then value else
    var end := CarriageReturn(value.rest);
    if !end.Done? then end else Done(end.rest, value.out)
  }

  /** `parse_header_line`: name and blanks, `:`, blanks, value and CR LF. */
  function ParseHeaderLine(s: Bytes): (r: Result<Header>)
    ensures !r.Panic?
    ensures r.Done? ==> |r.rest| < |s|
  {
    var name := NameThenBlanks(s);
    if !name.Done? then name.Cast() else
    var colon := Tag([COLON], name.rest);
    if !colon.Done? then colon.Cast() else
    var value := BlanksValueEnd(colon.rest);
    if !value.Done? then value.Cast() else Done(value.rest, Header(name.out, value.out))
  }

  /**
   * `many0(parse_header_line)`: header lines until one fails; an `Incomplete` line makes
   * the whole run incomplete. A header line always consumes input, so many0's guard
   * against a parser that consumes nothing never fires.
   */
  function ParseHeaders(s: Bytes): (r: Result<seq<Header>>)
    ensures !r.Panic?
    ensures r.Done? ==> |r.rest| <= |s| && (r.out == [] <==> r.rest == s)
    decreases |s|
  {
    var line := ParseHeaderLine(s);
    if line.Fail? then Done(s, [])
    else if !line.Done? then line.Cast()
    else
      var more := ParseHeaders(line.rest);
      if !more.Done? then more.Cast() else Done(more.rest, [line.out] + more.out)
  }

  /** `terminated(many0(parse_header_line), carriage_return)`. */
  function HeaderBlock(s: Bytes): (r: Result<seq<Header>>)
    ensures !r.Panic?
    ensures r.Done? ==> |r.rest| + |CRLF| <= |s|
  {
    var headers := ParseHeaders(s);
    if !headers.Done? then headers else
    var end := CarriageReturn(headers.rest);
    if !end.Done? then end.Cast() else Done(end.rest, headers.out)
  }

  /** The head: the start line, then the header block (parser.rs:88-95). */
  function ParseHead(s: Bytes): (r: Result<seq<Header>>)
    ensures r.Done? ==> |r.rest| + |CRLF| < |s|
  {
    var start := ParseStartLine(s);
    if !start.Done? then start.Cast() else HeaderBlock(start.rest)
  }

  // The key lookup

  /** The name `Sec-WebSocket-Key`, ignoring ASCII case. */
  predicate IsKeyName(name: Bytes) {
    EqIgnoreAsciiCase(name, SEC_WEBSOCKET_KEY)
  }

  /** The `find` over the parsed headers: the value of the first header named `Sec-WebSocket-Key`. */
  function FindKey(headers: seq<Header>): (r: Option<Bytes>)
    ensures r.None? <==> forall i :: 0 <= i < |headers| ==> !IsKeyName(headers[i].name)
    ensures r.Some? ==> exists i :: 0 <= i < |headers| && IsKeyName(headers[i].name)
                          && headers[i].value == r.value
                          && forall j :: 0 <= j < i ==> !IsKeyName(headers[j].name)
  {
    if headers == [] then None
    else if IsKeyName(headers[0].name) then Some(headers[0].value)
    else FindKey(headers[1..])
  }

  /** `HttpStreamParser::parse_websocket_key`. */
  function ParseWebsocketKey(input: Bytes): (r: Result<Bytes>)
    ensures r.Done? ==> |r.rest| + |CRLF| < |input|
  {
    var head := ParseHead(input);
    if !head.Done? then head.Cast()
    else match FindKey(head.out)
      case Some(value) => Done(head.rest, value)
      case None => Fail
  }
}
