/**
 * The earlier, header-only grammar of `src/main.rs`: header lines whose names are ASCII
 * letters and dashes, each `name: value` with optional blanks around both parts and an
 * exact CR LF end, collected by `many_till` until a bare CR LF, and then the lookup of
 * the `Sec-WebSocket-Key` field. The input is text. `parse()` runs nom 8 in streaming
 * mode, so the generic `take_while` and `char` used here are streaming, while `space0`,
 * `not_line_ending` and `tag` come from nom's `complete` modules and decide on what they
 * have.
 */
module MainHeaders {
  import opened Bytes
  import opened Nom

  type Result<T> = Outcome<char, T>

  /** A parsed header: `(HeaderKey, HeaderValue)`, both slices of the input. */
  datatype Header = Header(key: string, value: string)

  /** The outcome of the lookup in `main`: the first matching header, or the error text. */
  datatype Lookup = Found(key: string, value: string) | NotFound(message: string)

  const API_KEY_NOT_FOUND: string := "Api Key Not Found!"
  const KEY_NAME: string := "sec-websocket-key"
  const LINE_END: string := "\r\n"

  /** `AsChar::is_space`: a space or a horizontal tab. */
  predicate IsBlank(c: char) { c == ' ' || c == '\t' }

  /** The class `parse_header_key` accepts: `is_alpha()` (ASCII letters) or `-`. */
  predicate IsKeyChar(c: char) { 'a' <= c <= 'z' || 'A' <= c <= 'Z' || c == '-' }

  /** Anything but the two line-ending characters. */
  predicate IsLineChar(c: char) { c != '\r' && c != '\n' }

  /** `character::complete::space0`. */
  function Space0(s: string): (r: Result<string>)
    ensures r.Done? && s == r.out + r.rest && All(r.out, IsBlank)
    ensures r.rest == [] || !IsBlank(r.rest[0])
  {
    TakeWhileComplete(IsBlank, s)
  }

  /** `parse_header_key`: streaming `take_while`; the name may be empty. */
  function ParseHeaderKey(s: string): (r: Result<string>)
    ensures r.Done? || r.Incomplete?
    ensures r.Incomplete? <==> All(s, IsKeyChar)
    ensures r.Done? ==> s == r.out + r.rest && All(r.out, IsKeyChar)
                        && r.rest != [] && !IsKeyChar(r.rest[0])
  {
    TakeWhile(IsKeyChar, s)
  }

  /**
   * `character::complete::not_line_ending`: everything up to the first CR or LF, or to
   * the end. A CR there must be followed by LF, or the parse fails.
   */
  function NotLineEnding(s: string): (r: Result<string>)
    ensures r.Done? || r.Fail?
    ensures r.Done? ==> s == r.out + r.rest && All(r.out, IsLineChar)
                        && (r.rest == [] || r.rest[0] == '\n' || LINE_END <= r.rest)
  {
    var n := Span(IsLineChar, s);
    if n == |s| then Done([], s)
    else if s[n] == '\n' || (n + 1 < |s| && s[n + 1] == '\n') then
      assert s == s[..n] + s[n..];
      Done(s[n..], s[..n])
    else
      Fail
  }

  /**
   * `parse_header_value`: `not_line_ending` under the source's own name, kept so that
   * `SingleHeader` reads like `single_header`; its contract and lemmas are `NotLineEnding`'s.
   */
  function ParseHeaderValue(s: string): Result<string> {
    NotLineEnding(s)
  }

  /** `parse_carriage_return`: complete `tag("\r\n")`. */
  function ParseCarriageReturn(s: string): (r: Result<()>)
    ensures r.Done? <==> LINE_END <= s
    ensures r.Done? ==> s == LINE_END + r.rest
    ensures !r.Done? ==> r.Fail?
  {
    var t := TagComplete(LINE_END, s);
    if t.Done? then Done(t.rest, ()) else Fail
  }

  /** `whitespace_around`: `delimited(space0, parser, space0)`. */
  function WhitespaceAround<T>(p: string -> Result<T>, s: string): (r: Result<T>)
    ensures r.Done? ==> p(Space0(s).rest).Done? && r.out == p(Space0(s).rest).out
                        && |r.rest| <= |p(Space0(s).rest).rest|
    ensures !r.Done? ==> r == p(Space0(s).rest)
  {
    var lead := Space0(s);
    var x := p(lead.rest);
    if !x.Done? then x
    else
      var trail := Space0(x.rest);
      Done(trail.rest, x.out)
  }

  /**
   * `single_header`: `separated_pair(whitespace_around(key), char(':'),
   * whitespace_around(value))` terminated by `parse_carriage_return`.
   */
  function SingleHeader(s: string): (r: Result<Header>)
    ensures r.Done? ==> |r.rest| < |s|
  {
    var key := WhitespaceAround(ParseHeaderKey, s);
    if !key.Done? then key.Cast() else
    var colon := Tag([':'], key.rest);
    if !colon.Done? then colon.Cast() else
    var value := WhitespaceAround(ParseHeaderValue, colon.rest);
    if !value.Done? then value.Cast() else
    var end := ParseCarriageReturn(value.rest);
    if !end.Done? then end.Cast() else Done(end.rest, Header(key.out, value.out))
  }

  /**
   * `multiple_headers`: `many_till(single_header, parse_carriage_return)`. Each round tries
   * the bare CR LF first; otherwise a header must follow, and its failure or its need for
   * more input is the result. A header always consumes input, so many_till's guard against
   * a parser that consumes nothing never fires.
   */
  function MultipleHeaders(s: string): (r: Result<seq<Header>>)
    ensures r.Done? ==> |r.rest| + |LINE_END| <= |s|
    decreases |s|
  {
    var end := ParseCarriageReturn(s);
    if end.Done? then Done(end.rest, [])
    else
      var h := SingleHeader(s);
      if !h.Done? then h.Cast()
      else
        var more := MultipleHeaders(h.rest);
        if !more.Done? then more else Done(more.rest, [h.out] + more.out)
  }

  /** ASCII lowering of one character, which is all `to_lowercase` does to a header name. */
  function AsciiLower(c: char): (r: char)
    ensures 'A' <= c <= 'Z' ==> r as int == c as int + 32
    ensures !('A' <= c <= 'Z') ==> r == c
  {
    if 'A' <= c <= 'Z' then (c as int + 32) as char else c
  }

  function Lower(s: string): (r: string)
    ensures |r| == |s| && forall i :: 0 <= i < |s| ==> r[i] == AsciiLower(s[i])
  {
    seq(|s|, i requires 0 <= i < |s| => AsciiLower(s[i]))
  }

  predicate IsApiKeyName(key: string) { Lower(key) == KEY_NAME }

  /** The `find` over the headers, then `ok_or("Api Key Not Found!")` (main.rs:111-115). */
  function LookupKey(headers: seq<Header>): (r: Lookup)
    ensures r.NotFound? <==> forall i :: 0 <= i < |headers| ==> !IsApiKeyName(headers[i].key)
    ensures r.NotFound? ==> r.message == API_KEY_NOT_FOUND
    ensures r.Found? ==> exists i :: 0 <= i < |headers| && IsApiKeyName(headers[i].key)
                          && headers[i] == Header(r.key, r.value)
                          && forall j :: 0 <= j < i ==> !IsApiKeyName(headers[j].key)
  {
    if headers == [] then NotFound(API_KEY_NOT_FOUND)
    else if IsApiKeyName(headers[0].key) then Found(headers[0].key, headers[0].value)
    else LookupKey(headers[1..])
  }
}
