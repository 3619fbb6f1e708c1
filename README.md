# wstcpproxy: the upgrade-request scanner and the opening handshake, in Dafny

wstcpproxy is a WebSocket-to-TCP gateway. It accepts an HTTP/1.1 upgrade request, answers
the RFC 6455 opening handshake, and then forwards bytes. This project covers three parts
of the gateway:

1. **The upgrade-request head scanner** of `src/http/parser.rs`, `HttpStreamParser::parse_websocket_key`.
   It is a composition of nom *streaming* parsers. It reads a request line, header fields
   whose names are RFC 7230 tokens, and a blank line. It then gives back the value of the
   first `Sec-WebSocket-Key` field (ASCII case ignored) and the bytes after the head.
   Each nom function is modelled as a pure function over `seq<uint8>` (module
   `HttpStreamParser`). Each returns a four-way `Outcome`:
   - `Done(rest, out)`;
   - `Incomplete`, when the input ends before a streaming parser can decide;
   - `Fail`;
   - `Panic`, for the `unreachable!()` of the method table in `src/http/mod.rs` (module
     `HttpMethods`) and for the `unwrap()` of an HTTP version above 255.

   The nom primitives are in module `Nom`. The accepted language is written as data with a
   serialiser (module `RequestGrammar`), and two directions are proved:
   - every serialised well-formed head is read back, whatever bytes follow it;
   - every accepted input is such a serialisation.

   Module `HttpStreamStability` proves that a definite answer never changes when more bytes
   arrive. From that it follows that every strict prefix of an accepted head is `Incomplete`.
   `RequestExamples` proves what the scanner returns on a request carrying the sample nonce
   of section 1.3 of RFC 6455, and on a request whose header line has no colon.
2. **The older header-only grammar of `src/main.rs`** (modules `MainHeaders`,
   `MainHeaderGrammar`, `MainExample`). Header names are ASCII letters and dashes. Blanks
   are allowed around the name and the value. Each line ends in an exact CR LF, and
   `many_till` collects lines up to a bare CR LF. A lookup then finds the first
   `sec-websocket-key` header or returns the error text `Api Key Not Found!`.
   - nom 8's `parse()` works in streaming mode. The generic `take_while` and `char` used by
     this grammar are therefore streaming.
   - `space0`, `not_line_ending` and `tag` come from the `complete` modules.

   The model keeps this mix, and its consequences are proved: a line cut off after its
   colon is a failure, while input that ends before the colon (inside the name or in the
   blanks after it) asks for more.
3. **The opening handshake** of `src/http/handshake.rs` (modules `Base64`, `Handshake`).
   - `derive_response_key` is modelled as a method, `Handshake.DeriveResponseKey`. It fills
     a fresh 28-byte array in place with the padded standard base64 of SHA-1(key ‖ GUID).
     The base64 follows section 4 of RFC 4648 and is written out concretely with a strict
     decoder. SHA-1 is a parameter: any function returning a 20-byte digest.
   - The bytes written by `perform_handshake` are a pure function, `HandshakeResponse`.

Where the code departs from the standards it follows:

- **Blanks around a field.** Section 3.2 of RFC 7230 writes a field as
  `field-name ":" OWS field-value OWS`: the whitespace after the value is not part of it.
  This code keeps trailing spaces and tabs inside the value, since `header_value_char`
  accepts them (`src/http/parser.rs:66-69`).
- **Blanks before the colon.** Section 3.2.4 of RFC 7230 allows no whitespace between the
  field name and the colon. This code accepts spaces and tabs there (`src/http/parser.rs:73`).
- **Methods.** Section 3.1.1 of RFC 7230 allows any token as a method. This code accepts
  only the nine method names. Any other word reaches `unreachable!()` and panics
  (`src/http/mod.rs:30`).
- **The request target** is any run of bytes other than space and tab.
- **The version.** Section 2.6 of RFC 7230 has one digit on each side of the dot. This code
  accepts digit runs of any length and panics in `unwrap()` when one exceeds 255
  (`src/http/parser.rs:36-37`).

Other facts about the code:

- **When a malformed line fails.** A malformed header line fails the scan permanently.
  The exception is a line that could still be the start of the blank line, which stays
  `Incomplete` until a later byte rules that out (`RequestGrammar.MalformedLineFails`).
- **What the scanner returns.** On success it gives the key value and the bytes after the
  head (`src/http/parser.rs:87-103`). The request line is checked and then discarded.
- **The key written in the response.** `perform_handshake` writes whatever key it is given,
  without checking it. Deriving the accept key is a separate function, which the caller
  combines with it.

## Model

| member | source | states |
|---|---|---|
| Bytes.ToAsciiLower | src/http/parser.rs:99 | ASCII upper-case letters move up by 32 to lower case; every other byte is unchanged |
| Bytes.Lowercase | src/http/parser.rs:99 | lowering keeps the length and lowers byte by byte |
| Bytes.EqIgnoreAsciiCase | src/http/parser.rs:99 | `eq_ignore_ascii_case`: same length and equal byte by byte after lowering; `EqIgnoreAsciiCaseIsLowercaseEq` restates it as equality of the lowered forms |
| Bytes.EqIgnoreAsciiCaseIsLowercaseEq | src/http/parser.rs:97-100 | comparing ignoring ASCII case holds exactly when the lowered forms are equal |
| Nom.Cast | src/http/parser.rs:95 | a non-`Done` outcome keeps its kind when passed up through `?` or `map` |
| Nom.StableBeforeDone | src/http/parser.rs:4-5 | an outcome that changes once more input is appended was `Incomplete` |
| Nom.Span | src/main.rs:71 | the length of the longest prefix satisfying the predicate |
| Nom.TakeWhile | src/main.rs:53 | streaming `take_while`: `Incomplete` exactly when every element matches, otherwise `Done` with the maximal matching prefix and a non-matching next element |
| Nom.TakeWhile1 | src/http/parser.rs:4 | streaming `take_while1`: `Incomplete` exactly when all match, `Fail` exactly when the first element does not, otherwise the maximal non-empty prefix |
| Nom.Tag | src/http/parser.rs:4 | streaming `tag`: `Done` exactly when the tag is a prefix, consuming exactly the tag |
| Nom.TakeWhileComplete | src/main.rs:9 | complete `space0`: always `Done`, with the maximal matching prefix and a rest that is empty or starts with a non-match |
| Nom.TagComplete | src/main.rs:6 | complete `tag`: `Done` exactly when the tag is a prefix, and otherwise `Fail`, never `Incomplete` |
| Nom.SpanExtends | src/main.rs:71 | a span that stops before the end is unchanged by appending |
| Nom.TakeWhileExtends | src/http/parser.rs:4 | a definite `take_while` result is unchanged by appending input |
| Nom.TakeWhile1Extends | src/http/parser.rs:4 | a definite `take_while1` result is unchanged by appending input |
| Nom.TagExtends | src/http/parser.rs:4 | a definite `tag` result is unchanged by appending input |
| Nom.TakeWhileSplit | src/http/parser.rs:4 | `take_while` over a matching run followed by a non-match returns exactly that run |
| Nom.TakeWhile1Split | src/http/parser.rs:4 | the same for `take_while1` and a non-empty run |
| Nom.TakeWhileCompleteSplit | src/main.rs:9 | complete `space0` over a run followed by a non-blank or nothing returns exactly the run |
| Nom.TagSplit | src/http/parser.rs:18 | both kinds of `tag` consume exactly the tag in front of any input |
| HttpMethods.Name | src/http/mod.rs:20-29 | the token each variant is read from; `FromName`, `FromBytesAccepts` and `NameInjective` pin down that these are exactly the nine tokens `from` matches |
| HttpMethods.FromBytes | src/http/mod.rs:18-33 | an accepted byte string is the name of the method it yields |
| HttpMethods.FromName | src/http/mod.rs:20-29 | each of the nine method tokens yields its own variant |
| HttpMethods.FromBytesAccepts | src/http/mod.rs:20-30 | a byte string is accepted exactly when it is one of the nine tokens; all others panic |
| HttpMethods.NameInjective | src/http/mod.rs:6-29 | distinct variants have distinct tokens |
| HttpMethods.LowercaseAndPrefixPanic | src/http/mod.rs:30 | `get` and `GE` reach `unreachable!()` |
| HttpStreamParser.Word | src/http/parser.rs:13-15 | `word`: never panics; `Incomplete` exactly when no space or tab has arrived; `Fail` exactly on a leading blank; otherwise a non-empty run of non-blank bytes |
| HttpStreamParser.CarriageReturn | src/http/parser.rs:17-19 | `Done` exactly on a CR LF prefix, consuming it; `Incomplete` exactly on the empty input and a lone CR |
| HttpStreamParser.Space0 | src/http/parser.rs:5 | streaming `space0` never fails |
| HttpStreamParser.Space1 | src/http/parser.rs:48-49 | streaming `space1`: never panics; a `Done` consumes a non-empty run of spaces and tabs followed by a non-blank byte |
| HttpStreamParser.Digit1 | src/http/parser.rs:26 | streaming `digit1`: never panics; fails exactly on a leading non-digit; a `Done` consumes a non-empty run of ASCII digits |
| HttpStreamParser.Decimal | src/http/parser.rs:33-37 | the value `parse` gives a digit run: zero exactly when every digit is `0`; at most 99 for two digits or fewer, so `HTTP/1.1` never overflows `u8` |
| HttpStreamParser.ParseMethod | src/http/parser.rs:21-23 | a parsed method is its token followed by a blank; it panics exactly when the word is not a method token |
| HttpStreamParser.MethodThenBlanks | src/http/parser.rs:48 | a parsed method's token begins the input and at least one blank after it is consumed; `RequestGrammar.MethodThenBlanksOf` and `MethodThenBlanksSound` characterise it fully |
| HttpStreamParser.TargetThenBlanks | src/http/parser.rs:49 | never panics; the target is a non-empty prefix of the input, and at least one blank after it is consumed; `RequestGrammar.TargetThenBlanksOf` and `TargetThenBlanksSound` characterise it fully |
| HttpStreamParser.VersionDigits | src/http/parser.rs:26 | never panics; both parts are ASCII digit runs |
| HttpStreamParser.ParseHttpVersion | src/http/parser.rs:25-43 | a decided version or a panic requires `HTTP/` in front; a parsed version consumes `HTTP/` and at least three more bytes; `RequestGrammar.ParseHttpVersionOf` and `ParseHttpVersionSound` characterise it fully |
| HttpStreamParser.VersionThenEnd | src/http/parser.rs:50 | a parsed version consumes at least `HTTP/`, three bytes and CR LF |
| HttpStreamParser.ParseStartLine | src/http/parser.rs:45-55 | an accepted request line always consumes input; `RequestGrammar.ParseStartLineOf` and `ParseStartLineSound` characterise it fully |
| HttpStreamParser.HeaderKeyChar | src/http/parser.rs:58-64 | the bytes a header name is made of; `RequestGrammar.HeaderKeyCharIsTchar` proves they are RFC 7230's `tchar` |
| HttpStreamParser.HeaderValueChar | src/http/parser.rs:66-69 | every byte but CR and LF, spaces and tabs included; `RequestGrammar.Delimiters` and `BlanksValueEndOf` use it |
| HttpStreamParser.NameThenBlanks | src/http/parser.rs:73 | never panics; a parsed name is non-empty and consumes input |
| HttpStreamParser.BlanksValueEnd | src/http/parser.rs:75-78 | never panics and consumes input |
| HttpStreamParser.ParseHeaderLine | src/http/parser.rs:71-81 | never panics and consumes input, so `many0` never stalls |
| HttpStreamParser.ParseHeaders | src/http/parser.rs:91 | `many0`: never panics; the rest is no longer than the input, and the list is empty exactly when nothing was consumed; `RequestGrammar.ParseHeadersOf` and `ParseHeadersSound` characterise it fully |
| HttpStreamParser.HeaderBlock | src/http/parser.rs:91 | never panics; a parsed block consumes at least the blank line's CR LF |
| HttpStreamParser.ParseHead | src/http/parser.rs:88-95 | a parsed head consumes more than a CR LF; `RequestGrammar.ParseHeadOf` and `ParseHeadSound` characterise it fully |
| HttpStreamParser.IsKeyName | src/http/parser.rs:97-100 | the `find` predicate: the name equals `Sec-WebSocket-Key` ignoring ASCII case; `RequestExamples.UpperKeyNameMatches` and `LowerKeyNameMatches` prove what it accepts |
| HttpStreamParser.FindKey | src/http/parser.rs:97-100 | `None` exactly when no name matches; otherwise the value of the FIRST header whose name equals `Sec-WebSocket-Key` ignoring ASCII case |
| HttpStreamParser.ParseWebsocketKey | src/http/parser.rs:87-106 | a returned key always consumes more than two bytes of input, so a caller's buffer shrinks; `RequestGrammar.KeyOfWellFormedHead`, `KeySound`, `WellFormedPrefixIsIncomplete` and `HttpStreamStability.ParseWebsocketKeyExtends` characterise every outcome |
| HttpStreamStability.ParseMethodExtends | src/http/parser.rs:21-23 | a definite `parse_method` result is unchanged by appending bytes |
| HttpStreamStability.MethodThenBlanksExtends | src/http/parser.rs:48 | the same for the method and its blanks |
| HttpStreamStability.TargetThenBlanksExtends | src/http/parser.rs:49 | the same for the target and its blanks |
| HttpStreamStability.VersionDigitsExtends | src/http/parser.rs:26 | the same for the version digit pair |
| HttpStreamStability.ParseHttpVersionExtends | src/http/parser.rs:25-43 | the same for `parse_http_version`, panics included |
| HttpStreamStability.VersionThenEndExtends | src/http/parser.rs:50 | the same for the version and its CR LF |
| HttpStreamStability.ParseStartLineExtends | src/http/parser.rs:45-55 | the same for the request line |
| HttpStreamStability.NameThenBlanksExtends | src/http/parser.rs:73 | the same for a header name and its blanks |
| HttpStreamStability.BlanksValueEndExtends | src/http/parser.rs:75-78 | the same for a header value and its CR LF |
| HttpStreamStability.ParseHeaderLineExtends | src/http/parser.rs:71-81 | the same for a header line |
| HttpStreamStability.ParseHeadersExtends | src/http/parser.rs:91 | the same for `many0(parse_header_line)` |
| HttpStreamStability.HeaderBlockExtends | src/http/parser.rs:91 | the same for the header block and its blank line |
| HttpStreamStability.ParseHeadExtends | src/http/parser.rs:88-95 | the same for the whole head |
| HttpStreamStability.ParseWebsocketKeyExtends | src/http/parser.rs:87-106 | the same for the key scan, the missing-key failure included |
| HttpStreamStability.HeadPrefixIsIncomplete | src/http/parser.rs:88-95 | a prefix cut before the end of an accepted head is `Incomplete` |
| HttpStreamStability.KeyPrefixIsIncomplete | src/http/parser.rs:87-106 | a prefix cut before the end of a head that yields a key is `Incomplete` |
| RequestGrammar.Fields | src/http/parser.rs:91 | the header list read from the lines: one (name, value) pair per line, in order |
| RequestGrammar.HeaderKeyCharIsTchar | src/http/parser.rs:58-64 | a byte is a header-name byte exactly when it is visible ASCII and not one of the RFC 7230 delimiters |
| RequestGrammar.Delimiters | src/http/parser.rs:58-69 | blanks, colon, CR and LF are not name bytes, and CR and LF are not value bytes |
| RequestGrammar.NameIsWord | src/http/parser.rs:13-14 | every method token is a non-empty word |
| RequestGrammar.NameThenBlanksOf | src/http/parser.rs:73 | a token name and its blanks read back as the name |
| RequestGrammar.NameThenBlanksSound | src/http/parser.rs:73 | a parsed name is a token followed by blanks and whatever follows |
| RequestGrammar.BlanksValueEndOf | src/http/parser.rs:75-78 | leading blanks, a value of non-CR/LF bytes and CR LF read back as the value; trailing blanks stay in it |
| RequestGrammar.BlanksValueEndSound | src/http/parser.rs:75-78 | a parsed value is the maximal non-CR/LF run after the leading blanks, followed by CR LF |
| RequestGrammar.ParseHeaderLineOf | src/http/parser.rs:71-81 | every `name *blank ":" *blank value CRLF` line reads back as its (name, value) with any bytes after it left over |
| RequestGrammar.ParseHeaderLineSound | src/http/parser.rs:71-81 | every parsed header line is such a line |
| RequestGrammar.BareLineFeedFails | src/http/parser.rs:75-78 | a header line ended by a bare LF fails |
| RequestGrammar.BareLineFeedEndsValue | src/http/parser.rs:75-78 | a value ended by a bare LF fails |
| RequestGrammar.MissingColonFails | src/http/parser.rs:72-74 | a name followed, after any blanks, by anything but a colon fails, `Host x` included; without blanks the next byte must not be a name byte, since it would extend the name |
| RequestGrammar.ParseHeadersOf | src/http/parser.rs:91 | a run of valid lines followed by a line that fails reads back as their fields |
| RequestGrammar.ParseHeadersSound | src/http/parser.rs:91 | what `many0` consumes is a run of valid lines, and the next line fails |
| RequestGrammar.HeaderBlockOf | src/http/parser.rs:91 | valid lines and a blank line read back as their fields |
| RequestGrammar.HeaderBlockSound | src/http/parser.rs:91 | a parsed header block is valid lines and the blank line |
| RequestGrammar.MethodThenBlanksOf | src/http/parser.rs:48 | a method token and blanks read back as the method |
| RequestGrammar.MethodThenBlanksSound | src/http/parser.rs:48 | a parsed method is its token followed by blanks |
| RequestGrammar.TargetThenBlanksOf | src/http/parser.rs:49 | a word and blanks read back as the target |
| RequestGrammar.TargetThenBlanksSound | src/http/parser.rs:49 | a parsed target is a word followed by blanks |
| RequestGrammar.VersionDigitsOf | src/http/parser.rs:26 | two digit runs around a dot read back as the pair |
| RequestGrammar.VersionDigitsSound | src/http/parser.rs:26 | a parsed pair is two maximal digit runs around a dot |
| RequestGrammar.ParseHttpVersionOf | src/http/parser.rs:25-43 | `HTTP/x.y` reads back as its decimal values when both are at most 255, and panics otherwise |
| RequestGrammar.ParseHttpVersionSound | src/http/parser.rs:25-43 | every decided version is `HTTP/` and two digit runs; it panics exactly when one exceeds 255 |
| RequestGrammar.VersionThenEndOf | src/http/parser.rs:50 | a version within range and CR LF read back as the version |
| RequestGrammar.VersionThenEndSound | src/http/parser.rs:50 | a parsed version is two in-range digit runs and CR LF |
| RequestGrammar.ParseStartLineOf | src/http/parser.rs:45-55 | every well-formed request line is accepted with any bytes after it left over |
| RequestGrammar.ParseStartLineSound | src/http/parser.rs:45-55 | every accepted request line is well formed |
| RequestGrammar.ParseHeadOf | src/http/parser.rs:88-95 | every well-formed head reads back as its fields with the bytes after the blank line as the rest |
| RequestGrammar.ParseHeadSound | src/http/parser.rs:88-95 | every accepted head is such a serialisation |
| RequestGrammar.KeyOfWellFormedHead | src/http/parser.rs:87-105 | a well-formed head yields its first key value with exactly the following bytes as the rest, or a permanent `Fail` when no field is the key |
| RequestGrammar.WellFormedPrefixIsIncomplete | src/http/parser.rs:87-106 | every strict prefix of a well-formed head is `Incomplete`, key or no key |
| RequestGrammar.KeySound | src/http/parser.rs:87-103 | whatever yields a key is a well-formed head, and the key is its first key field |
| RequestGrammar.UnknownMethodPanics | src/http/mod.rs:30 | a first word that is not a method token makes the scan panic |
| RequestGrammar.VersionOverflowPanics | src/http/parser.rs:36-37 | a version number above 255 makes the scan panic |
| RequestGrammar.MalformedLineFails | src/http/parser.rs:91-95 | a malformed line where the blank line should be fails permanently once it cannot be a CR LF |
| RequestExamples.KeyNameIsToken | src/http/parser.rs:58-64 | `Sec-WebSocket-Key` is a token |
| RequestExamples.UpperKeyNameMatches | src/http/parser.rs:99 | the all-upper spelling `SEC-WEBSOCKET-KEY` matches the key name |
| RequestExamples.LowerKeyNameMatches | src/http/parser.rs:99 | the all-lower spelling `sec-websocket-key` matches the key name |
| RequestExamples.SampleKeyFound | src/http/parser.rs:97-100 | the sample request's lookup finds the nonce |
| RequestExamples.SampleYieldsKey | src/http/parser.rs:87-106 | the sample request yields the nonce with nothing left over |
| RequestExamples.SampleWithoutLastByteIsIncomplete | src/http/parser.rs:87-106 | the sample request without its final byte is `Incomplete` |
| RequestExamples.NoColonLine | src/http/parser.rs:72-74 | the header line `Host x` CR LF fails whatever follows it |
| RequestExamples.BareStartLine | src/http/parser.rs:45-55 | the sample request line on its own, with no header lines, is a well-formed request line |
| RequestExamples.NoColonLineFails | src/http/parser.rs:87-106 | the sample request line followed by `Host x` CR LF fails permanently, whatever follows |
| MainHeaders.Space0 | src/main.rs:64 | complete `space0`: always `Done`, the maximal run of blanks |
| MainHeaders.ParseHeaderKey | src/main.rs:49-56 | a possibly empty run of letters and dashes; `Incomplete` exactly when the input holds nothing else |
| MainHeaders.NotLineEnding | src/main.rs:71 | the longest run before CR or LF; it fails on a CR not followed by LF |
| MainHeaders.ParseHeaderValue | src/main.rs:67-74 | `not_line_ending` under the value's name; `MainHeaderGrammar.NotLineEndingOf` and `NotLineEndingLoneCr` characterise it |
| MainHeaders.ParseCarriageReturn | src/main.rs:76-82 | `Done` exactly on a CR LF prefix, and otherwise `Fail` |
| MainHeaders.WhitespaceAround | src/main.rs:58-65 | the inner parser's result after the leading blanks; the trailing `space0` only consumes |
| MainHeaders.SingleHeader | src/main.rs:84-92 | a parsed header consumes input |
| MainHeaders.MultipleHeaders | src/main.rs:94-100 | `many_till`: a parsed block always consumes at least its closing CR LF; `MainHeaderGrammar.MultipleHeadersOf`, `MultipleHeadersSound` and the failure lemmas characterise every outcome |
| MainHeaders.AsciiLower | src/main.rs:114 | ASCII upper-case letters become lower case; other characters are unchanged |
| MainHeaders.Lower | src/main.rs:114 | lowering keeps the length and lowers each character |
| MainHeaders.IsApiKeyName | src/main.rs:114 | the `find` predicate: the lowered name is `sec-websocket-key` |
| MainHeaders.LookupKey | src/main.rs:111-115 | the FIRST header whose lowered name is `sec-websocket-key`, or `Api Key Not Found!` exactly when there is none |
| MainHeaderGrammar.HeadersOf | src/main.rs:97-99 | one (name, value) pair per written line, in order |
| MainHeaderGrammar.KeyAroundOf | src/main.rs:49-56 | blanks, a letters-and-dashes name and blanks read back as the name |
| MainHeaderGrammar.KeyAroundSound | src/main.rs:49-56 | a parsed name is blanks, letters and dashes, blanks |
| MainHeaderGrammar.NotLineEndingOf | src/main.rs:67-74 | a value stops at LF, at CR LF or at the end of input |
| MainHeaderGrammar.NotLineEndingLoneCr | src/main.rs:67-74 | a CR not followed by LF fails the value |
| MainHeaderGrammar.ValueAroundOf | src/main.rs:87-88 | blanks and a value read back as the value, trailing blanks included |
| MainHeaderGrammar.ValueAroundSound | src/main.rs:87-88 | a parsed value is blanks and a run of non-CR/LF characters |
| MainHeaderGrammar.ValueAroundLoneCr | src/main.rs:87-88 | a lone CR after a value fails it |
| MainHeaderGrammar.SingleHeaderAfterValue | src/main.rs:84-92 | after a value, only an exact CR LF ends the line |
| MainHeaderGrammar.SingleHeaderOf | src/main.rs:84-92 | every valid line reads back as its header with any text after it left over |
| MainHeaderGrammar.SingleHeaderSound | src/main.rs:84-92 | every parsed header line is a valid line |
| MainHeaderGrammar.SingleHeaderLoneCr | src/main.rs:84-92 | a line whose value is followed by a lone CR fails |
| MainHeaderGrammar.LinesOf | src/main.rs:94-100 | valid lines and then CR LF read back as their headers |
| MainHeaderGrammar.MultipleHeadersOf | src/main.rs:94-100 | every valid block reads back as its headers, with the text after its blank line as the rest |
| MainHeaderGrammar.LinesSound | src/main.rs:94-100 | what `many_till` accepts is valid lines and the CR LF |
| MainHeaderGrammar.MultipleHeadersSound | src/main.rs:94-100 | every accepted block is a valid block |
| MainHeaderGrammar.FirstLineDecides | src/main.rs:97 | a first line that is neither the end nor a header decides the block |
| MainHeaderGrammar.ValidLineContinues | src/main.rs:97 | a valid line adds its header in front of what follows |
| MainHeaderGrammar.LaterLineDecides | src/main.rs:97 | valid lines in front of a failure or a request for more input leave it unchanged |
| MainHeaderGrammar.NameStopsEarly | src/main.rs:86-89 | a name followed, after any blanks, by anything but the colon fails the line, `Host x` included; without blanks the next character must not be a letter or dash |
| MainHeaderGrammar.DigitLine | src/main.rs:53 | a digit in a first-line name fails the block |
| MainHeaderGrammar.DigitInNameFails | src/main.rs:53 | a digit in a name fails the whole block, after any valid lines |
| MainHeaderGrammar.BareLineFeedLine | src/main.rs:76-82 | a first line ended by a bare LF fails the block |
| MainHeaderGrammar.BareLineFeedFails | src/main.rs:76-82 | a line ended by a bare LF fails the whole block |
| MainHeaderGrammar.LoneCarriageReturnLine | src/main.rs:71 | a lone CR in a first line fails the block |
| MainHeaderGrammar.LoneCarriageReturnFails | src/main.rs:71 | a lone CR in any line fails the whole block |
| MainHeaderGrammar.TruncatedLine | src/main.rs:64-91 | a first line cut off after its colon fails, and does not ask for more |
| MainHeaderGrammar.TruncatedLineFails | src/main.rs:64-91 | a line cut off after its colon fails the whole block |
| MainHeaderGrammar.EndsInName | src/main.rs:53 | a first line that ends inside its name, blanks before it included, asks for more |
| MainHeaderGrammar.EndsInBlanks | src/main.rs:86-89 | a first line that ends in the blanks after its name reads the name, and then the streaming `char(':')` asks for more |
| MainHeaderGrammar.BareNameLine | src/main.rs:53-89 | text that ends before the first line's colon, inside the name or in the blanks after it, asks for more |
| MainHeaderGrammar.BareNameIsIncomplete | src/main.rs:53-89 | after any valid lines, text that ends before a line's colon asks for more |
| MainExample.ExampleIsValid | src/main.rs:108 | the embedded request text is a valid two-line block |
| MainExample.ExampleHeaders | src/main.rs:108-109 | the embedded text parses to the headers `Hello-World: Hello&World` and `Sec-WebSocket-Key: 87tgb9786f67tv7`, with nothing left over |
| MainExample.ExampleKey | src/main.rs:111-115 | the lookup finds `Sec-WebSocket-Key` with value `87tgb9786f67tv7` |
| Base64.SextetValue | src/http/handshake.rs:1 | defined exactly on the 64 alphabet characters and inverse to the alphabet there |
| Base64.SextetInAlphabet | src/http/handshake.rs:1 | every 6-bit value has an alphabet character other than the pad, and decodes back to itself |
| Base64.Encode | src/http/handshake.rs:40-44 | standard padded base64 of the digest; `EncodeLength`, `EncodeShape` and `DecodeEncode` pin it down |
| Base64.Decode | src/http/handshake.rs:40-44 | the strict decoder of RFC 4648 section 4 that `Encode` is proved against in both directions by `DecodeEncode`, `EncodeDecode` and `DecodeIffEncode` |
| Base64.EncodeLength | src/http/handshake.rs:13 | the encoding of n bytes has `4 * ((n + 2) / 3)` characters |
| Base64.GroupRoundTrip | src/http/handshake.rs:40-44 | a full group decodes to its three bytes |
| Base64.Tail2RoundTrip | src/http/handshake.rs:40-44 | a two-byte final group decodes to its bytes |
| Base64.Tail1RoundTrip | src/http/handshake.rs:40-44 | a one-byte final group decodes to its byte |
| Base64.DecodeEncode | src/http/handshake.rs:40-44 | decoding the encoding of any bytes gives them back |
| Base64.GroupSound | src/http/handshake.rs:40-44 | a group the decoder accepts is the encoding of what it yields |
| Base64.LastSound | src/http/handshake.rs:40-44 | a final group the decoder accepts is the encoding of what it yields |
| Base64.EncodeDecode | src/http/handshake.rs:40-44 | whatever the decoder accepts is the encoding of its result |
| Base64.DecodeIffEncode | src/http/handshake.rs:40-44 | the decoder yields `d` from `e` exactly when `e` is the encoding of `d` |
| Base64.EncodeShape | src/http/handshake.rs:40-44 | all characters of an encoding are alphabet characters except the trailing pads, of which there are `(3 - n % 3) % 3` |
| Base64.EncodeFrom | src/http/handshake.rs:40-44 | at least three bytes encode as their first group followed by the encoding of the rest |
| Handshake.Lengths | src/http/handshake.rs:5-13 | the encoded digest length is 28; the response prefix has 97 bytes and the GUID 36 |
| Handshake.HashInput | src/http/handshake.rs:31-36 | the hash input is the key immediately followed by the GUID, with nothing between or after |
| Handshake.AcceptKey | src/http/handshake.rs:30-44 | base64 of the SHA-1 digest of the key followed by the GUID; `DeriveResponseKey` computes it into the array, and `AcceptKeyShape` and `AcceptKeyDecodes` state its form |
| Handshake.HandshakeResponse | src/http/handshake.rs:19-25 | the three slices written in order: the fixed head, the key unchanged, CR LF CR LF; `ResponseCarriesKey` and `ResponseKeyIff` prove the key can be read back |
| Handshake.WriteAt | src/http/handshake.rs:42 | writes the bytes at the offset and keeps everything before and after them |
| Handshake.WriteGroups | src/http/handshake.rs:40-44 | writes the full groups; the written prefix and the encoding of the last one or two bytes together make the whole encoding, and the buffer after the prefix is untouched |
| Handshake.EncodeInto | src/http/handshake.rs:40-44 | the buffer holds exactly the base64 encoding, so no zero byte survives |
| Handshake.DeriveResponseKey | src/http/handshake.rs:30-47 | a fresh 28-byte array holding base64(SHA-1(key ‖ GUID)), a function of the key alone |
| Handshake.AcceptKeyShape | src/http/handshake.rs:38-44 | the accept key has 28 bytes: 27 alphabet characters, then `=` |
| Handshake.AcceptKeyDecodes | src/http/handshake.rs:40-44 | decoding the accept key gives back the 20 digest bytes |
| Handshake.ResponseCarriesKey | src/http/handshake.rs:19-25 | the response is the fixed prefix, the key verbatim, then CR LF CR LF |
| Handshake.ResponseKeyIff | src/http/handshake.rs:5-9 | a byte string is the response for a key exactly when it is that prefix, the key, and CR LF CR LF |

## Left out

- Asynchronous I/O in `perform_handshake` is not modelled: `write_vectored`, `flush`, partial-write counts and the tokio traits. Only the bytes it means to send are modelled, by `HandshakeResponse`.
- SHA-1 internals (`sha1_smol`) are not modelled: the hash is a parameter returning 20 bytes. The two `update` calls are modelled as hashing the concatenation, which is what an incremental hasher computes. The RFC 6455 section 1.3 test vector (`dGhlIHNhbXBsZSBub25jZQ==` gives `s3pPLMBiTxaQ9kYGzzhZRbK+xOo=`) needs a concrete SHA-1, so it is not stated.
- The base64 crate's `EncoderWriter` buffering is not modelled. `DeriveResponseKey` writes each four-character group directly, and only the final array contents are compared with the crate's.
- The `HttpParser` trait (`src/http/mod.rs:35-37`) is not modelled. Its `anyhow::Result` return type disagrees with the implementation, which the model follows.
- `HttpRequestMetadata`, `HttpHeaders` and the duplicate `HttpMethod` in `src/main.rs:16-45` are unused and not modelled. The `#[tokio::main]` driver and `dbg!` output are not modelled either; only the example vector and the lookup are.
- `src/lib.rs` holds only a logging macro and is not modelled.
- There is no buffer-accumulation loop, head-size ceiling, forwarding pump or accept loop in these files, so there is nothing of them to model.
- `from_utf8_unchecked` (`src/http/parser.rs:98`) is not modelled. Header names are ASCII token bytes, so the comparison is byte-level ASCII case folding.
- Parsers are not modelled as nom values. Each is a first-order function. nom's `Needed` count in `Incomplete` and the error kinds and positions are dropped.
- `many_till`'s guard against a line parser that consumes nothing is not modelled. `SingleHeader` always consumes when it succeeds, so the guard never fires.
- MainHeaders.Lower: `str::to_lowercase` is modelled as ASCII lowering. It agrees with Unicode lowering on the ASCII letters and dashes a header name can hold, and differs elsewhere.
- MainHeaders.SingleHeader: its contract states only that a success consumes input. What it accepts and rejects is stated by the `MainHeaderGrammar` lemmas instead.
- HttpStreamParser.ParseHeaderLine: its contract states only that it never panics and always consumes on success. Exactly what it accepts is stated by `RequestGrammar.ParseHeaderLineOf` and `RequestGrammar.ParseHeaderLineSound`.
