/** A concrete upgrade request, read through the scanner. */
module RequestExamples {
  import opened Bytes
  import opened Wrappers
  import opened Nom
  import opened HttpMethods
  import opened HttpStreamParser
  import opened RequestGrammar

  const START_LINE: Bytes := ToBytes("GET / HTTP/1.1\r\n")
  const HOST_LINE: Bytes := ToBytes("Host: x\r\n")
  const KEY_PREFIX: Bytes := ToBytes("Sec-WebSocket-Key: ")

  /** The sample nonce of section 1.3 of RFC 6455. */
  const SAMPLE_KEY: Bytes := ToBytes("dGhlIHNhbXBsZSBub25jZQ==")

  /** The request `GET / HTTP/1.1`, `Host: x`, `Sec-WebSocket-Key: <SAMPLE_KEY>`, blank line. */
  function SampleText(): Bytes {
    START_LINE + HOST_LINE + (KEY_PREFIX + SAMPLE_KEY + CRLF) + CRLF
  }

  /** The same request as a grammar value. */
  const SAMPLE: RequestHead := RequestHead(
    Get, [SP], ['/' as uint8], [SP], ['1' as uint8], ['1' as uint8],
    [HeaderLine(['H' as uint8, 'o' as uint8, 's' as uint8, 't' as uint8], [], [SP], ['x' as uint8]),
     HeaderLine(SEC_WEBSOCKET_KEY, [], [SP], SAMPLE_KEY)])

  lemma StartLineBytesOfText()
    ensures START_LINE == [71, 69, 84, 32, 47, 32, 72, 84, 84, 80, 47, 49, 46, 49, 13, 10]
  {
  }

  lemma HostLineBytesOfText()
    ensures HOST_LINE == [72, 111, 115, 116, 58, 32, 120, 13, 10]
  {
  }

  lemma KeyPrefixBytesOfText()
    ensures KEY_PREFIX == [83, 101, 99, 45, 87, 101, 98, 83, 111, 99, 107, 101, 116, 45, 75, 101, 121, 58, 32]
  {
  }

  lemma SampleKeyBytesOfText()
    ensures SAMPLE_KEY == [100, 71, 104, 108, 73, 72, 78, 104, 98, 88, 66, 115, 90, 83, 66, 117, 98, 50, 53, 106, 90, 81, 61, 61]
  {
  }

  lemma StartLineText()
    ensures StartLineBytes(SAMPLE) == START_LINE
  {
    StartLineBytesOfText();
  }

  lemma HostLineText()
    ensures LineBytes(SAMPLE.lines[0]) == HOST_LINE
  {
    HostLineBytesOfText();
  }

  lemma KeyLineText()
    ensures LineBytes(SAMPLE.lines[1]) == KEY_PREFIX + SAMPLE_KEY + CRLF
  {
    var l := SAMPLE.lines[1];
    KeyPrefixBytesOfText();
    assert l.name + l.ws1 + [COLON] + l.ws2 == KEY_PREFIX;
  }

  lemma SampleTextIsHead()
    ensures SampleText() == HeadBytes(SAMPLE)
  {
    StartLineText();
    HostLineText();
    KeyLineText();
    var ls := SAMPLE.lines;
    LinesBytesSplit(ls, []);
    LinesBytesSplit(ls[1..], []);
    assert ls[1..][1..] == [];
    AppendEmpty(LinesBytes(ls));
    AppendEmpty(LineBytes(ls[1]));
  }

  lemma KeyNameIsToken()
    ensures All(SEC_WEBSOCKET_KEY, HeaderKeyChar)
  {
  }

  /** The key name is matched ignoring ASCII case: the all-upper spelling matches. */
  lemma UpperKeyNameMatches()
    ensures IsKeyName(ToBytes("SEC-WEBSOCKET-KEY"))
  {
    var n := ToBytes("SEC-WEBSOCKET-KEY");
    forall i | 0 <= i < |n| ensures ToAsciiLower(n[i]) == ToAsciiLower(SEC_WEBSOCKET_KEY[i]) {
    }
  }

  /** The all-lower spelling matches too. */
  lemma LowerKeyNameMatches()
    ensures IsKeyName(ToBytes("sec-websocket-key"))
  {
    var n := ToBytes("sec-websocket-key");
    forall i | 0 <= i < |n| ensures ToAsciiLower(n[i]) == ToAsciiLower(SEC_WEBSOCKET_KEY[i]) {
    }
  }

  lemma SampleKeyIsValue()
    ensures All(SAMPLE_KEY, HeaderValueChar) && !IsSpace(SAMPLE_KEY[0])
  {
    SampleKeyBytesOfText();
  }

  lemma SampleWellFormed()
    ensures WellFormed(SAMPLE)
  {
    KeyNameIsToken();
    SampleKeyIsValue();
    assert ValidLine(SAMPLE.lines[0]);
    assert ValidLine(SAMPLE.lines[1]);
    assert Decimal(['1' as uint8]) == 1 by {
      assert (['1' as uint8])[..0] == [];
    }
  }

  lemma SampleKeyFound()
    ensures FindKey(Fields(SAMPLE.lines)) == Some(SAMPLE_KEY)
  {
    assert !IsKeyName(SAMPLE.lines[0].name);
    assert IsKeyName(SEC_WEBSOCKET_KEY);
  }

  /** The whole request, blank line included, yields the nonce with nothing left over. */
  lemma SampleYieldsKey()
    ensures ParseWebsocketKey(SampleText()) == Done([], SAMPLE_KEY)
  {
    SampleTextIsHead();
    SampleWellFormed();
    SampleKeyFound();
    KeyOfWellFormedHead(SAMPLE, []);
    AppendEmpty(HeadBytes(SAMPLE));
  }

  /** Without its final LF the same request is still `Incomplete`. */
  lemma SampleWithoutLastByteIsIncomplete()
    ensures ParseWebsocketKey(START_LINE + HOST_LINE + (KEY_PREFIX + SAMPLE_KEY + CRLF) + [CR]) == Incomplete
  {
    var p := START_LINE + HOST_LINE + (KEY_PREFIX + SAMPLE_KEY + CRLF) + [CR];
    Assoc(START_LINE + HOST_LINE + (KEY_PREFIX + SAMPLE_KEY + CRLF), [CR], [LF]);
    SampleTextIsHead();
    SampleWellFormed();
    WellFormedPrefixIsIncomplete(SAMPLE, p, [LF]);
  }

  /** `Host x`: a header line with no colon. */
  const NO_COLON_LINE: Bytes := ['H' as uint8, 'o' as uint8, 's' as uint8, 't' as uint8, SP, 'x' as uint8] + CRLF

  lemma NoColonLine(r: Bytes)
    ensures ParseHeaderLine(NO_COLON_LINE + r) == Fail
  {
    var name := ['H' as uint8, 'o' as uint8, 's' as uint8, 't' as uint8];
    var a := name + [SP] + ['x' as uint8];
    assert a + CRLF == NO_COLON_LINE;
    Assoc(a, CRLF, r);
    Delimiters();
    MissingColonFails(name, [SP], 'x' as uint8, CRLF + r);
  }

  /** The request line without any header lines, as a grammar value. */
  lemma BareStartLine() returns (h: RequestHead)
    ensures ValidStartLine(h) && ValidLines(h.lines) && h.lines == []
    ensures StartLineBytes(h) + LinesBytes(h.lines) == START_LINE
  {
    SampleWellFormed();
    h := SAMPLE.(lines := []);
    StartLineText();
    assert StartLineBytes(h) == StartLineBytes(SAMPLE);
    AppendEmpty(START_LINE);
  }

  /** A request whose only header line has no colon fails permanently, blank line or not. */
  lemma NoColonLineFails(r: Bytes)
    ensures ParseWebsocketKey(START_LINE + (NO_COLON_LINE + r)) == Fail
  {
    var u := NO_COLON_LINE + r;
    NoColonLine(r);
    var h := BareStartLine();
    assert u[0] == 'H' as uint8;
    MalformedLineFails(h, u);
  }
}
