/**
 * The scanner is a streaming parser: once it has given a definite answer on the bytes
 * received so far, more bytes cannot change it. So a head is recognised the moment its
 * blank line is complete, and every strict prefix of an accepted head asks for more input.
 */
module HttpStreamStability {
  import opened Bytes
  import opened Nom
  import opened HttpStreamParser

  lemma ParseMethodExtends(s: Bytes, t: Bytes)
    ensures Extends(ParseMethod(s), ParseMethod(s + t), t)
  {
    TakeWhile1Extends(IsNotSpace, s, t);
  }

  lemma MethodThenBlanksExtends(s: Bytes, t: Bytes)
    ensures Extends(MethodThenBlanks(s), MethodThenBlanks(s + t), t)
  {
    ParseMethodExtends(s, t);
    var m := ParseMethod(s);
    if m.Done? {
      TakeWhile1Extends(IsSpace, m.rest, t);
    }
  }

  lemma TargetThenBlanksExtends(s: Bytes, t: Bytes)
    ensures Extends(TargetThenBlanks(s), TargetThenBlanks(s + t), t)
  {
    TakeWhile1Extends(IsNotSpace, s, t);
    var target := Word(s);
    if target.Done? {
      TakeWhile1Extends(IsSpace, target.rest, t);
    }
  }

  lemma VersionDigitsExtends(s: Bytes, t: Bytes)
    ensures Extends(VersionDigits(s), VersionDigits(s + t), t)
  {
    TakeWhile1Extends(IsAsciiDigit, s, t);
    var x := Digit1(s);
    if x.Done? {
      TagExtends(DOT, x.rest, t);
      var dot := Tag(DOT, x.rest);
      if dot.Done? {
        TakeWhile1Extends(IsAsciiDigit, dot.rest, t);
      }
    }
  }

  lemma ParseHttpVersionExtends(s: Bytes, t: Bytes)
    ensures Extends(ParseHttpVersion(s), ParseHttpVersion(s + t), t)
  {
    TagExtends(HTTP_SLASH, s, t);
    var h := Tag(HTTP_SLASH, s);
    if h.Done? {
      VersionDigitsExtends(h.rest, t);
    }
  }

  lemma VersionThenEndExtends(s: Bytes, t: Bytes)
    ensures Extends(VersionThenEnd(s), VersionThenEnd(s + t), t)
  {
    ParseHttpVersionExtends(s, t);
    var v := ParseHttpVersion(s);
    if v.Done? {
      TagExtends(CRLF, v.rest, t);
    }
  }

  lemma ParseStartLineExtends(s: Bytes, t: Bytes)
    ensures Extends(ParseStartLine(s), ParseStartLine(s + t), t)
  {
    MethodThenBlanksExtends(s, t);
    var m := MethodThenBlanks(s);
    if m.Done? {
      TargetThenBlanksExtends(m.rest, t);
      var target := TargetThenBlanks(m.rest);
      if target.Done? {
        VersionThenEndExtends(target.rest, t);
      }
    }
  }

  lemma NameThenBlanksExtends(s: Bytes, t: Bytes)
    ensures Extends(NameThenBlanks(s), NameThenBlanks(s + t), t)
  {
    TakeWhile1Extends(HeaderKeyChar, s, t);
    var name := TakeWhile1(HeaderKeyChar, s);
    if name.Done? {
      TakeWhileExtends(IsSpace, name.rest, t);
    }
  }

  lemma BlanksValueEndExtends(s: Bytes, t: Bytes)
    ensures Extends(BlanksValueEnd(s), BlanksValueEnd(s + t), t)
  {
    TakeWhileExtends(IsSpace, s, t);
    var ws := Space0(s);
    if ws.Done? {
      TakeWhileExtends(HeaderValueChar, ws.rest, t);
      var value := TakeWhile(HeaderValueChar, ws.rest);
      if value.Done? {
        TagExtends(CRLF, value.rest, t);
      }
    }
  }

  lemma ParseHeaderLineExtends(s: Bytes, t: Bytes)
    ensures Extends(ParseHeaderLine(s), ParseHeaderLine(s + t), t)
  {
    NameThenBlanksExtends(s, t);
    var name := NameThenBlanks(s);
    if name.Done? {
      TagExtends([COLON], name.rest, t);
      var colon := Tag([COLON], name.rest);
      if colon.Done? {
        BlanksValueEndExtends(colon.rest, t);
      }
    }
  }

  lemma {:induction false} ParseHeadersExtends(s: Bytes, t: Bytes)
    ensures Extends(ParseHeaders(s), ParseHeaders(s + t), t)
    decreases |s|
  {
    ParseHeaderLineExtends(s, t);
    var line := ParseHeaderLine(s);
    if line.Done? {
      ParseHeadersExtends(line.rest, t);
    }
  }

  lemma HeaderBlockExtends(s: Bytes, t: Bytes)
    ensures Extends(HeaderBlock(s), HeaderBlock(s + t), t)
  {
    ParseHeadersExtends(s, t);
    var headers := ParseHeaders(s);
    if headers.Done? {
      TagExtends(CRLF, headers.rest, t);
    }
  }

  /** Appending bytes to an input whose head scan was definite leaves that scan unchanged. */
  lemma ParseHeadExtends(s: Bytes, t: Bytes)
    ensures Extends(ParseHead(s), ParseHead(s + t), t)
  {
    ParseStartLineExtends(s, t);
    var start := ParseStartLine(s);
    if start.Done? {
      HeaderBlockExtends(start.rest, t);
    }
  }

  /**
   * Bytes after the blank line are never looked at: a found key stays found with the
   * same value, and the appended bytes all end up in the unconsumed rest.
   */
  lemma ParseWebsocketKeyExtends(s: Bytes, t: Bytes)
    ensures Extends(ParseWebsocketKey(s), ParseWebsocketKey(s + t), t)
  {
    ParseHeadExtends(s, t);
  }

  /**
   * Cutting an accepted input anywhere before the end of its head leaves a prefix that
   * is `Incomplete`, never a failure or a panic, whether or not the head holds the key.
   */
  lemma HeadPrefixIsIncomplete(p: Bytes, u: Bytes)
    requires ParseHead(p + u).Done? && |ParseHead(p + u).rest| < |u|
    ensures ParseHead(p) == Incomplete
  {
    ParseHeadExtends(p, u);
  }

  /** The same for the key scan: a prefix of a request that yields a key yields `Incomplete`. */
  lemma KeyPrefixIsIncomplete(p: Bytes, u: Bytes)
    requires ParseWebsocketKey(p + u).Done? && |ParseWebsocketKey(p + u).rest| < |u|
    ensures ParseWebsocketKey(p) == Incomplete
  {
    ParseWebsocketKeyExtends(p, u);
  }
}
