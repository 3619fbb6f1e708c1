/** The sample header block that `main` in `src/main.rs` parses, and the key it finds. */
module MainExample {
  import opened Nom
  import opened MainHeaders
  import opened MainHeaderGrammar

  const HELLO_TEXT: string := "Hello-World" + ":" + "Hello&World" + "\r\n"
  const KEY_TEXT: string := "Sec-WebSocket-Key" + ":" + "87tgb9786f67tv7" + "\r\n"

  /** `Hello-World:Hello&World\r\nSec-WebSocket-Key:87tgb9786f67tv7\r\n\r\n`, line by line. */
  const EXAMPLE: string := HELLO_TEXT + KEY_TEXT + LINE_END

  const HELLO_LINE: HeaderText := HeaderText("", "Hello-World", "", "", "Hello&World")
  const KEY_LINE: HeaderText := HeaderText("", "Sec-WebSocket-Key", "", "", "87tgb9786f67tv7")

  lemma HelloLineText()
    ensures LineText(HELLO_LINE) == HELLO_TEXT
  {
  }

  lemma KeyLineText()
    ensures LineText(KEY_LINE) == KEY_TEXT
  {
  }

  lemma ExampleIsBlock()
    ensures EXAMPLE == BlockText([HELLO_LINE, KEY_LINE])
  {
    HelloLineText();
    KeyLineText();
    var hs := [HELLO_LINE, KEY_LINE];
    LinesSplit(hs, []);
    assert hs[1..] == [KEY_LINE];
    LinesSplit(hs[1..], []);
    assert hs[1..][1..] == [];
    AppendEmpty(LinesText(hs));
    AppendEmpty(KEY_TEXT);
  }

  lemma HelloLineIsValid()
    ensures ValidText(HELLO_LINE)
  {
  }

  lemma KeyLineIsValid()
    ensures ValidText(KEY_LINE)
  {
  }

  lemma ExampleIsValid()
    ensures ValidTexts([HELLO_LINE, KEY_LINE])
  {
    HelloLineIsValid();
    KeyLineIsValid();
  }

  const EXAMPLE_HEADERS: seq<Header> :=
    [Header("Hello-World", "Hello&World"), Header("Sec-WebSocket-Key", "87tgb9786f67tv7")]

  lemma ExampleHeadersOf()
    ensures HeadersOf([HELLO_LINE, KEY_LINE]) == EXAMPLE_HEADERS
  {
  }

  /** The block gives its two headers, in order, with nothing left over. */
  lemma ExampleHeaders()
    ensures MultipleHeaders(EXAMPLE) == Done([], EXAMPLE_HEADERS)
  {
    var hs := [HELLO_LINE, KEY_LINE];
    ExampleIsValid();
    MultipleHeadersOf(hs, []);
    ExampleIsBlock();
    AppendEmpty(BlockText(hs));
    ExampleHeadersOf();
    assert MultipleHeaders(BlockText(hs)) == Done([], EXAMPLE_HEADERS);
  }

  lemma KeyNameMatches()
    ensures IsApiKeyName("Sec-WebSocket-Key") && !IsApiKeyName("Hello-World")
  {
  }

  /** The lookup picks the second header and returns its value. */
  lemma ExampleKey()
    ensures LookupKey(EXAMPLE_HEADERS) == Found("Sec-WebSocket-Key", "87tgb9786f67tv7")
  {
    KeyNameMatches();
  }
}
