/**
 * The server side of the RFC 6455 opening handshake (section 4.2.2): the accept key
 * derived from the client's `Sec-WebSocket-Key`, and the `101 Switching Protocols` response
 * that carries it. SHA-1 is a parameter: any function from bytes to a 20-byte digest.
 */
module Handshake {
  import opened Bytes
  import opened Wrappers
  import opened Base64
  import Nom

  /** The response up to the accept key: status line, `Upgrade`, `Connection`, field name. */
  const HANDSHAKE_RESPONSE_PARTIAL: Bytes :=
    ToBytes("HTTP/1.1 101 Switching Protocols\r\n") + ToBytes("Upgrade: websocket\r\n")
    + ToBytes("Connection: Upgrade\r\n") + ToBytes("Sec-WebSocket-Accept: ")

  /** The GUID of section 1.3 of RFC 6455. */
  const MAGIC_STRING: Bytes := ToBytes("258EAFA5-E914-47DA-95CA-C5AB0DC85B11")

  const SHA1_DIGEST_LEN: nat := 20
  const BASE64_ENCODED_DIGEST_LEN: nat := 4 * ((SHA1_DIGEST_LEN + 2) / 3)

  /** What follows the key: the end of its line and the empty line that ends the head. */
  const RETURNS: Bytes := CRLF + CRLF

  type Digest = d: Bytes | |d| == SHA1_DIGEST_LEN witness seq(20, _ => 0 as uint8)

  lemma Lengths()
    ensures BASE64_ENCODED_DIGEST_LEN == 28 == EncodedLen(SHA1_DIGEST_LEN)
    ensures |HANDSHAKE_RESPONSE_PARTIAL| == 97 && |MAGIC_STRING| == 36
  {
  }

  /** What the hasher is fed: the key, then the GUID, with nothing between or after. */
  function HashInput(key: Bytes): (m: Bytes)
    ensures |m| == |key| + |MAGIC_STRING|
    ensures m[..|key|] == key && m[|key|..] == MAGIC_STRING
  {
    key + MAGIC_STRING
  }

  /** The accept key: base64 of the SHA-1 digest of the hash input. */
  function AcceptKey(sha1: Bytes -> Digest, key: Bytes): Bytes {
    Encode(sha1(HashInput(key)))
  }

  /** Writes `src` into `buf` from index `o` on, leaving the bytes before and after it alone. */
  method WriteAt(src: Bytes, buf: array<uint8>, o: nat)
    requires o + |src| <= buf.Length
    modifies buf
    ensures buf[..o + |src|] == old(buf[..o]) + src
    ensures buf[o + |src|..] == old(buf[o + |src|..])
  {
    var j := 0;
    while j < |src|
      invariant 0 <= j <= |src|
      invariant buf[..o + j] == old(buf[..o]) + src[..j]
      invariant buf[o + j..] == old(buf[o + j..])
    {
      buf[o + j] := src[j];
      assert src[..j + 1] == src[..j] + [src[j]];
      j := j + 1;
    }
  }

  /**
   * The encoder writer's `write_all`: every whole group of three input bytes becomes four
   * characters in the buffer. Returns how much input and output that took; fewer than three
   * input bytes are left.
   */
  method WriteGroups(data: Bytes, buf: array<uint8>) returns (i: nat, o: nat)
    requires buf.Length == EncodedLen(|data|)
    modifies buf
    ensures i <= |data| < i + 3
    ensures o + EncodedLen(|data| - i) == buf.Length
    ensures buf[..o] + Encode(data[i..]) == Encode(data)
    ensures buf[o..] == old(buf[o..])
  {
    i, o := 0, 0;
    while i + 3 <= |data|
      invariant i <= |data|
      invariant o + EncodedLen(|data| - i) == buf.Length
      invariant buf[..o] + Encode(data[i..]) == Encode(data)
      invariant buf[o..] == old(buf[o..])
    {
      LengthStep(|data| - i);
      var quad := Group(data[i], data[i + 1], data[i + 2]);
      EncodeFrom(data, i);
      ghost var before := buf[..o];
      WriteAt(quad, buf, o);
      Nom.Assoc(before, quad, Encode(data[i + 3..]));
      i, o := i + 3, o + 4;
    }
  }

  /**
   * The encoder writer over a buffer exactly as long as the encoding: `write_all` writes
   * the whole groups and, when the encoder is dropped at the end of the block, the padded
   * remainder.
   */
  method EncodeInto(data: Bytes, buf: array<uint8>)
    requires buf.Length == EncodedLen(|data|)
    modifies buf
    ensures buf[..] == Encode(data)
  {
    var i, o := WriteGroups(data, buf);
    var last := Encode(data[i..]);
    EncodeLength(data[i..]);
    WriteAt(last, buf, o);
    assert buf[..] == buf[..o + |last|];
  }

  /**
   * `derive_response_key`: hash the key and the GUID, then encode the digest into a
   * zeroed 28-byte array. Every byte of the array is overwritten.
   */
  method DeriveResponseKey(sha1: Bytes -> Digest, key: Bytes) returns (returnKey: array<uint8>)
    ensures fresh(returnKey)
    ensures returnKey.Length == BASE64_ENCODED_DIGEST_LEN
    ensures returnKey[..] == AcceptKey(sha1, key)
  {
    var hash := sha1(HashInput(key));
    returnKey := new uint8[BASE64_ENCODED_DIGEST_LEN](_ => 0);
    EncodeInto(hash, returnKey);
  }

  /** The accept key is 27 alphabet characters and one `=`. */
  lemma AcceptKeyShape(sha1: Bytes -> Digest, key: Bytes)
    ensures var k := AcceptKey(sha1, key);
      && |k| == 28 && k[27] == PAD
      && forall i :: 0 <= i < 27 ==> IsAlphabet(k[i])
  {
    EncodeShape(sha1(HashInput(key)));
    EncodeLength(sha1(HashInput(key)));
  }

  /** Decoding the accept key gives back exactly the digest. */
  lemma AcceptKeyDecodes(sha1: Bytes -> Digest, key: Bytes)
    ensures Decode(AcceptKey(sha1, key)) == Some(sha1(HashInput(key)))
  {
    DecodeEncode(sha1(HashInput(key)));
  }

  /** What `perform_handshake` writes: the fixed head, the key as given, two line ends. */
  function HandshakeResponse(key: Bytes): Bytes {
    HANDSHAKE_RESPONSE_PARTIAL + key + RETURNS
  }

  /** How a client takes the key back out of a response; `None` if the frame is not there. */
  function ResponseKey(r: Bytes): Option<Bytes> {
    var n := |HANDSHAKE_RESPONSE_PARTIAL|;
    if |r| >= n + |RETURNS| && r[..n] == HANDSHAKE_RESPONSE_PARTIAL && r[|r| - |RETURNS|..] == RETURNS
    then Some(r[n..|r| - |RETURNS|])
    else None
  }

  /** The key is written verbatim, between the fixed head and the line ends. */
  lemma ResponseCarriesKey(key: Bytes)
    ensures var r := HandshakeResponse(key);
      && |r| == |HANDSHAKE_RESPONSE_PARTIAL| + |key| + 4
      && r[..|HANDSHAKE_RESPONSE_PARTIAL|] == HANDSHAKE_RESPONSE_PARTIAL
      && r[|HANDSHAKE_RESPONSE_PARTIAL|..|HANDSHAKE_RESPONSE_PARTIAL| + |key|] == key
      && r[|HANDSHAKE_RESPONSE_PARTIAL| + |key|..] == RETURNS
  {
    var r := HandshakeResponse(key);
    var n := |HANDSHAKE_RESPONSE_PARTIAL|;
    assert r[..n] == HANDSHAKE_RESPONSE_PARTIAL;
    assert r[n..n + |key|] == key;
    assert r[n + |key|..] == RETURNS;
  }

  /** Every response is read back to its key, and every frame read back is that key's response. */
  lemma ResponseKeyIff(r: Bytes, key: Bytes)
    ensures ResponseKey(r) == Some(key) <==> r == HandshakeResponse(key)
  {
    ResponseCarriesKey(key);
    var n := |HANDSHAKE_RESPONSE_PARTIAL|;
    if ResponseKey(r) == Some(key) {
      assert r == r[..n] + r[n..|r| - 4] + r[|r| - 4..];
    }
  }
}
