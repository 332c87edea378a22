/** The ISO/IEC 8859-1 ("latin1") codec as the console socket uses it: every
    byte 0-255 decodes to the one character whose code point has the same
    value, and only characters below U+0100 encode back to a byte. Unlike
    UTF-8, decoding can never fail, which is why the console socket uses it
    for arbitrary binary console output. */
module Latin1 {
  import opened Wrappers

  /** An 8-bit byte of the transport stream. */
  type byte = x: int | 0 <= x < 0x100

  /** A character that has a latin1 encoding. */
  predicate Encodable(c: char) {
    c as int < 0x100
  }

  /** A string every character of which has a latin1 encoding. */
  predicate IsLatin1(s: string) {
    forall i :: 0 <= i < |s| ==> Encodable(s[i])
  }

  /** Decodes one byte to the character with the same code point. */
  function DecodeByte(b: byte): (c: char)
    ensures Encodable(c)
  {
    b as char
  }

  /** Encodes one latin1 character back to its byte. */
  function EncodeChar(c: char): (b: byte)
    requires Encodable(c)
    ensures DecodeByte(b) == c
  {
    c as int
  }

  /** `bytes.decode("latin1")`: one character per byte, in order. */
  function Decode(data: seq<byte>): (s: string)
    ensures |s| == |data|
    ensures IsLatin1(s)
    ensures forall i :: 0 <= i < |data| ==> s[i] as int == data[i]
  {
    if data == [] then []
    else [DecodeByte(data[0])] + Decode(data[1..])
  }

  /** `str.encode("latin1")`: one byte per character, or `None` (Python's
      UnicodeEncodeError) when some character lies above U+00FF. */
  function Encode(s: string): (r: Option<seq<byte>>)
    ensures r.Some? <==> IsLatin1(s)
    ensures r.Some? ==> |r.value| == |s| && Decode(r.value) == s
  {
    if s == [] then Some([])
    else if !Encodable(s[0]) then None
    else
      match Encode(s[1..])
      case None => None
      case Some(rest) => Some([EncodeChar(s[0])] + rest)
  }

  /** Decoding distributes over concatenation, so decoding a stream byte by
      byte yields the same string as decoding it in one go. */
  lemma {:induction false} DecodeAppend(a: seq<byte>, b: seq<byte>)
    ensures Decode(a + b) == Decode(a) + Decode(b)
  {
    if a == [] {
      assert a + b == b;
    } else {
      assert (a + b)[1..] == a[1..] + b;
      DecodeAppend(a[1..], b);
    }
  }

  /** Decoding is injective: distinct byte strings decode to distinct strings. */
  lemma DecodeInjective(a: seq<byte>, b: seq<byte>)
    requires Decode(a) == Decode(b)
    ensures a == b
  {
    assert |a| == |b|;
    forall i | 0 <= i < |a|
      ensures a[i] == b[i]
    {
      assert a[i] == Decode(a)[i] as int;
    }
  }

  /** The round trip the console socket relies on: encoding what was decoded
      gives back the identical bytes, for every byte string. */
  lemma DecodeThenEncode(data: seq<byte>)
    ensures Encode(Decode(data)) == Some(data)
  {
    var r := Encode(Decode(data));
    assert r.Some?;
    DecodeInjective(r.value, data);
  }

  /** Each of the 256 byte values is one character after decoding and the
      identical byte after encoding, including 0xE2, 0x80 and 0xA6, which
      are not valid UTF-8 on their own. */
  lemma EveryByteRoundTrips()
    ensures forall b: byte :: |Decode([b])| == 1 && Encode(Decode([b])) == Some([b])
  {
    forall b: byte
      ensures |Decode([b])| == 1 && Encode(Decode([b])) == Some([b])
    {
      DecodeThenEncode([b]);
    }
  }

  /** The three bytes of UTF-8's horizontal ellipsis stay three separate
      characters and round-trip unchanged. */
  lemma EllipsisBytesRoundTrip()
    ensures Decode([0xE2, 0x80, 0xA6]) == ['\U{E2}', '\U{80}', '\U{A6}']
    ensures Encode(Decode([0xE2, 0x80, 0xA6])) == Some([0xE2, 0x80, 0xA6])
  {
    DecodeThenEncode([0xE2, 0x80, 0xA6]);
  }
}
