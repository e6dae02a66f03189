/** The codec that packs arbitrary bytes into 7-bit-safe pairs for system
    exclusive payloads (index.js:176-205): each byte becomes its low seven
    bits followed by its top bit. */
module SevenBitCodec {
  import opened Bytes

  /** The first of the pair for `b`: its low seven bits. */
  function Low(b: byte): byte {
    b & 0x7F
  }

  /** The second of the pair for `b`: its top bit, moved down. */
  function High(b: byte): byte {
    (b >> 7) & 0x7F
  }

  /** The byte a pair stands for. The source computes this on 32-bit
      integers and stores it in a buffer, which keeps the low 8 bits; on
      `bv8` the shift drops the same bits, so only bit 0 of `hi` counts. */
  function Join(lo: byte, hi: byte): byte {
    (lo & 0x7F) | (hi << 7)
  }

  /** A byte is recovered from its pair. */
  lemma JoinSplit(b: byte)
    ensures Low(b) < 0x80 && High(b) < 2
    ensures Join(Low(b), High(b)) == b
  {
  }

  /** A 7-bit `lo` and a one-bit `hi` are recovered from the byte they
      stand for. */
  lemma SplitJoin(lo: byte, hi: byte)
    requires lo < 0x80 && hi < 2
    ensures Low(Join(lo, hi)) == lo && High(Join(lo, hi)) == hi
  {
  }

  /** The encoding of `bytes`: two 7-bit elements per byte. */
  function Encode(bytes: seq<byte>): (enc: seq<byte>)
    ensures |enc| == 2 * |bytes|
    ensures forall i :: 0 <= i < |enc| ==> enc[i] < 0x80
  {
    if bytes == [] then [] else [Low(bytes[0]), High(bytes[0])] + Encode(bytes[1..])
  }

  /** The decoding of `enc`: one byte per pair, a trailing odd element
      left out. */
  function Decode(enc: seq<byte>): (dec: seq<byte>)
    ensures |dec| == |enc| / 2
  {
    if |enc| < 2 then [] else [Join(enc[0], enc[1])] + Decode(enc[2..])
  }

  /** Pair `k` of the encoding is the low seven bits and the top bit of
      byte `k`. */
  lemma {:induction false} EncodeAt(bytes: seq<byte>, k: nat)
    requires k < |bytes|
    ensures Encode(bytes)[2 * k] == Low(bytes[k])
    ensures Encode(bytes)[2 * k + 1] == High(bytes[k])
  {
    if k > 0 {
      EncodeAt(bytes[1..], k - 1);
    }
  }

  /** Byte `k` of the decoding is made of pair `k`. */
  lemma {:induction false} DecodeAt(enc: seq<byte>, k: nat)
    requires k < |enc| / 2
    ensures Decode(enc)[k] == Join(enc[2 * k], enc[2 * k + 1])
  {
    if k > 0 {
      DecodeAt(enc[2..], k - 1);
    }
  }

  lemma {:induction false} EncodeAppend(s: seq<byte>, t: seq<byte>)
    ensures Encode(s + t) == Encode(s) + Encode(t)
    decreases |s|
  {
    if s == [] {
      assert s + t == t;
    } else {
      assert (s + t)[0] == s[0] && (s + t)[1..] == s[1..] + t;
      EncodeAppend(s[1..], t);
    }
  }

  lemma {:induction false} DecodeAppend(s: seq<byte>, t: seq<byte>)
    requires |s| % 2 == 0
    ensures Decode(s + t) == Decode(s) + Decode(t)
    decreases |s|
  {
    if s == [] {
      assert s + t == t;
    } else {
      assert |s| >= 2;
      var st := s + t;
      assert st[0] == s[0] && st[1] == s[1] && st[2..] == s[2..] + t;
      DecodeAppend(s[2..], t);
      assert Decode(st) == [Join(s[0], s[1])] + Decode(s[2..] + t);
      assert Decode(s) == [Join(s[0], s[1])] + Decode(s[2..]);
    }
  }

  /** A trailing unpaired element does not change the decoding. */
  lemma DecodeIgnoresTrailing(enc: seq<byte>, x: byte)
    requires |enc| % 2 == 0
    ensures Decode(enc + [x]) == Decode(enc)
  {
    DecodeAppend(enc, [x]);
  }

  /** Decoding undoes encoding, for every byte sequence. */
  lemma {:induction false} DecodeEncode(bytes: seq<byte>)
    ensures Decode(Encode(bytes)) == bytes
    decreases |bytes|
  {
    if bytes != [] {
      var enc := Encode(bytes);
      assert enc[0] == Low(bytes[0]) && enc[1] == High(bytes[0]);
      assert enc[2..] == Encode(bytes[1..]);
      DecodeEncode(bytes[1..]);
      JoinSplit(bytes[0]);
    }
  }

  /** `enc` alternates 7-bit elements and one-bit elements, as encodings
      do. */
  predicate IsPairs(enc: seq<byte>) {
    forall i :: 0 <= i < |enc| ==> if i % 2 == 0 then enc[i] < 0x80 else enc[i] < 2
  }

  /** Every even-length sequence of pairs is the encoding of its decoding:
      on these, encoding and decoding are inverse. */
  lemma {:induction false} EncodeDecode(enc: seq<byte>)
    requires |enc| % 2 == 0 && IsPairs(enc)
    ensures Encode(Decode(enc)) == enc
    decreases |enc|
  {
    if enc != [] {
      var rest := enc[2..];
      forall i | 0 <= i < |rest|
        ensures if i % 2 == 0 then rest[i] < 0x80 else rest[i] < 2
      {
        assert rest[i] == enc[i + 2];
      }
      EncodeDecode(rest);
      SplitJoin(enc[0], enc[1]);
      var dec := Decode(enc);
      assert dec[0] == Join(enc[0], enc[1]) && dec[1..] == Decode(rest);
      assert enc == [enc[0], enc[1]] + rest;
    }
  }

  /** 200 is 72 with the top bit set, so it encodes as the pair 72, 1. */
  lemma ByteTwoHundred()
    ensures Encode([200]) == [72, 1]
    ensures Decode([72, 1]) == [200]
  {
  }

  /** `encodeValue`: pushes the pair of each byte in turn. */
  method EncodeValue(buffer: seq<byte>) returns (encoded: seq<byte>)
    ensures encoded == Encode(buffer)
  {
    encoded := [];
    for i := 0 to |buffer|
      invariant encoded == Encode(buffer[..i])
    {
      encoded := encoded + [buffer[i] & 0x7F];
      encoded := encoded + [(buffer[i] >> 7) & 0x7F];
      assert Encode([buffer[i]]) == [Low(buffer[i]), High(buffer[i])] + Encode([]);
      EncodeAppend(buffer[..i], [buffer[i]]);
      assert buffer[..i + 1] == buffer[..i] + [buffer[i]];
    }
    assert buffer[..|buffer|] == buffer;
  }

  /** `decodeValue`: joins the elements two at a time while a whole pair is
      left. */
  method DecodeValue(buffer: seq<byte>) returns (decoded: seq<byte>)
    ensures decoded == Decode(buffer)
  {
    decoded := [];
    var i := 0;
    while i < |buffer| - 1
      invariant 0 <= i <= |buffer| && i % 2 == 0
      invariant decoded == Decode(buffer[..i])
    {
      var joined := (buffer[i] & 0x7F) | (buffer[i + 1] << 7);
      decoded := decoded + [joined];
      DecodeAppend(buffer[..i], buffer[i..i + 2]);
      assert buffer[..i + 2] == buffer[..i] + buffer[i..i + 2];
      i := i + 2;
    }
    if i < |buffer| {
      DecodeIgnoresTrailing(buffer[..i], buffer[i]);
      assert buffer == buffer[..i] + [buffer[i]];
    } else {
      assert buffer[..i] == buffer;
    }
  }

  /** Node's 'ascii' encoding of a string into a buffer: each character
      keeps its low 8 bits. */
  function AsciiBytes(text: string): seq<byte> {
    seq(|text|, i requires 0 <= i < |text| => ((text[i] as int) % 256) as byte)
  }

  /** Node's 'ascii' decoding of a buffer into a string: each byte with its
      high bit cleared. */
  function AsciiText(bytes: seq<byte>): string {
    seq(|bytes|, i requires 0 <= i < |bytes| => ((bytes[i] & 0x7F) as int) as char)
  }

  /** A 7-bit character comes back unchanged from a byte of a buffer. */
  lemma AsciiChar(c: char)
    requires c < 128 as char
    ensures ((((c as int) % 256) as byte & 0x7F) as int) as char == c
  {
    var x := ((c as int) % 256) as byte;
    assert x as int == c as int;
    assert x & 0x7F == x;
  }

  /** A string of 7-bit characters survives the trip through a buffer. */
  lemma AsciiRoundTrip(text: string)
    requires forall i :: 0 <= i < |text| ==> text[i] < 128 as char
    ensures AsciiText(AsciiBytes(text)) == text
  {
    forall i | 0 <= i < |text|
      ensures AsciiText(AsciiBytes(text))[i] == text[i]
    {
      AsciiChar(text[i]);
    }
  }

  /** `encodeString`: encodes the buffer Node makes of `text`. */
  method EncodeString(text: string) returns (encoded: seq<byte>)
    ensures encoded == Encode(AsciiBytes(text))
  {
    encoded := EncodeValue(AsciiBytes(text));
  }

  /** `decodeString`: the decoded buffer read back as a string. */
  method DecodeString(buffer: seq<byte>) returns (text: string)
    ensures |text| == |buffer| / 2
    ensures text == AsciiText(Decode(buffer))
  {
    var decoded := DecodeValue(buffer);
    text := AsciiText(decoded);
  }

  /** A string of 7-bit characters survives encoding and decoding. */
  lemma StringRoundTrip(text: string)
    requires forall i :: 0 <= i < |text| ==> text[i] < 128 as char
    ensures AsciiText(Decode(Encode(AsciiBytes(text)))) == text
  {
    DecodeEncode(AsciiBytes(text));
    AsciiRoundTrip(text);
  }
}
