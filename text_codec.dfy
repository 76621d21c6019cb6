/** The two byte/text conversions of the provisioning channel: incoming BLE
    writes are read one byte per character (`chr(b)` for every byte, a
    Latin-1 reading), outgoing read/notify payloads are UTF-8 encoded. */
module TextCodec {

  newtype byte = x: int | 0 <= x < 256

  /** `''.join(chr(b) for b in data)`. */
  function DecodeBytes(data: seq<byte>): (s: string)
    ensures |s| == |data|
    ensures forall k :: 0 <= k < |data| ==> s[k] as int == data[k] as int
  {
    if data == [] then "" else [(data[0] as int) as char] + DecodeBytes(data[1..])
  }

  predicate IsAscii(s: string) {
    forall k :: 0 <= k < |s| ==> s[k] as int < 0x80
  }

  /** The length of a UTF-8 sequence announced by its lead byte, or 0 for a
      byte that cannot lead one. */
  function LeadLength(b: byte): nat {
    if b < 0x80 then 1
    else if 0xC0 <= b < 0xE0 then 2
    else if 0xE0 <= b < 0xF0 then 3
    else if 0xF0 <= b < 0xF8 then 4
    else 0
  }

  /** The six payload bits of a continuation byte. */
  function Bits(b: byte): int {
    b as int - 0x80
  }

  /** An independent UTF-8 decoder for one sequence: the payload bits of the
      lead byte followed by six payload bits per continuation byte. */
  function DecodeScalar(bs: seq<byte>): int
    requires 1 <= |bs| <= 4
  {
    if |bs| == 1 then bs[0] as int
    else if |bs| == 2 then (bs[0] as int - 0xC0) * 0x40 + Bits(bs[1])
    else if |bs| == 3 then ((bs[0] as int - 0xE0) * 0x40 + Bits(bs[1])) * 0x40 + Bits(bs[2])
    else (((bs[0] as int - 0xF0) * 0x40 + Bits(bs[1])) * 0x40 + Bits(bs[2])) * 0x40 + Bits(bs[3])
  }

  /** The UTF-8 encoding of one Unicode scalar value: the shortest form, the
      lead byte announcing the length, and continuation bytes tagged 10xxxxxx. */
  function EncodeChar(c: char): (bs: seq<byte>)
    ensures 1 <= |bs| <= 4
    ensures |bs| == 1 <==> c as int < 0x80
    ensures |bs| == 2 <==> 0x80 <= c as int < 0x800
    ensures |bs| == 3 <==> 0x800 <= c as int < 0x1_0000
    ensures |bs| == 4 <==> 0x1_0000 <= c as int
    ensures LeadLength(bs[0]) == |bs|
    ensures forall k :: 0 < k < |bs| ==> 0x80 <= bs[k] < 0xC0
  {
    var n := c as int;
    if n < 0x80 then [n as byte]
    else if n < 0x800 then [(0xC0 + n / 0x40) as byte, (0x80 + n % 0x40) as byte]
    else if n < 0x1_0000 then
      [(0xE0 + n / 0x1000) as byte, (0x80 + (n / 0x40) % 0x40) as byte, (0x80 + n % 0x40) as byte]
    else
      [(0xF0 + n / 0x4_0000) as byte, (0x80 + (n / 0x1000) % 0x40) as byte,
       (0x80 + (n / 0x40) % 0x40) as byte, (0x80 + n % 0x40) as byte]
  }

  /** Decoding the bytes of one character gives back that character. */
  lemma EncodeCharDecodes(c: char)
    ensures DecodeScalar(EncodeChar(c)) == c as int
  {
    var n := c as int;
    var bs := EncodeChar(c);
    var r0, q1 := n % 0x40, n / 0x40;
    assert n == q1 * 0x40 + r0;
    if n < 0x80 {
    } else if n < 0x800 {
      assert bs[0] as int - 0xC0 == q1 && Bits(bs[1]) == r0;
    } else {
      var r1, q2 := q1 % 0x40, q1 / 0x40;
      assert q1 == q2 * 0x40 + r1;
      assert n / 0x1000 == q2;
      if n < 0x1_0000 {
        assert bs[0] as int - 0xE0 == q2 && Bits(bs[1]) == r1 && Bits(bs[2]) == r0;
      } else {
        var r2, q3 := q2 % 0x40, q2 / 0x40;
        assert q2 == q3 * 0x40 + r2;
        assert n / 0x4_0000 == q3;
        assert bs[0] as int - 0xF0 == q3 && Bits(bs[1]) == r2 && Bits(bs[2]) == r1 && Bits(bs[3]) == r0;
      }
    }
  }

  /** `s.encode('utf-8')`. */
  function Utf8Encode(s: string): (bs: seq<byte>)
    ensures |bs| >= |s|
  {
    if s == [] then [] else EncodeChar(s[0]) + Utf8Encode(s[1..])
  }

  /** Encoding a concatenation is concatenating the encodings. */
  lemma {:induction false} Utf8EncodeConcat(a: string, b: string)
    ensures Utf8Encode(a + b) == Utf8Encode(a) + Utf8Encode(b)
    decreases |a|
  {
    if a != [] {
      assert (a + b)[1..] == a[1..] + b;
      Utf8EncodeConcat(a[1..], b);
    } else {
      assert a + b == b;
    }
  }

  /** An ASCII text survives the trip out as UTF-8 and back in as the
      one-byte-per-character reading used for incoming writes. */
  lemma {:induction false} AsciiRoundTrip(s: string)
    requires IsAscii(s)
    ensures Utf8Encode(s) == EncodeAscii(s)
    ensures DecodeBytes(Utf8Encode(s)) == s
    decreases |s|
  {
    if s != [] {
      AsciiRoundTrip(s[1..]);
    }
  }

  /** The byte-per-character encoding of an ASCII text. */
  function EncodeAscii(s: string): seq<byte>
    requires IsAscii(s)
  {
    if s == [] then [] else [(s[0] as int) as byte] + EncodeAscii(s[1..])
  }
}
