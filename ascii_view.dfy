/** The editor's plain-text rendering of the buffer, `decode('ascii')` with a
    fall-back to `decode('ascii', errors='replace')`, and the UTF-8 encoding
    `str.encode()` that turns typed or loaded text back into bytes. */
module AsciiView {
  import opened Wrappers
  import opened HexText

  /** U+FFFD, what the `'replace'` error handler writes for an undecodable byte. */
  const Replacement: char := '\U{FFFD}'

  /** `bytes.decode('ascii')`: the text when every byte is below 128, and
      `None` (the `UnicodeDecodeError`) otherwise. */
  function DecodeStrict(data: seq<byte>): (r: Option<string>)
    ensures r.Some? <==> forall k :: 0 <= k < |data| ==> data[k] < 128
    ensures r.Some? ==> |r.value| == |data|
    ensures r.Some? ==> forall k :: 0 <= k < |data| ==> r.value[k] as int == data[k]
  {
    if data == [] then Some([])
    else if data[0] >= 128 then None
    else match DecodeStrict(data[1..]) {
      case None => None
      case Some(rest) => Some([data[0] as char] + rest)
    }
  }

  /** `bytes.decode('ascii', errors='replace')`: each byte below 128 becomes
      the character with that code and each other byte one U+FFFD. */
  function DecodeReplace(data: seq<byte>): (s: string)
    ensures |s| == |data|
    ensures forall k :: 0 <= k < |data| ==>
      if data[k] < 128 then s[k] as int == data[k] else s[k] == Replacement
  {
    if data == [] then []
    else [if data[0] < 128 then data[0] as char else Replacement] + DecodeReplace(data[1..])
  }

  /** The text both panes show in ASCII mode: the strict decode when it
      succeeds, the replacing decode otherwise. One character per byte. */
  function AsciiText(data: seq<byte>): (s: string)
    ensures |s| == |data|
    ensures forall k :: 0 <= k < |data| ==>
      if data[k] < 128 then s[k] as int == data[k] else s[k] == Replacement
  {
    match DecodeStrict(data) {
      case Some(text) => text
      case None => DecodeReplace(data)
    }
  }

  /** Both branches of the rendering agree: falling back to the replacing
      decode only matters for bytes the strict decode rejects. */
  lemma StrictAgreesWithReplace(data: seq<byte>)
    ensures DecodeStrict(data).Some? ==> DecodeStrict(data).value == DecodeReplace(data)
    ensures AsciiText(data) == DecodeReplace(data)
  {
  }

  /** The rendering of a slice is the slice of the rendering. */
  lemma AsciiTextSlice(data: seq<byte>, i: nat, j: nat)
    requires i <= j <= |data|
    ensures AsciiText(data)[i..j] == AsciiText(data[i..j])
  {
  }

  /** The UTF-8 encoding of one Unicode scalar value (1 to 4 bytes). */
  function EncodeChar(c: char): (r: seq<byte>)
    ensures 1 <= |r| <= 4
    ensures |r| == 1 <==> c as int < 0x80
    ensures |r| == 1 ==> r[0] == c as int
    ensures |r| == 2 ==> 0xC0 <= r[0] < 0xE0
    ensures |r| == 3 ==> 0xE0 <= r[0] < 0xF0
    ensures |r| == 4 ==> 0xF0 <= r[0] < 0xF8
    ensures forall k :: 1 <= k < |r| ==> 0x80 <= r[k] < 0xC0
  {
    var n := c as int;
    if n < 0x80 then [n]
    else if n < 0x800 then [0xC0 + n / 64, 0x80 + n % 64]
    else if n < 0x1_0000 then [0xE0 + n / 4096, 0x80 + n / 64 % 64, 0x80 + n % 64]
    else [0xF0 + n / 262144, 0x80 + n / 4096 % 64, 0x80 + n / 64 % 64, 0x80 + n % 64]
  }

  /** The code point a well-formed 1- to 4-byte UTF-8 sequence denotes. */
  function DecodeChar(b: seq<byte>): int
    requires 1 <= |b| <= 4
  {
    var b0, c1 := b[0] as int, if |b| > 1 then b[1] as int - 0x80 else 0;
    var c2, c3 := if |b| > 2 then b[2] as int - 0x80 else 0, if |b| > 3 then b[3] as int - 0x80 else 0;
    if |b| == 1 then b0
    else if |b| == 2 then (b0 - 0xC0) * 64 + c1
    else if |b| == 3 then ((b0 - 0xE0) * 64 + c1) * 64 + c2
    else (((b0 - 0xF0) * 64 + c1) * 64 + c2) * 64 + c3
  }

  /** The encoding of a character decodes back to it, and uses the shortest
      form: 2 bytes from U+0080, 3 from U+0800, 4 from U+10000. */
  lemma EncodeCharRoundTrip(c: char)
    ensures DecodeChar(EncodeChar(c)) == c as int
    ensures |EncodeChar(c)| == (if c as int < 0x80 then 1 else if c as int < 0x800 then 2
                                else if c as int < 0x1_0000 then 3 else 4)
  {
    var n := c as int;
    if n >= 0x1_0000 {
      var q := n / 64;
      assert n == q * 64 + n % 64;
      assert q == (q / 64) * 64 + q % 64;
      assert n / 4096 == q / 64;
      var q2 := q / 64;
      assert q2 == (q2 / 64) * 64 + q2 % 64;
      assert n / 262144 == q2 / 64;
    } else if n >= 0x800 {
      var q := n / 64;
      assert n == q * 64 + n % 64;
      assert q == (q / 64) * 64 + q % 64;
      assert n / 4096 == q / 64;
    }
  }

  /** Python's `str.encode()`: the UTF-8 bytes of a string. */
  function Utf8Encode(s: string): (r: seq<byte>)
    ensures |r| >= |s|
    ensures |r| == |s| <==> IsAscii(s)
  {
    if s == [] then [] else EncodeChar(s[0]) + Utf8Encode(s[1..])
  }

  /** ASCII text encodes byte for byte. */
  lemma {:induction false} AsciiEncoding(s: string)
    requires IsAscii(s)
    ensures |Utf8Encode(s)| == |s|
    ensures forall k :: 0 <= k < |s| ==> Utf8Encode(s)[k] == s[k] as int
  {
    if s != [] {
      AsciiEncoding(s[1..]);
    }
  }

  /** Encoding ASCII text and rendering it in ASCII mode gives the text back. */
  lemma AsciiRoundTrip(s: string)
    requires IsAscii(s)
    ensures AsciiText(Utf8Encode(s)) == s
  {
    AsciiEncoding(s);
  }

  /** A buffer whose bytes are all below 128 renders as text that encodes
      back to the same buffer. */
  lemma AsciiBytesRoundTrip(data: seq<byte>)
    requires forall k :: 0 <= k < |data| ==> data[k] < 128
    ensures IsAscii(AsciiText(data)) && Utf8Encode(AsciiText(data)) == data
  {
    AsciiEncoding(AsciiText(data));
  }
}
