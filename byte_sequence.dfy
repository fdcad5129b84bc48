/** The decoder that tells how many bytes of a string form its first
    character and how that character is displayed (`byteSequenceRepresentation`). */
module ByteSequence {
  import opened Machine

  const SINGLE_QUOTE: Byte := 0x27
  const DOUBLE_QUOTE: Byte := 0x22

  /** What decoding the first character of a string gives: the pair
      (charDisplay, bytesRead) the source returns, or the Go runtime panic
      raised by `subs[0]` on an empty string or by `subs[:n]` when fewer
      than n bytes remain. */
  datatype Decoded = Char(glyph: seq<Byte>, bytesRead: nat) | IndexPanic

  /** A UTF-8 continuation byte, 10xxxxxx in RFC 3629 section 3. */
  predicate IsContinuation(b: Byte) {
    b / 64 == 2
  }

  /** The number of bytes the decoder takes for a character whose first byte
      is `b`, by leading-byte range; 0 for a continuation byte. */
  function LeadWidth(b: Byte): (n: nat)
    ensures n <= 4
    ensures n == 0 <==> 0x80 <= b < 0xC0
  {
    if b < 0x80 then 1
    else if 0xC0 <= b < 0xE0 then 2
    else if 0xE0 <= b < 0xF0 then 3
    else if b >= 0xF0 then 4
    else 0
  }

  /** Set against the bit patterns of RFC 3629 section 3, the leading-byte
      ranges agree on every lead byte and on the continuation bytes, and also
      take 0xF8..0xFF, which UTF-8 never uses, as 4-byte leads. */
  lemma LeadWidthFollowsRfc3629(b: Byte)
    ensures LeadWidth(b) == 0 <==> IsContinuation(b)
    ensures LeadWidth(b) == 1 <==> b / 128 == 0      // 0xxxxxxx
    ensures LeadWidth(b) == 2 <==> b / 32 == 6       // 110xxxxx
    ensures LeadWidth(b) == 3 <==> b / 16 == 14      // 1110xxxx
    ensures LeadWidth(b) == 4 <==> b / 8 == 30 || b >= 0xF8  // 11110xxx, and bytes UTF-8 never uses
  {
  }

  /** The bytes between the quote marks of a displayed glyph. */
  function Unquote(glyph: seq<Byte>): seq<Byte> {
    if |glyph| >= 2 then glyph[1..|glyph| - 1] else []
  }

  /** The first character of `subs`, quoted for display: a single byte in
      single quotes, a multi-byte sequence in double quotes. */
  function ByteSequenceRepresentation(subs: seq<Byte>): (d: Decoded)
    ensures d.IndexPanic? <==> |subs| == 0 || |subs| < LeadWidth(subs[0])
    ensures d.Char? ==> d.bytesRead == LeadWidth(subs[0]) && d.bytesRead <= |subs|
  {
    if |subs| == 0 then IndexPanic
    else
      var b := subs[0];
      if b < 0x80 then Char([SINGLE_QUOTE, b, SINGLE_QUOTE], 1)
      else if 0xC0 <= b < 0xE0 then DoubleQuoted(subs, 2)
      else if 0xE0 <= b < 0xF0 then DoubleQuoted(subs, 3)
      else if b >= 0xF0 then DoubleQuoted(subs, 4)
      else Char([], 0)
  }

  /** `"` + subs[:n] + `"`, or the slice-bounds panic when fewer than n bytes remain. */
  function DoubleQuoted(subs: seq<Byte>, n: nat): (d: Decoded)
    ensures d.IndexPanic? <==> |subs| < n
    ensures d.Char? ==> d.bytesRead == n && |d.glyph| == n + 2
  {
    if |subs| < n then IndexPanic else Char([DOUBLE_QUOTE] + subs[..n] + [DOUBLE_QUOTE], n)
  }

  /** The glyph quotes exactly the bytes read: a single byte in single
      quotes, two to four bytes in double quotes, and nothing at all for a
      continuation byte. */
  lemma RepresentationQuotesBytes(subs: seq<Byte>)
    requires ByteSequenceRepresentation(subs).Char?
    ensures var d := ByteSequenceRepresentation(subs);
      (d.bytesRead > 0 ==> Unquote(d.glyph) == subs[..d.bytesRead]) &&
      (d.bytesRead == 1 ==> d.glyph[0] == d.glyph[2] == SINGLE_QUOTE) &&
      (d.bytesRead > 1 ==> d.glyph[0] == d.glyph[|d.glyph| - 1] == DOUBLE_QUOTE) &&
      (d.bytesRead == 0 ==> d.glyph == []) &&
      (|d.glyph| == 3 <==> d.bytesRead == 1)
  {
  }
}
