/** Hex text as both source files handle it: one leading "0x" is dropped,
    the rest is cut by the regular expression /.{1,2}/g into chunks of two
    characters (the last one shorter when the length is odd), and every chunk
    is read by parseInt(chunk, 16). Also the form in which a `bytes` value comes
    back from the contract: "0x" followed by two lower-case digits per byte. */
module Hex {
  import opened Wrappers
  import opened Bytes

  /** The characters parseInt(_, 16) reads as digits. */
  predicate IsHexDigit(c: char) {
    '0' <= c <= '9' || 'a' <= c <= 'f' || 'A' <= c <= 'F'
  }

  predicate IsHexText(h: string) {
    forall i :: 0 <= i < |h| ==> IsHexDigit(h[i])
  }

  function DigitValue(c: char): (d: nat)
    requires IsHexDigit(c)
    ensures d < 16
  {
    if '0' <= c <= '9' then c as int - '0' as int
    else if 'a' <= c <= 'f' then c as int - 'a' as int + 10
    else c as int - 'A' as int + 10
  }

  /** The lower-case digit for 0 <= d < 16. */
  function DigitChar(d: nat): (c: char)
    requires d < 16
    ensures IsHexDigit(c) && DigitValue(c) == d
  {
    "0123456789abcdef"[d]
  }

  /** A `startsWith` test for "0x" followed by `slice(2)` on success: at most
      one prefix is removed. */
  function StripPrefix(s: string): (h: string)
    ensures |s| >= 2 && s[..2] == "0x" ==> h == s[2..]
    ensures !(|s| >= 2 && s[..2] == "0x") ==> h == s
  {
    if |s| >= 2 && s[..2] == "0x" then s[2..] else s
  }

  /** parseInt(chunk, 16) for chunk i of the /.{1,2}/g match: digits 2i and
      2i+1, high digit first, or digit 2i alone when it is the last one. */
  function ChunkValue(h: string, i: nat): (b: byte)
    requires IsHexText(h) && 2 * i < |h|
  {
    if 2 * i + 1 < |h| then 16 * DigitValue(h[2 * i]) + DigitValue(h[2 * i + 1])
    else DigitValue(h[2 * i])
  }

  /** A chunk's byte has the chunk's digits as its base-16 digits: a full pair
      gives the high and the low digit, a lone last digit gives a byte below 16. */
  lemma ChunkValueDigits(h: string, i: nat)
    requires IsHexText(h) && 2 * i < |h|
    ensures 2 * i + 1 == |h| ==> ChunkValue(h, i) == DigitValue(h[2 * i]) < 16
    ensures 2 * i + 1 < |h| ==>
      ChunkValue(h, i) / 16 == DigitValue(h[2 * i]) && ChunkValue(h, i) % 16 == DigitValue(h[2 * i + 1])
  {
  }

  /** The bytes obtained by matching /.{1,2}/g with `String.prototype.match`
      and reading every chunk with parseInt in base 16, for non-empty hex
      text (the match itself is null on the empty string): one per chunk,
      so half the digits, rounded up. */
  function ParseChunks(h: string): (r: seq<byte>)
    requires IsHexText(h)
    ensures |r| == (|h| + 1) / 2
  {
    seq((|h| + 1) / 2, i requires 0 <= i < (|h| + 1) / 2 => ChunkValue(h, i))
  }

  /** In order, every full pair of digits becomes one byte, high digit first,
      and an odd last digit becomes a byte of its own. */
  lemma ParseChunksPairs(h: string)
    requires IsHexText(h)
    ensures forall i :: 0 <= i < |h| / 2 ==>
      ParseChunks(h)[i] == 16 * DigitValue(h[2 * i]) + DigitValue(h[2 * i + 1])
    ensures |h| % 2 == 1 ==> ParseChunks(h)[|h| / 2] == DigitValue(h[|h| - 1])
  {
  }

  /** The regular-expression match followed by the chunk parse: None where
      `match` returns null, i.e. on the empty string. */
  function ParseHex(h: string): (r: Option<seq<byte>>)
    requires IsHexText(h)
    ensures r.None? <==> h == ""
    ensures r.Some? ==> |r.value| == (|h| + 1) / 2
  {
    if h == "" then None else Some(ParseChunks(h))
  }

  /** Two lower-case hex digits per byte, most significant digit first. */
  function ToHex(b: seq<byte>): (h: string)
    ensures |h| == 2 * |b| && IsHexText(h)
  {
    if b == [] then "" else [DigitChar(b[0] / 16), DigitChar(b[0] % 16)] + ToHex(b[1..])
  }

  /** The "0x"-prefixed hex string of a byte string, the form a `bytes` value
      takes when read back from the contract. */
  function WireHex(b: seq<byte>): (s: string)
    ensures |s| == 2 + 2 * |b|
    ensures StripPrefix(s) == ToHex(b) && IsHexText(StripPrefix(s))
  {
    var s := "0x" + ToHex(b);
    assert s[..2] == "0x" && s[2..] == ToHex(b);
    s
  }

  /** The two digits ToHex writes for a byte spell that byte again. */
  lemma ByteDigits(x: byte)
    ensures 16 * DigitValue(DigitChar(x / 16)) + DigitValue(DigitChar(x % 16)) == x
  {
  }

  /** Digits 2i and 2i+1 of the hex form are the high and low digit of byte i. */
  lemma {:induction false} ToHexAt(b: seq<byte>, i: nat)
    requires i < |b|
    ensures ToHex(b)[2 * i] == DigitChar(b[i] / 16) && ToHex(b)[2 * i + 1] == DigitChar(b[i] % 16)
  {
    if i > 0 {
      ToHexAt(b[1..], i - 1);
    }
  }

  /** Parsing the hex form of a byte string gives the byte string back. */
  lemma ParseChunksToHex(b: seq<byte>)
    ensures ParseChunks(ToHex(b)) == b
  {
    var r := ParseChunks(ToHex(b));
    forall i | 0 <= i < |b|
      ensures r[i] == b[i]
    {
      ToHexAt(b, i);
      ByteDigits(b[i]);
    }
  }

  /** What the regular-expression parse makes of the wire form of a
      non-empty byte string is that byte string. */
  lemma ParseHexWireHex(b: seq<byte>)
    requires b != []
    ensures ParseHex(StripPrefix(WireHex(b))) == Some(b)
  {
    ParseChunksToHex(b);
  }
}
