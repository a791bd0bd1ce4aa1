/**
  Chunk sizes as numbers.  The digits are given by two strings, a printer writes a size with
  them, and whatever is chunked with printed sizes decodes to its data; nothing here is stated
  by means of the decoder's own table of digits.
 */
module HexSize {
  import opened Bytes
  import opened ChunkedAutomaton
  import opened ChunkedGrammar

  const LOWER: string := "0123456789abcdef"
  const UPPER: string := "0123456789ABCDEF"

  /** The digit of value `k`. */
  function HexByte(k: nat, upper: bool): Byte
    requires k < 16
  {
    var c: char := if upper then UPPER[k] else LOWER[k];
    assert c as int < 256;
    c as int
  }

  /** Each digit has the value of its place in the strings. */
  lemma DigitValues(k: nat, upper: bool)
    requires k < 16
    ensures DecodeHex(HexByte(k, upper)) == k
  {
  }

  /** No other byte is a digit. */
  lemma OnlyDigits(b: Byte)
    ensures DecodeHex(b) != -1 <==> exists k, upper :: 0 <= k < 16 && b == HexByte(k, upper)
  {
    if DecodeHex(b) != -1 {
      var k := DecodeHex(b);
      assert b == HexByte(k, false) || b == HexByte(k, true);
    }
    forall k, upper | 0 <= k < 16 && b == HexByte(k, upper) ensures DecodeHex(b) != -1 {
      DigitValues(k, upper);
    }
  }

  /** A number in hexadecimal, without leading zeros. */
  function Hex(n: nat, upper: bool): (s: seq<Byte>)
    ensures s != []
  {
    (if n < 16 then [] else Hex(n / 16, upper)) + [HexByte(n % 16, upper)]
  }

  /** A printed number reads as that number. */
  lemma {:induction false} HexReads(n: nat, upper: bool)
    ensures AllBytes(Hex(n, upper), IsHex) && HexValue(Hex(n, upper)) == n
    decreases n
  {
    hide DecodeHex, HexByte;
    var s, d := Hex(n, upper), HexByte(n % 16, upper);
    var front := if n < 16 then [] else Hex(n / 16, upper);
    DigitValues(n % 16, upper);
    if n >= 16 { HexReads(n / 16, upper); }
    assert s == front + [d] && s[..|s| - 1] == front;
    assert HexValue(front) == n / 16;
    assert n == 16 * (n / 16) + n % 16;
  }

  lemma {:induction false} HexIsShort(n: nat, upper: bool, digits: nat)
    requires digits > 0 && n < Pow16(digits)
    ensures |Hex(n, upper)| <= digits
    decreases digits
  {
    hide HexByte;
    if n >= 16 {
      assert Pow16(digits) == 16 * Pow16(digits - 1) && n / 16 < Pow16(digits - 1);
      assert digits > 1 by { assert Pow16(1) == 16; }
      HexIsShort(n / 16, upper, digits - 1);
    }
  }

  lemma SixteenDigits()
    ensures Pow16(16) == 0x1_0000_0000_0000_0000
  {
    assert Pow16(4) == 0x1_0000;
    assert Pow16(8) == 0x1_0000_0000;
    assert Pow16(12) == 0x1_0000_0000_0000;
  }

  /** Pieces of data, each as a chunk of section 4.1 of RFC 7230 without extension, before `rest`. */
  function Chunked(datas: seq<seq<Byte>>, upper: bool, rest: seq<Byte>): seq<Byte> {
    if datas == [] then rest
    else Hex(|datas[0]|, upper) + [13, 10] + datas[0] + [13, 10] + Chunked(datas[1..], upper, rest)
  }

  /** The chunks the pieces are. */
  function Pieces(datas: seq<seq<Byte>>, upper: bool): seq<Chunk> {
    if datas == [] then []
    else [StrictChunk(Hex(|datas[0]|, upper), [], datas[0])] + Pieces(datas[1..], upper)
  }

  lemma {:induction false} ChunkedIsEncoded(datas: seq<seq<Byte>>, upper: bool, rest: seq<Byte>)
    requires forall d <- datas :: 0 < |d| < 0x1_0000_0000_0000_0000
    ensures forall ch <- Pieces(datas, upper) :: LegalChunk(ch)
    ensures EncodeChunks(Pieces(datas, upper), rest) == Chunked(datas, upper, rest)
    ensures Payload(Pieces(datas, upper)) == Flatten(datas)
    decreases |datas|
  {
    hide LegalChunk, EncodeChunk, StrictChunk, Hex, HexValue, Pow16;
    if datas != [] {
      var digits, tail := Hex(|datas[0]|, upper), datas[1..];
      ChunkedIsEncoded(tail, upper, rest);
      HexReads(|datas[0]|, upper);
      SixteenDigits();
      HexIsShort(|datas[0]|, upper, 16);
      StrictChunkIsLegal(digits, [], datas[0], Chunked(tail, upper, rest));
      assert digits + [] == digits;
      var chunks := Pieces(datas, upper);
      assert chunks[0] == StrictChunk(digits, [], datas[0]) && chunks[1..] == Pieces(tail, upper);
      StrictChunkHolds(digits, datas[0]);
    }
  }

  lemma StrictChunkHolds(digits: seq<Byte>, data: seq<Byte>)
    ensures StrictChunk(digits, [], data).data == data
  {
  }

  /**
    Any data, cut into pieces of less than 2^64 bytes, chunked with printed sizes in either
    case and ended by a chunk of size 0, decodes to that data; what follows is left.
   */
  lemma PrintedSizesDecode(datas: seq<seq<Byte>>, upper: bool, consumeTrailer: bool, rest: seq<Byte>)
    requires forall d <- datas :: 0 < |d| < 0x1_0000_0000_0000_0000
    ensures var end := [48, 13, 10] + (if consumeTrailer then [13, 10] + rest else rest);
            var s := Chunked(datas, upper, end);
            var r := Feed(Start(consumeTrailer), s);
            r.outcome == Complete && r.out == Flatten(datas) && s[r.used..] == rest
  {
    hide Feed, EncodeChunks, EncodeSize, EncodeTrailer, Chunked, LegalSize, LegalChunk, Pieces, Payload;
    var tail := if consumeTrailer then [13, 10] + rest else rest;
    var m := Message(Pieces(datas, upper), [48], [13], Trailer([], 1));
    ChunkedIsEncoded(datas, upper, [48, 13, 10] + tail);
    LastChunkIsLegal();
    EndIsEncoded(rest, tail);
    DecodeEncode(m, consumeTrailer, rest);
  }

  lemma EndIsEncoded(rest: seq<Byte>, tail: seq<Byte>)
    ensures EncodeTrailer(Trailer([], 1), rest) == [13, 10] + rest
    ensures EncodeSize([48], [13], tail) == [48, 13, 10] + tail
  {
    assert Crs(1) == [13];
    assert Crs(1) + ([LF] + rest) == [13, 10] + rest;
    assert [13] + ([LF] + tail) == [13, 10] + tail;
  }

  lemma LastChunkIsLegal()
    ensures LegalSize([48], [13], 0)
  {
    var zero: seq<Byte> := [48];
    assert zero[..0] == [] && HexValue([]) == 0;
    assert DecodeHex(48) == 0;
  }

  /** Seventeen digits are too many, whatever they are. */
  lemma TooManyDigits(digits: seq<Byte>, consumeTrailer: bool, rest: seq<Byte>)
    requires |digits| == 17 && forall k :: 0 <= k < 17 ==> exists j, upper :: 0 <= j < 16 && digits[k] == HexByte(j, upper)
    ensures Feed(Start(consumeTrailer), digits + rest).outcome == Failed
  {
    hide HexByte, Feed;
    forall k | 0 <= k < 17 ensures IsHex(digits[k]) { OnlyDigits(digits[k]); }
    var first, last := digits[..16], digits[16];
    assert digits + rest == first + ([last] + rest);
    Digits([], first, consumeTrailer, [last] + rest);
    assert [] + first == first;
    ChunkedGrammar.Move(SizeConf(first, consumeTrailer), last, rest);
    LeadsOutcome(Start(consumeTrailer), digits + rest, [], SizeConf(first, consumeTrailer), [last] + rest);
  }
}
