/** Bytes, the character classes the parsers use, and a few sequence helpers. */
module Bytes {

  type Byte = b: int | 0 <= b < 256

  const HT: Byte := 9
  const LF: Byte := 10
  const CR: Byte := 13
  const SP: Byte := 32
  const COLON: Byte := 58
  const DEL: Byte := 127

  predicate IsDigit(b: Byte) { 48 <= b <= 57 }

  predicate IsAlpha(b: Byte) { 65 <= b <= 90 || 97 <= b <= 122 }

  /** The characters that trailing and leading white space of a field may consist of. */
  predicate IsBlank(b: Byte) { b == SP || b == HT }

  /** tchar of section 3.2.6 of RFC 7230. */
  predicate IsTchar(b: Byte) {
    || IsDigit(b) || IsAlpha(b)
    || b in {33, 35, 36, 37, 38, 39, 42, 43, 45, 46, 94, 95, 96, 124, 126}
  }

  /** A byte that may stand inside a header value or a status message. */
  predicate IsText(b: Byte) { (b >= 32 && b != DEL) || b == HT }

  /** A byte that may stand inside a request target. */
  predicate IsTargetByte(b: Byte) { b > 32 && b != DEL }

  ghost predicate AllBytes(s: seq<Byte>, p: Byte -> bool) {
    forall k :: 0 <= k < |s| ==> p(s[k])
  }

  function Flatten<T>(parts: seq<seq<T>>): seq<T> {
    if parts == [] then [] else parts[0] + Flatten(parts[1..])
  }

  /** Length of the longest prefix of bytes with property `p`. */
  function Lead(s: seq<Byte>, p: Byte -> bool): (k: nat)
    ensures k <= |s| && (forall i :: 0 <= i < k ==> p(s[i])) && (k < |s| ==> !p(s[k]))
  {
    if s == [] || !p(s[0]) then 0 else 1 + Lead(s[1..], p)
  }

  /** The classes on the numbers of the codes. */
  lemma ClassesOnNumbers(b: Byte)
    ensures IsBlank(b) <==> b == 9 || b == 32
    ensures IsText(b) <==> b == 9 || 32 <= b <= 126 || 128 <= b <= 255
    ensures IsTargetByte(b) <==> 33 <= b <= 126 || 128 <= b <= 255
    ensures IsDigit(b) <==> exists k :: 0 <= k < 10 && b as int == "0123456789"[k] as int
  {
    if IsDigit(b) {
      var k := b - 48;
      assert b as int == "0123456789"[k] as int;
    }
  }
}
