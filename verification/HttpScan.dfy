/**
  The scanning loops of the HTTP parser with their fast paths: a prescan by 16-byte blocks
  where the SSE4.2 instructions are available, an unrolled scan where they are not.  In both
  builds they compute the plain scans of the grammar.
 */
module HttpScan {
  import opened Bytes
  import opened HttpGrammar

  /** An inclusive range of bytes, as the block search takes them. */
  type Range = (Byte, Byte)

  ghost predicate InRanges(b: Byte, ranges: seq<Range>) {
    exists k :: 0 <= k < |ranges| && ranges[k].0 <= b <= ranges[k].1
  }

  const TOKEN_RANGES: seq<Range> :=
    [(0, 32), (34, 34), (40, 41), (44, 44), (47, 47), (58, 64), (91, 93), (123, 255)]

  const EOL_RANGES: seq<Range> := [(0, 8), (10, 31), (127, 127)]

  const TARGET_RANGES: seq<Range> := [(0, 32), (127, 127)]

  /** The rows of the token table for the codes 32 to 63, 64 to 95 and 96 to 127. */
  const TOKEN_ROW_1: string := "01011111001101101111111111000000"
  const TOKEN_ROW_2: string := "01111111111111111111111111100011"
  const TOKEN_ROW_3: string := "11111111111111111111111111101010"

  predicate TokenCharMap(b: Byte) {
    var code: int := b;
    if 32 <= code < 64 then TOKEN_ROW_1[code - 32] == '1'
    else if 64 <= code < 96 then TOKEN_ROW_2[code - 64] == '1'
    else if 96 <= code < 128 then TOKEN_ROW_3[code - 96] == '1'
    else false
  }

  /** The table is exactly tchar of section 3.2.6 of RFC 7230. */
  lemma TokenCharMapIsTchar(b: Byte)
    ensures TokenCharMap(b) <==> IsTchar(b)
  {
  }

  /** Bytes the prescan for a token may skip are token characters, and do not end the token. */
  lemma OutsideTokenRanges(b: Byte)
    requires !InRanges(b, TOKEN_RANGES)
    ensures IsTchar(b) && b != COLON && b != SP
  {
    assert TOKEN_RANGES[0] == (0, 32) && TOKEN_RANGES[1] == (34, 34) && TOKEN_RANGES[2] == (40, 41)
        && TOKEN_RANGES[3] == (44, 44) && TOKEN_RANGES[4] == (47, 47) && TOKEN_RANGES[5] == (58, 64)
        && TOKEN_RANGES[6] == (91, 93) && TOKEN_RANGES[7] == (123, 255);
  }

  lemma OutsideTargetRanges(b: Byte)
    requires !InRanges(b, TARGET_RANGES)
    ensures IsTargetByte(b)
  {
    assert TARGET_RANGES[0] == (0, 32) && TARGET_RANGES[1] == (127, 127);
  }

  /** The ranges of the end-of-line search are exactly the bytes that are no text. */
  lemma EolRangesAreControls(b: Byte)
    ensures InRanges(b, EOL_RANGES) <==> !IsText(b)
  {
    assert EOL_RANGES[0] == (0, 8) && EOL_RANGES[1] == (10, 31) && EOL_RANGES[2] == (127, 127);
  }

  /** 32 to 126: one unsigned comparison in the original. */
  predicate IsPrintableAscii(b: Byte) {
    var code: int := b;
    (code - 32) % 256 < 95
  }

  /** What the block instruction returns: the index of the first byte in the ranges, or 16. */
  method FirstInRanges(s: seq<Byte>, i: nat, ranges: seq<Range>) returns (r: nat)
    requires i + 16 <= |s|
    ensures r <= 16 && forall k :: i <= k < i + r ==> !InRanges(s[k], ranges)
    ensures r < 16 ==> InRanges(s[i + r], ranges)
  {
    r := 0;
    while r < 16
      invariant r <= 16 && forall k :: i <= k < i + r ==> !InRanges(s[k], ranges)
    {
      var hit := exists k :: 0 <= k < |ranges| && ranges[k].0 <= s[i + r] <= ranges[k].1;
      if hit {
        return;
      }
      r := r + 1;
    }
  }

  /** The prescan: skips whole blocks up to the first byte in the ranges; a no-op without SSE4.2. */
  method FindCharFast(sse: bool, s: seq<Byte>, i: nat, ranges: seq<Range>) returns (pos: nat, found: bool)
    requires i <= |s|
    ensures i <= pos <= |s| && forall k :: i <= k < pos ==> !InRanges(s[k], ranges)
    ensures found ==> pos < |s| && InRanges(s[pos], ranges)
    ensures !found ==> if sse then |s| - pos < 16 else pos == i
  {
    pos, found := i, false;
    if sse && |s| - i >= 16 {
      var left := (|s| - i) / 16 * 16;
      while left != 0
        invariant 0 <= left && i <= pos && pos + left <= |s| && |s| - pos - left < 16 && left % 16 == 0
        invariant forall k :: i <= k < pos ==> !InRanges(s[k], ranges)
        decreases left
      {
        var r := FirstInRanges(s, pos, ranges);
        if r != 16 {
          return pos + r, true;
        }
        pos, left := pos + 16, left - 16;
      }
    }
  }

  method ParseToken(sse: bool, s: seq<Byte>, i: nat, stop: Byte) returns (r: Parse<()>, token: Slice)
    requires i <= |s| && (stop == COLON || stop == SP)
    ensures r == ScanToken(s, i, stop)
    ensures r.Ok? ==> token == Slice(i, r.pos - i)
  {
    token := Slice(i, 0);
    var pos, found := FindCharFast(sse, s, i, TOKEN_RANGES);
    forall k | i <= k < pos ensures IsTchar(s[k]) && s[k] != stop {
      OutsideTokenRanges(s[k]);
    }
    TokenSkip(s, i, pos, stop);
    if !found {
      if pos == |s| { return Partial, token; }
    }
    while true
      invariant i <= pos < |s| && ScanToken(s, i, stop) == ScanToken(s, pos, stop)
      decreases |s| - pos
    {
      TokenCharMapIsTchar(s[pos]);
      if s[pos] == stop {
        break;
      } else if !TokenCharMap(s[pos]) {
        return Failed, token;
      }
      pos := pos + 1;
      if pos == |s| { return Partial, token; }
    }
    r, token := Ok(pos, ()), Slice(i, pos - i);
  }

  method AdvanceToken(sse: bool, s: seq<Byte>, i: nat) returns (r: Parse<()>, token: Slice)
    requires i <= |s|
    ensures r == ScanTarget(s, i)
    ensures r.Ok? ==> token == Slice(i, r.pos - i)
  {
    token := Slice(i, 0);
    var pos, found := FindCharFast(sse, s, i, TARGET_RANGES);
    forall k | i <= k < pos ensures IsTargetByte(s[k]) {
      OutsideTargetRanges(s[k]);
    }
    TargetSkip(s, i, pos);
    if !found {
      if pos == |s| { return Partial, token; }
    }
    while true
      invariant i <= pos < |s| && ScanTarget(s, i) == ScanTarget(s, pos)
      decreases |s| - pos
    {
      if s[pos] == SP {
        break;
      } else if !IsPrintableAscii(s[pos]) {
        if s[pos] < SP || s[pos] == DEL { return Failed, token; }
      }
      pos := pos + 1;
      if pos == |s| { return Partial, token; }
    }
    r, token := Ok(pos, ()), Slice(i, pos - i);
  }

  /** Whether a byte that is not printable ASCII ends the text. */
  predicate IsFoundCtl(b: Byte) {
    (b < SP && b != HT) || b == DEL
  }

  /** The unrolled scan of the build without SSE4.2: eight bytes a turn, while there are eight. */
  method ScanByEight(s: seq<Byte>, i: nat) returns (pos: nat, foundCtl: bool)
    requires i <= |s|
    ensures i <= pos <= |s| && forall k :: i <= k < pos ==> IsText(s[k])
    ensures foundCtl ==> pos < |s| && !IsText(s[pos])
  {
    pos, foundCtl := i, false;
    while |s| - pos >= 8
      invariant i <= pos <= |s| && forall k :: i <= k < pos ==> IsText(s[k])
      decreases |s| - pos
    {
      var printable, start := 0, pos;
      while printable < 8 && IsPrintableAscii(s[pos])
        invariant 0 <= printable <= 8 && pos == start + printable <= |s|
        invariant forall k :: i <= k < pos ==> IsText(s[k])
        decreases 8 - printable
      {
        pos, printable := pos + 1, printable + 1;
      }
      if printable < 8 {
        if IsFoundCtl(s[pos]) { return pos, true; }
        pos := pos + 1;
      }
    }
  }

  method GetTokenToEol(sse: bool, s: seq<Byte>, i: nat) returns (r: Parse<nat>, token: Slice)
    requires i <= |s|
    ensures r == ScanEol(s, i)
    ensures r.Ok? ==> token == Slice(i, r.val - i)
  {
    hide ScanEol, InRanges;
    token := Slice(i, 0);
    var pos, foundCtl;
    if sse {
      pos, foundCtl := FindCharFast(sse, s, i, EOL_RANGES);
      forall k | i <= k < |s| ensures InRanges(s[k], EOL_RANGES) <==> !IsText(s[k]) {
        EolRangesAreControls(s[k]);
      }
    } else {
      pos, foundCtl := ScanByEight(s, i);
    }
    if !foundCtl {
      while true
        invariant i <= pos <= |s| && forall k :: i <= k < pos ==> IsText(s[k])
        decreases |s| - pos
      {
        EolSkip(s, i, pos);
        if pos == |s| { return Partial, token; }
        if !IsPrintableAscii(s[pos]) {
          if IsFoundCtl(s[pos]) { break; }
        }
        pos := pos + 1;
      }
    }
    EolSkip(s, i, pos);
    r, token := EndToken(s, i, pos);
  }

  /** The token from `i` ends at the control character at `pos`, which must begin a line end. */
  method EndToken(s: seq<Byte>, i: nat, ctl: nat) returns (r: Parse<nat>, token: Slice)
    requires i <= ctl < |s| && !IsText(s[ctl])
    ensures r == ScanEol(s, ctl)
    ensures r.Ok? ==> token == Slice(i, r.val - i)
  {
    token := Slice(i, 0);
    var pos := ctl;
    if s[pos] == CR {
      pos := pos + 1;
      if pos == |s| { return Partial, token; }
      if s[pos] != LF { return Failed, token; }
      pos := pos + 1;
      token := Slice(i, pos - 2 - i);
    } else if s[pos] == LF {
      token := Slice(i, pos - i);
      pos := pos + 1;
    } else {
      return Failed, token;
    }
    r := Ok(pos, token.End());
  }

  /** The completeness test as a loop. */
  method CheckComplete(s: seq<Byte>, lastLen: nat) returns (r: Parse<()>)
    requires lastLen <= |s|
    ensures r == IsComplete(s, lastLen)
  {
    var retCnt := 0;
    var pos := if lastLen < 3 then 0 else lastLen - 3;
    while true
      invariant pos <= |s| && 0 <= retCnt <= 1
      invariant IsComplete(s, lastLen) == FindBlankLine(s, pos, retCnt)
      decreases |s| - pos
    {
      if pos == |s| { return Partial; }
      if s[pos] == CR {
        pos := pos + 1;
        if pos == |s| { return Partial; }
        if s[pos] != LF { return Failed; }
        pos, retCnt := pos + 1, retCnt + 1;
      } else if s[pos] == LF {
        pos, retCnt := pos + 1, retCnt + 1;
      } else {
        pos, retCnt := pos + 1, 0;
      }
      if retCnt == 2 { return Ok(pos, ()); }
    }
  }
}
