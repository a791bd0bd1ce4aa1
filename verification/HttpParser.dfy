/**
  The restartable parsers.  They advance an index over the buffer, fill the caller's header
  array in place and answer with the bytes consumed, -2 or -1; what they answer is the plain
  parse of the grammar, in either build (`sse`) and with the retry shortcut (`lastLen`).
 */
module HttpParser {
  import opened Bytes
  import opened HttpGrammar
  import opened HttpScan

  /** The integer the entry points return. */
  function Answer<T>(r: Parse<T>): int {
    match r
    case Ok(pos, _) => pos
    case Partial => -2
    case Failed => -1
  }

  /** The grammar's verdict with the value dropped, to compare verdicts of different types. */
  function Verdict<T>(r: Parse<T>): Parse<()> {
    match r
    case Ok(pos, _) => Ok(pos, ())
    case Partial => Partial
    case Failed => Failed
  }

  /** CR LF or LF at `i`; the macros EXPECT_CHAR and CHECK_EOF in a row. */
  method EatLineEnd(s: seq<Byte>, i: nat) returns (r: Parse<bool>)
    requires i < |s|
    ensures r == LineEnd(s, i)
  {
    var pos := i;
    if s[pos] == CR {
      pos := pos + 1;
      if pos == |s| { return Partial; }
      if s[pos] != LF { return Failed; }
      pos := pos + 1;
      return Ok(pos, true);
    } else if s[pos] == LF {
      pos := pos + 1;
      return Ok(pos, true);
    }
    r := Ok(pos, false);
  }

  method SkipSpacesLoop(s: seq<Byte>, i: nat) returns (r: Parse<()>)
    requires i < |s|
    ensures r == SkipSpaces(s, i + 1)
  {
    var pos := i + 1;
    while true
      invariant pos <= |s| && SkipSpaces(s, i + 1) == SkipSpaces(s, pos)
      decreases |s| - pos
    {
      if pos == |s| { return Partial; }
      if s[pos] != SP { break; }
      pos := pos + 1;
    }
    r := Ok(pos, ());
  }

  method ParseHttpVersion(s: seq<Byte>, i: nat) returns (r: Parse<nat>)
    requires i <= |s|
    ensures r == Version(s, i)
  {
    if |s| - i < 9 { return Partial; }
    ghost var p := s[i..i + 7];
    assert p[0] == s[i] && p[1] == s[i + 1] && p[2] == s[i + 2] && p[3] == s[i + 3]
        && p[4] == s[i + 4] && p[5] == s[i + 5] && p[6] == s[i + 6];
    if s[i] != 72 || s[i + 1] != 84 || s[i + 2] != 84 || s[i + 3] != 80
    || s[i + 4] != 47 || s[i + 5] != 49 || s[i + 6] != 46 {
      return Failed;
    }
    assert p == HTTP1;
    if s[i + 7] < 48 || 57 < s[i + 7] { return Failed; }
    r := Ok(i + 8, s[i + 7] - 48);
  }

  /** Drops trailing spaces and tabs from a value. */
  method TrimValue(s: seq<Byte>, value: Slice) returns (end: nat)
    requires value.End() <= |s|
    ensures end == TrimEnd(s, value.off, value.End())
  {
    end := value.End();
    while end != value.off
      invariant value.off <= end <= |s| && TrimEnd(s, value.off, value.End()) == TrimEnd(s, value.off, end)
    {
      if s[end - 1] != SP && s[end - 1] != HT { break; }
      end := end - 1;
    }
  }

  /** One header line, written to the record at `num`: first its name, then its value. */
  method ParseHeaderLine(sse: bool, s: seq<Byte>, i: nat, headers: array<Header>, num: nat) returns (r: Parse<()>)
    requires i < |s| && num < headers.Length
    modifies headers
    ensures r == Verdict(HeaderLine(s, i, num > 0))
    ensures r.Ok? ==> headers[num] == HeaderLine(s, i, num > 0).val
    ensures forall k :: 0 <= k < headers.Length && k != num ==> headers[k] == old(headers[k])
  {
    var pos := i;
    if !(num != 0 && (s[pos] == SP || s[pos] == HT)) {
      var t, name := ParseToken(sse, s, pos, COLON);
      if !t.Ok? { return Verdict(t); }
      headers[num] := headers[num].(name := Some(name));
      if name.len == 0 { return Failed; }
      pos := t.pos + 1;
      while true
        invariant pos <= |s| && SkipBlanks(s, t.pos + 1) == SkipBlanks(s, pos)
        decreases |s| - pos
      {
        if pos == |s| { return Partial; }
        if !(s[pos] == SP || s[pos] == HT) { break; }
        pos := pos + 1;
      }
    } else {
      headers[num] := headers[num].(name := None);
    }
    var e, value := GetTokenToEol(sse, s, pos);
    if !e.Ok? { return Verdict(e); }
    var end := TrimValue(s, value);
    headers[num] := headers[num].(value := Slice(value.off, end - value.off));
    r := Ok(e.pos, ());
  }

  /** A parse of the remaining headers, with the headers already read put in front. */
  ghost function Prepend(hs: seq<Header>, r: Parse<seq<Header>>): Parse<seq<Header>> {
    if r.Ok? then Ok(r.pos, hs + r.val) else r
  }

  lemma PrependNothing(r: Parse<seq<Header>>)
    ensures Prepend([], r) == r
  {
    if r.Ok? { assert [] + r.val == r.val; }
  }

  lemma PrependStep(s: seq<Byte>, i: nat, n: nat, max: nat, hs: seq<Header>)
    requires i < |s| && n < max && LineEnd(s, i) == Ok(i, false)
    ensures var l := HeaderLine(s, i, n > 0);
            if l.Ok? then
              Prepend(hs, Headers(s, i, n, max)) == Prepend(hs + [l.val], Headers(s, l.pos, n + 1, max))
            else Verdict(Headers(s, i, n, max)) == Verdict(l)
  {
    var l := HeaderLine(s, i, n > 0);
    if l.Ok? {
      var r := Headers(s, l.pos, n + 1, max);
      if r.Ok? { assert hs + ([l.val] + r.val) == (hs + [l.val]) + r.val; }
    }
  }

  method ParseHeaderBlock(sse: bool, s: seq<Byte>, i: nat, headers: array<Header>, max: nat)
    returns (r: Parse<()>, num: nat)
    requires i <= |s| && max <= headers.Length
    modifies headers
    ensures num <= max && r == Verdict(Headers(s, i, 0, max))
    ensures r.Ok? ==> headers[..num] == Headers(s, i, 0, max).val
    ensures r.Ok? ==> headers[num..] == old(headers[num..])
    ensures headers[max..] == old(headers[max..])
  {
    hide Headers, HeaderLine;
    num := 0;
    var pos := i;
    ghost var original := headers[..];
    PrependNothing(Headers(s, i, 0, max));
    assert headers[..0] == [];
    while true
      invariant pos <= |s| && num <= max
      invariant Headers(s, i, 0, max) == Prepend(headers[..num], Headers(s, pos, num, max))
      invariant forall k :: num <= k < headers.Length ==> headers[k] == original[k]
      decreases |s| - pos
    {
      HeadersHead(s, pos, num, max);
      if pos == |s| { return Partial, num; }
      var e := EatLineEnd(s, pos);
      if !e.Ok? { return Verdict(e), num; }
      if e.val {
        assert headers[..num] + [] == headers[..num];
        return Ok(e.pos, ()), num;
      }
      if num == max { return Failed, num; }
      PrependStep(s, pos, num, max, headers[..num]);
      ghost var before := headers[..num];
      r := ParseHeaderLine(sse, s, pos, headers, num);
      if !r.Ok? { return r, num; }
      pos, num := r.pos, num + 1;
      assert headers[..num] == before + [headers[num - 1]];
    }
  }

  lemma HeadersHead(s: seq<Byte>, i: nat, n: nat, max: nat)
    requires i <= |s| && n <= max
    ensures var e, h := LineEnd(s, i), Headers(s, i, n, max);
            && (!e.Ok? ==> Verdict(h) == Verdict(e))
            && (e.Ok? && e.val ==> h == Ok(e.pos, []))
            && (e.Ok? && !e.val && n == max ==> h == Failed)
  {
  }

  /** The start of a request up to its version. */
  method ParseMethodAndPath(sse: bool, s: seq<Byte>) returns (r: Parse<(Slice, Slice)>)
    ensures r == MethodAndPath(s)
  {
    hide ScanToken, ScanTarget, SkipSpaces;
    if |s| == 0 { return Partial; }
    var m := EatLineEnd(s, 0);
    if !m.Ok? { return m.PropagateFailure(); }
    var me, meth := ParseToken(sse, s, m.pos, SP);
    if !me.Ok? { return me.PropagateFailure(); }
    var t := SkipSpacesLoop(s, me.pos);
    if !t.Ok? { return t.PropagateFailure(); }
    var te, path := AdvanceToken(sse, s, t.pos);
    if !te.Ok? { return te.PropagateFailure(); }
    var v := SkipSpacesLoop(s, te.pos);
    if !v.Ok? { return v.PropagateFailure(); }
    if meth.len == 0 || path.len == 0 { return Failed; }
    r := Ok(v.pos, (meth, path));
  }

  method ParseVersionLine(s: seq<Byte>, v: nat) returns (r: Parse<nat>)
    requires v <= |s|
    ensures r == VersionLine(s, v)
  {
    hide Version;
    var minor := ParseHttpVersion(s, v);
    if !minor.Ok? { return minor; }
    var e := EatLineEnd(s, minor.pos);
    if !e.Ok? { return e.PropagateFailure(); }
    if !e.val { return Failed; }
    r := Ok(e.pos, minor.val);
  }

  /** `max` is the room in `headers`; on success `ret` bytes were consumed. */
  method PhrParseRequest(sse: bool, s: seq<Byte>, headers: array<Header>, max: nat, lastLen: nat)
    returns (ret: int, meth: Slice, path: Slice, minorVersion: int, numHeaders: nat)
    requires max <= headers.Length && lastLen <= |s|
    modifies headers
    ensures var r := Guarded(s, lastLen, ParseRequest(s, max));
            && (r.Ok? <==> ret >= 0) && (r.Ok? ==> ret == r.pos)
            && (r == Partial <==> ret == -2) && (r == Failed <==> ret == -1)
    ensures ret >= 0 ==>
              && minorVersion >= 0 && numHeaders <= max
              && ParseRequest(s, max) == Ok(ret, Request(meth, path, minorVersion, headers[..numHeaders]))
              && headers[numHeaders..] == old(headers[numHeaders..])
    ensures headers[max..] == old(headers[max..])
  {
    hide MethodAndPath, VersionLine, Headers, IsComplete;
    meth, path, minorVersion, numHeaders := Slice(0, 0), Slice(0, 0), -1, 0;
    if lastLen != 0 {
      var c := CheckComplete(s, lastLen);
      if !c.Ok? { return Answer(c), meth, path, minorVersion, numHeaders; }
    }
    var mp := ParseMethodAndPath(sse, s);
    if !mp.Ok? { return Answer(mp), meth, path, minorVersion, numHeaders; }
    meth, path := mp.val.0, mp.val.1;
    var line := ParseVersionLine(s, mp.pos);
    if !line.Ok? { return Answer(line), meth, path, minorVersion, numHeaders; }
    minorVersion := line.val;
    var r;
    r, numHeaders := ParseHeaderBlock(sse, s, line.pos, headers, max);
    ret := Answer(r);
  }

  /** Version, spaces and the three digits of the status. */
  method ParseVersionAndStatus(s: seq<Byte>) returns (r: Parse<(nat, nat)>)
    ensures r == VersionAndStatus(s)
  {
    hide Version, SkipSpaces;
    var minor := ParseHttpVersion(s, 0);
    if !minor.Ok? { return minor.PropagateFailure(); }
    if s[minor.pos] != SP { return Failed; }
    var c := SkipSpacesLoop(s, minor.pos);
    if !c.Ok? { return c.PropagateFailure(); }
    var pos := c.pos;
    if |s| - pos < 4 { return Partial; }
    if s[pos] < 48 || 57 < s[pos] { return Failed; }
    var status: int := 100 * (s[pos] as int - 48);
    if s[pos + 1] < 48 || 57 < s[pos + 1] { return Failed; }
    status := status + 10 * (s[pos + 1] as int - 48);
    if s[pos + 2] < 48 || 57 < s[pos + 2] { return Failed; }
    status := status + (s[pos + 2] as int - 48);
    r := Ok(pos + 3, (minor.val, status));
  }

  /**
    The message with its leading spaces removed.  The loop has no bound: it ends, and the
    length never underflows, because a line end follows the message.
   */
  method ParseMessage(sse: bool, s: seq<Byte>, m: nat) returns (r: Parse<Slice>)
    requires m <= |s|
    ensures r == Message(s, m)
  {
    var h, msg := GetTokenToEol(sse, s, m);
    if !h.Ok? { return h.PropagateFailure(); }
    ghost var end := msg.End();
    ScanEolStops(s, m);
    if msg.len == 0 {
      return Ok(h.pos, msg);
    } else if s[msg.off] == SP {
      while true
        invariant m <= msg.off < end < |s| && msg.End() == end && s[msg.off] == SP
        invariant TrimStart(s, m, end) == TrimStart(s, msg.off, end)
        decreases end - msg.off
      {
        msg := Slice(msg.off + 1, msg.len - 1);
        if s[msg.off] != SP { break; }
      }
      r := Ok(h.pos, msg);
    } else {
      r := Failed;
    }
  }

  lemma {:induction false} ScanEolStops(s: seq<Byte>, i: nat)
    requires i <= |s| && ScanEol(s, i).Ok?
    ensures ScanEol(s, i).val < |s| && s[ScanEol(s, i).val] != SP
    decreases |s| - i
  {
    if IsText(s[i]) { ScanEolStops(s, i + 1); }
  }

  method PhrParseResponse(sse: bool, s: seq<Byte>, headers: array<Header>, max: nat, lastLen: nat)
    returns (ret: int, minorVersion: int, status: nat, msg: Slice, numHeaders: nat)
    requires max <= headers.Length && lastLen <= |s|
    modifies headers
    ensures var r := Guarded(s, lastLen, ParseResponse(s, max));
            && (r.Ok? <==> ret >= 0) && (r.Ok? ==> ret == r.pos)
            && (r == Partial <==> ret == -2) && (r == Failed <==> ret == -1)
    ensures ret >= 0 ==>
              && minorVersion >= 0 && numHeaders <= max
              && ParseResponse(s, max) == Ok(ret, Response(minorVersion, status, msg, headers[..numHeaders]))
              && headers[numHeaders..] == old(headers[numHeaders..])
    ensures headers[max..] == old(headers[max..])
  {
    hide VersionAndStatus, Message, Headers, IsComplete;
    minorVersion, status, msg, numHeaders := -1, 0, Slice(0, 0), 0;
    if lastLen != 0 {
      var c := CheckComplete(s, lastLen);
      if !c.Ok? { return Answer(c), minorVersion, status, msg, numHeaders; }
    }
    var vs := ParseVersionAndStatus(s);
    if !vs.Ok? { return Answer(vs), minorVersion, status, msg, numHeaders; }
    minorVersion, status := vs.val.0, vs.val.1;
    var line := ParseMessage(sse, s, vs.pos);
    if !line.Ok? { return Answer(line), minorVersion, status, msg, numHeaders; }
    msg := line.val;
    var r;
    r, numHeaders := ParseHeaderBlock(sse, s, line.pos, headers, max);
    ret := Answer(r);
  }

  method PhrParseHeaders(sse: bool, s: seq<Byte>, headers: array<Header>, max: nat, lastLen: nat)
    returns (ret: int, numHeaders: nat)
    requires max <= headers.Length && lastLen <= |s|
    modifies headers
    ensures var r := Guarded(s, lastLen, ParseHeaders(s, max));
            && (r.Ok? <==> ret >= 0) && (r.Ok? ==> ret == r.pos)
            && (r == Partial <==> ret == -2) && (r == Failed <==> ret == -1)
    ensures ret >= 0 ==>
              && numHeaders <= max
              && ParseHeaders(s, max) == Ok(ret, headers[..numHeaders])
              && headers[numHeaders..] == old(headers[numHeaders..])
    ensures headers[max..] == old(headers[max..])
  {
    hide Headers, IsComplete;
    numHeaders := 0;
    if lastLen != 0 {
      var c := CheckComplete(s, lastLen);
      if !c.Ok? { return Answer(c), numHeaders; }
    }
    var r;
    r, numHeaders := ParseHeaderBlock(sse, s, 0, headers, max);
    ret := Answer(r);
  }
}
