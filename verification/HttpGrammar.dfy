/**
  HTTP/1.x heads parsed plainly, byte by byte and from left to right (sections 3.1.1, 3.1.2,
  3.2 and 3.2.4 of RFC 7230).  A parse says where it stopped, that the input is not complete,
  or that it is malformed.  The parser's loops, look-aheads and fast scans are proved to
  compute these functions.
 */
module HttpGrammar {
  import opened Bytes

  datatype Parse<+T> = Ok(pos: nat, val: T) | Partial | Failed {
    predicate IsFailure() { !Ok? }
    function PropagateFailure<U>(): Parse<U>
      requires !Ok?
    {
      if Partial? then Partial else Failed
    }
    function Extract(): (nat, T)
      requires Ok?
    {
      (pos, val)
    }
  }

  /** A pointer into the buffer with a length. */
  datatype Slice = Slice(off: nat, len: nat) {
    function End(): nat { off + len }
  }

  datatype Option<+T> = None | Some(value: T)

  /** A header; the name is absent for the continuation line of a folded header. */
  datatype Header = Header(name: Option<Slice>, value: Slice)

  datatype Request = Request(meth: Slice, path: Slice, minorVersion: nat, headers: seq<Header>)

  datatype Response = Response(minorVersion: nat, status: nat, msg: Slice, headers: seq<Header>)

  /** The token that ends at the byte `stop`. */
  function ScanToken(s: seq<Byte>, i: nat, stop: Byte): (r: Parse<()>)
    requires i <= |s|
    ensures r.Ok? ==> i <= r.pos < |s|
    decreases |s| - i
  {
    if i == |s| then Partial
    else if s[i] == stop then Ok(i, ())
    else if !IsTchar(s[i]) then Failed
    else ScanToken(s, i + 1, stop)
  }

  /** The request target, up to a space. */
  function ScanTarget(s: seq<Byte>, i: nat): (r: Parse<()>)
    requires i <= |s|
    ensures r.Ok? ==> i <= r.pos < |s|
    decreases |s| - i
  {
    if i == |s| then Partial
    else if s[i] == SP then Ok(i, ())
    else if !IsTargetByte(s[i]) then Failed
    else ScanTarget(s, i + 1)
  }

  /** Text up to a line end; the value is where the text ends. */
  function ScanEol(s: seq<Byte>, i: nat): (r: Parse<nat>)
    requires i <= |s|
    ensures r.Ok? ==> i <= r.val < r.pos <= |s|
    decreases |s| - i
  {
    if i == |s| then Partial
    else if IsText(s[i]) then ScanEol(s, i + 1)
    else
      var (p, eol) :- LineEnd(s, i);
      if eol then Ok(p, i) else Failed
  }

  /** A line end at `i`, if there is one: LF, or CR and LF. */
  function LineEnd(s: seq<Byte>, i: nat): (r: Parse<bool>)
    requires i <= |s|
    ensures r.Ok? ==> i <= r.pos <= |s| && (r.val <==> i < r.pos)
  {
    if i == |s| then Partial
    else if s[i] == CR then
      if i + 1 == |s| then Partial
      else if s[i + 1] == LF then Ok(i + 2, true)
      else Failed
    else if s[i] == LF then Ok(i + 1, true)
    else Ok(i, false)
  }

  function SkipBlanks(s: seq<Byte>, i: nat): (r: Parse<()>)
    requires i <= |s|
    ensures r.Ok? ==> i <= r.pos < |s|
    ensures !r.Failed?
    decreases |s| - i
  {
    if i == |s| then Partial
    else if IsBlank(s[i]) then SkipBlanks(s, i + 1)
    else Ok(i, ())
  }

  function SkipSpaces(s: seq<Byte>, i: nat): (r: Parse<()>)
    requires i <= |s|
    ensures r.Ok? ==> i <= r.pos < |s| && s[r.pos] != SP
    ensures !r.Failed?
    decreases |s| - i
  {
    if i == |s| then Partial
    else if s[i] == SP then SkipSpaces(s, i + 1)
    else Ok(i, ())
  }

  /** The end of the text `s[i..e]` without trailing blanks. */
  function TrimEnd(s: seq<Byte>, i: nat, e: nat): (r: nat)
    requires i <= e <= |s|
    ensures i <= r <= e
  {
    if e > i && IsBlank(s[e - 1]) then TrimEnd(s, i, e - 1) else e
  }

  /** The start of the text `s[i..e]` without leading spaces. */
  function TrimStart(s: seq<Byte>, i: nat, e: nat): (r: nat)
    requires i <= e <= |s|
    ensures i <= r <= e
    decreases e - i
  {
    if i < e && s[i] == SP then TrimStart(s, i + 1, e) else i
  }

  function Digit(b: Byte): (d: nat)
    requires IsDigit(b)
    ensures d <= 9
  {
    var code: int := b;
    code - 48
  }

  /** "HTTP/1." */
  const HTTP1: seq<Byte> := [72, 84, 84, 80, 47, 49, 46]

  /** The version; it is not looked at before one more byte than it has is there. */
  function Version(s: seq<Byte>, i: nat): (r: Parse<nat>)
    requires i <= |s|
    ensures r.Ok? ==> r.pos == i + 8 < |s| && r.val <= 9
  {
    if |s| - i < 9 then Partial
    else if s[i..i + 7] != HTTP1 || !IsDigit(s[i + 7]) then Failed
    else Ok(i + 8, Digit(s[i + 7]))
  }

  /** One header line; a line that may be a fold and starts with a blank has no name. */
  function HeaderLine(s: seq<Byte>, i: nat, foldable: bool): (r: Parse<Header>)
    requires i < |s|
    ensures r.Ok? ==> i < r.pos <= |s|
  {
    if foldable && IsBlank(s[i]) then
      FieldValue(s, i, None)
    else
      var (n, _) :- ScanToken(s, i, COLON);
      if n == i then Failed
      else
        var (v, _) :- SkipBlanks(s, n + 1);
        FieldValue(s, v, Some(Slice(i, n - i)))
  }

  function FieldValue(s: seq<Byte>, v: nat, name: Option<Slice>): (r: Parse<Header>)
    requires v <= |s|
    ensures r.Ok? ==> v < r.pos <= |s|
  {
    var (p, e) :- ScanEol(s, v);
    Ok(p, Header(name, Slice(v, TrimEnd(s, v, e) - v)))
  }

  /** The header block from `i` on, after `n` headers, with room for `max` in all. */
  function Headers(s: seq<Byte>, i: nat, n: nat, max: nat): (r: Parse<seq<Header>>)
    requires i <= |s| && n <= max
    ensures r.Ok? ==> i < r.pos <= |s| && n + |r.val| <= max
    decreases |s| - i
  {
    var (p, done) :- LineEnd(s, i);
    if done then Ok(p, [])
    else if n == max then Failed
    else
      var (q, h) :- HeaderLine(s, i, n > 0);
      var (e, hs) :- Headers(s, q, n + 1, max);
      Ok(e, [h] + hs)
  }

  /** The start of the request up to its version, after a line end that may come first. */
  function MethodAndPath(s: seq<Byte>): (r: Parse<(Slice, Slice)>)
    ensures r.Ok? ==> r.pos < |s|
  {
    var (m, _) :- LineEnd(s, 0);
    var (me, _) :- ScanToken(s, m, SP);
    var (t, _) :- SkipSpaces(s, me + 1);
    var (te, _) :- ScanTarget(s, t);
    var (v, _) :- SkipSpaces(s, te + 1);
    if me == m || te == t then Failed
    else Ok(v, (Slice(m, me - m), Slice(t, te - t)))
  }

  /** The rest of the request line. */
  function VersionLine(s: seq<Byte>, v: nat): (r: Parse<nat>)
    requires v <= |s|
    ensures r.Ok? ==> v < r.pos <= |s|
  {
    var (e, minor) :- Version(s, v);
    var (h, eol) :- LineEnd(s, e);
    if eol then Ok(h, minor) else Failed
  }

  function ParseRequest(s: seq<Byte>, max: nat): (r: Parse<Request>)
    ensures r.Ok? ==> r.pos <= |s| && |r.val.headers| <= max
  {
    var (v, mp) :- MethodAndPath(s);
    var (h, minor) :- VersionLine(s, v);
    var (e, hs) :- Headers(s, h, 0, max);
    Ok(e, Request(mp.0, mp.1, minor, hs))
  }

  /** Three digits and one more byte. */
  function Status(s: seq<Byte>, i: nat): (r: Parse<nat>)
    requires i <= |s|
    ensures r.Ok? ==> r.pos == i + 3 < |s| && r.val <= 999
  {
    if |s| - i < 4 then Partial
    else if !(IsDigit(s[i]) && IsDigit(s[i + 1]) && IsDigit(s[i + 2])) then Failed
    else Ok(i + 3, Digit(s[i]) * 100 + Digit(s[i + 1]) * 10 + Digit(s[i + 2]))
  }

  /** The status line up to the digits of the status, which it returns with the version. */
  function VersionAndStatus(s: seq<Byte>): (r: Parse<(nat, nat)>)
    ensures r.Ok? ==> r.pos < |s|
  {
    var (v, minor) :- Version(s, 0);
    if s[v] != SP then Failed
    else
      var (c, _) :- SkipSpaces(s, v + 1);
      var (m, status) :- Status(s, c);
      Ok(m, (minor, status))
  }

  /** The status message: it is absent or set off by spaces. */
  function Message(s: seq<Byte>, m: nat): (r: Parse<Slice>)
    requires m <= |s|
    ensures r.Ok? ==> m < r.pos <= |s|
  {
    var (h, e) :- ScanEol(s, m);
    if e > m && s[m] != SP then Failed
    else
      var b := TrimStart(s, m, e);
      Ok(h, Slice(b, e - b))
  }

  function ParseResponse(s: seq<Byte>, max: nat): (r: Parse<Response>)
    ensures r.Ok? ==> r.pos <= |s| && |r.val.headers| <= max
  {
    var (m, vs) :- VersionAndStatus(s);
    var (h, msg) :- Message(s, m);
    var (p, hs) :- Headers(s, h, 0, max);
    Ok(p, Response(vs.0, vs.1, msg, hs))
  }

  function ParseHeaders(s: seq<Byte>, max: nat): (r: Parse<seq<Header>>)
    ensures r.Ok? ==> 0 < r.pos <= |s| && |r.val| <= max
  {
    Headers(s, 0, 0, max)
  }

  /** Two line ends in a row, of which `count` have been seen right before `i`. */
  function FindBlankLine(s: seq<Byte>, i: nat, count: nat): (r: Parse<()>)
    requires i <= |s| && count <= 1
    decreases |s| - i
  {
    var (p, eol) :- LineEnd(s, i);
    if !eol then FindBlankLine(s, i + 1, 0)
    else if count == 1 then Ok(p, ())
    else FindBlankLine(s, p, 1)
  }

  /** The completeness test made when `lastLen` bytes have already been parsed in vain. */
  function IsComplete(s: seq<Byte>, lastLen: nat): Parse<()>
    requires lastLen <= |s|
  {
    FindBlankLine(s, if lastLen < 3 then 0 else lastLen - 3, 0)
  }

  /** A parse guarded by the completeness test, unless it is the first attempt. */
  function Guarded<T>(s: seq<Byte>, lastLen: nat, parsed: Parse<T>): Parse<T>
    requires lastLen <= |s|
  {
    if lastLen != 0 && !IsComplete(s, lastLen).Ok? then IsComplete(s, lastLen).PropagateFailure()
    else parsed
  }

  // ----- runs of bytes the scans pass over -----

  lemma {:induction false} TokenSkip(s: seq<Byte>, i: nat, pos: nat, stop: Byte)
    requires i <= pos <= |s| && forall k :: i <= k < pos ==> IsTchar(s[k]) && s[k] != stop
    ensures ScanToken(s, i, stop) == ScanToken(s, pos, stop)
    decreases pos - i
  {
    if i < pos { TokenSkip(s, i + 1, pos, stop); }
  }

  lemma {:induction false} TargetSkip(s: seq<Byte>, i: nat, pos: nat)
    requires i <= pos <= |s| && forall k :: i <= k < pos ==> IsTargetByte(s[k])
    ensures ScanTarget(s, i) == ScanTarget(s, pos)
    decreases pos - i
  {
    if i < pos { TargetSkip(s, i + 1, pos); }
  }

  lemma {:induction false} EolSkip(s: seq<Byte>, i: nat, pos: nat)
    requires i <= pos <= |s| && forall k :: i <= k < pos ==> IsText(s[k])
    ensures ScanEol(s, i) == ScanEol(s, pos)
    ensures pos == |s| ==> ScanEol(s, i) == Partial
    decreases pos - i
  {
    if i < pos { EolSkip(s, i + 1, pos); }
  }

  lemma {:induction false} BlanksSkip(s: seq<Byte>, i: nat, pos: nat)
    requires i <= pos <= |s| && forall k :: i <= k < pos ==> IsBlank(s[k])
    ensures SkipBlanks(s, i) == SkipBlanks(s, pos)
    decreases pos - i
  {
    if i < pos { BlanksSkip(s, i + 1, pos); }
  }

  lemma {:induction false} SpacesSkip(s: seq<Byte>, i: nat, pos: nat)
    requires i <= pos <= |s| && forall k :: i <= k < pos ==> s[k] == SP
    ensures SkipSpaces(s, i) == SkipSpaces(s, pos)
    decreases pos - i
  {
    if i < pos { SpacesSkip(s, i + 1, pos); }
  }

  lemma {:induction false} TrimEndSkip(s: seq<Byte>, i: nat, pos: nat, e: nat)
    requires i <= pos <= e <= |s| && forall k :: pos <= k < e ==> IsBlank(s[k])
    requires pos == i || !IsBlank(s[pos - 1])
    ensures TrimEnd(s, i, e) == pos
    decreases e - pos
  {
    if pos < e { TrimEndSkip(s, i, pos, e - 1); }
  }

  lemma {:induction false} TrimStartSkip(s: seq<Byte>, i: nat, pos: nat, e: nat)
    requires i <= pos <= e <= |s| && forall k :: i <= k < pos ==> s[k] == SP
    requires pos == e || s[pos] != SP
    ensures TrimStart(s, i, e) == pos
    decreases pos - i
  {
    if i < pos { TrimStartSkip(s, i + 1, pos, e); }
  }
}
