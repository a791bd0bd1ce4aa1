/**
  Incremental parsing.  A verdict other than "partial" is final: more input does not change
  it.  Hence every proper prefix of an accepted head is partial, and the completeness test
  that guards a retry never turns an acceptable request or response away: not now, and not
  later, when more of it has arrived.
 */
module HttpStability {
  import opened Bytes
  import opened HttpGrammar

  /**
    `later` is what `sooner`, the parse of the first `have` bytes, becomes when input arrives:
    a verdict stays, and a success was there as soon as it had all its bytes, of which it
    looks at `peek` more than it consumes.
   */
  ghost predicate Stable<T(!new)>(sooner: Parse<T>, later: Parse<T>, have: nat, peek: nat) {
    && (sooner != Partial ==> later == sooner)
    && (later.Ok? && later.pos + peek <= have ==> sooner == later)
  }

  lemma LineEndStable(s: seq<Byte>, x: seq<Byte>, i: nat)
    requires s <= x && i <= |s|
    ensures Stable(LineEnd(s, i), LineEnd(x, i), |s|, if LineEnd(x, i).Ok? && !LineEnd(x, i).val then 1 else 0)
  {
  }

  lemma {:induction false} ScanTokenStable(s: seq<Byte>, x: seq<Byte>, i: nat, stop: Byte)
    requires s <= x && i <= |s|
    ensures Stable(ScanToken(s, i, stop), ScanToken(x, i, stop), |s|, 1)
    decreases |s| - i
  {
    if i < |s| { ScanTokenStable(s, x, i + 1, stop); }
  }

  lemma {:induction false} ScanTargetStable(s: seq<Byte>, x: seq<Byte>, i: nat)
    requires s <= x && i <= |s|
    ensures Stable(ScanTarget(s, i), ScanTarget(x, i), |s|, 1)
    decreases |s| - i
  {
    if i < |s| { ScanTargetStable(s, x, i + 1); }
  }

  lemma {:induction false} ScanEolStable(s: seq<Byte>, x: seq<Byte>, i: nat)
    requires s <= x && i <= |s|
    ensures Stable(ScanEol(s, i), ScanEol(x, i), |s|, 0)
    decreases |s| - i
  {
    if i < |s| { ScanEolStable(s, x, i + 1); }
  }

  lemma {:induction false} SkipBlanksStable(s: seq<Byte>, x: seq<Byte>, i: nat)
    requires s <= x && i <= |s|
    ensures Stable(SkipBlanks(s, i), SkipBlanks(x, i), |s|, 1)
    decreases |s| - i
  {
    if i < |s| { SkipBlanksStable(s, x, i + 1); }
  }

  lemma {:induction false} SkipSpacesStable(s: seq<Byte>, x: seq<Byte>, i: nat)
    requires s <= x && i <= |s|
    ensures Stable(SkipSpaces(s, i), SkipSpaces(x, i), |s|, 1)
    decreases |s| - i
  {
    if i < |s| { SkipSpacesStable(s, x, i + 1); }
  }

  lemma {:induction false} TrimEndStable(s: seq<Byte>, x: seq<Byte>, i: nat, e: nat)
    requires s <= x && i <= e <= |s|
    ensures TrimEnd(s, i, e) == TrimEnd(x, i, e)
    decreases e
  {
    if e > i { TrimEndStable(s, x, i, e - 1); }
  }

  lemma {:induction false} TrimStartStable(s: seq<Byte>, x: seq<Byte>, i: nat, e: nat)
    requires s <= x && i <= e <= |s|
    ensures TrimStart(s, i, e) == TrimStart(x, i, e)
    decreases e - i
  {
    if i < e { TrimStartStable(s, x, i + 1, e); }
  }

  lemma VersionStable(s: seq<Byte>, x: seq<Byte>, i: nat)
    requires s <= x && i <= |s|
    ensures Stable(Version(s, i), Version(x, i), |s|, 1)
  {
    if |s| - i >= 9 { assert s[i..i + 7] == x[i..i + 7]; }
  }

  lemma FieldValueStable(s: seq<Byte>, x: seq<Byte>, v: nat, name: Option<Slice>)
    requires s <= x && v <= |s|
    ensures Stable(FieldValue(s, v, name), FieldValue(x, v, name), |s|, 0)
  {
    ScanEolStable(s, x, v);
    var r := ScanEol(s, v);
    if r.Ok? { TrimEndStable(s, x, v, r.val); }
  }

  lemma HeaderLineStable(s: seq<Byte>, x: seq<Byte>, i: nat, foldable: bool)
    requires s <= x && i < |s|
    ensures Stable(HeaderLine(s, i, foldable), HeaderLine(x, i, foldable), |s|, 0)
  {
    if foldable && IsBlank(s[i]) {
      FieldValueStable(s, x, i, None);
    } else {
      ScanTokenStable(s, x, i, COLON);
      var n := ScanToken(s, i, COLON);
      if n.Ok? && n.pos != i {
        SkipBlanksStable(s, x, n.pos + 1);
        var v := SkipBlanks(s, n.pos + 1);
        if v.Ok? { FieldValueStable(s, x, v.pos, Some(Slice(i, n.pos - i))); }
      }
    }
  }

  lemma {:induction false} HeadersStable(s: seq<Byte>, x: seq<Byte>, i: nat, n: nat, max: nat)
    requires s <= x && i <= |s| && n <= max
    ensures Stable(Headers(s, i, n, max), Headers(x, i, n, max), |s|, 0)
    decreases |s| - i
  {
    LineEndStable(s, x, i);
    var e := LineEnd(s, i);
    if e.Ok? && !e.val && n < max {
      HeaderLineStable(s, x, i, n > 0);
      var h := HeaderLine(s, i, n > 0);
      if h.Ok? { HeadersStable(s, x, h.pos, n + 1, max); }
    }
  }

  lemma MethodAndPathStable(s: seq<Byte>, x: seq<Byte>)
    requires s <= x
    ensures Stable(MethodAndPath(s), MethodAndPath(x), |s|, 1)
  {
    hide ScanToken, ScanTarget, SkipSpaces;
    LineEndStable(s, x, 0);
    var m := LineEnd(s, 0);
    if !m.Ok? { return; }
    ScanTokenStable(s, x, m.pos, SP);
    var me := ScanToken(s, m.pos, SP);
    if !me.Ok? { return; }
    SkipSpacesStable(s, x, me.pos + 1);
    var t := SkipSpaces(s, me.pos + 1);
    if !t.Ok? { return; }
    ScanTargetStable(s, x, t.pos);
    var te := ScanTarget(s, t.pos);
    if !te.Ok? { return; }
    SkipSpacesStable(s, x, te.pos + 1);
  }

  lemma VersionLineStable(s: seq<Byte>, x: seq<Byte>, v: nat)
    requires s <= x && v <= |s|
    ensures Stable(VersionLine(s, v), VersionLine(x, v), |s|, 0)
  {
    hide Version;
    VersionStable(s, x, v);
    var e := Version(s, v);
    if e.Ok? { LineEndStable(s, x, e.pos); }
  }

  lemma RequestStable(s: seq<Byte>, x: seq<Byte>, max: nat)
    requires s <= x
    ensures Stable(ParseRequest(s, max), ParseRequest(x, max), |s|, 0)
  {
    hide MethodAndPath, VersionLine, Headers;
    MethodAndPathStable(s, x);
    var v := MethodAndPath(s);
    if !v.Ok? { return; }
    VersionLineStable(s, x, v.pos);
    var h := VersionLine(s, v.pos);
    if h.Ok? { HeadersStable(s, x, h.pos, 0, max); }
  }

  lemma VersionAndStatusStable(s: seq<Byte>, x: seq<Byte>)
    requires s <= x
    ensures Stable(VersionAndStatus(s), VersionAndStatus(x), |s|, 1)
  {
    hide Version, SkipSpaces;
    VersionStable(s, x, 0);
    var v := Version(s, 0);
    if v.Ok? { SkipSpacesStable(s, x, v.pos + 1); }
  }

  lemma MessageStable(s: seq<Byte>, x: seq<Byte>, m: nat)
    requires s <= x && m <= |s|
    ensures Stable(Message(s, m), Message(x, m), |s|, 0)
  {
    hide ScanEol, TrimStart;
    ScanEolStable(s, x, m);
    var e := ScanEol(s, m);
    if e.Ok? { TrimStartStable(s, x, m, e.val); }
  }

  lemma ResponseStable(s: seq<Byte>, x: seq<Byte>, max: nat)
    requires s <= x
    ensures Stable(ParseResponse(s, max), ParseResponse(x, max), |s|, 0)
  {
    hide VersionAndStatus, Message, Headers;
    VersionAndStatusStable(s, x);
    var m := VersionAndStatus(s);
    if !m.Ok? { return; }
    MessageStable(s, x, m.pos);
    var h := Message(s, m.pos);
    if h.Ok? { HeadersStable(s, x, h.pos, 0, max); }
  }

  /**
    A prefix of an accepted request is accepted, with the same outputs, if it contains the
    whole head, and partial otherwise.
   */
  lemma RequestPrefix(s: seq<Byte>, max: nat, k: nat)
    requires ParseRequest(s, max).Ok? && k <= |s|
    ensures ParseRequest(s[..k], max) == if k < ParseRequest(s, max).pos then Partial else ParseRequest(s, max)
  {
    RequestStable(s[..k], s, max);
  }

  lemma ResponsePrefix(s: seq<Byte>, max: nat, k: nat)
    requires ParseResponse(s, max).Ok? && k <= |s|
    ensures ParseResponse(s[..k], max) == if k < ParseResponse(s, max).pos then Partial else ParseResponse(s, max)
  {
    ResponseStable(s[..k], s, max);
  }

  lemma HeadersPrefix(s: seq<Byte>, max: nat, k: nat)
    requires ParseHeaders(s, max).Ok? && k <= |s|
    ensures ParseHeaders(s[..k], max) == if k < ParseHeaders(s, max).pos then Partial else ParseHeaders(s, max)
  {
    HeadersStable(s[..k], s, 0, 0, max);
  }

  // ----- the completeness test -----

  /** Between `i` and `p` a carriage return is always followed by a line feed. */
  ghost predicate NoBareCr(s: seq<Byte>, i: nat, p: nat) {
    p <= |s| && forall k :: i <= k < p && s[k] == CR ==> k + 1 < p && s[k + 1] == LF
  }

  /** The line end that finishes at `p` and starts at `f`. */
  ghost predicate EndsLine(s: seq<Byte>, f: nat, p: nat) {
    p <= |s| && (p == f + 1 || (p == f + 2 && s[f] == CR)) && s[p - 1] == LF
  }

  /** From anywhere up to the line feed before the last line end, the blank line is found. */
  lemma {:induction false} BlankLineFound(s: seq<Byte>, i: nat, count: nat, f: nat, p: nat)
    requires 0 < f && EndsLine(s, f, p) && s[f - 1] == LF
    requires NoBareCr(s, i, p) && count <= 1
    requires i < f || (i == f && count == 1)
    ensures FindBlankLine(s, i, count).Ok?
    decreases f - i
  {
    assert i < p;
    var e := LineEnd(s, i);
    assert s[i] == CR ==> s[i + 1] == LF;
    assert e.Ok?;
    if i < f && !(e.val && count == 1) {
      BlankLineFound(s, if e.val then e.pos else i + 1, if e.val then 1 else 0, f, p);
    }
  }

  /** What an accepted block ends in: a line end, and before it the end of another line. */
  ghost predicate EndsInBlankLine(s: seq<Byte>, i: nat, p: nat) {
    exists f :: i < f && EndsLine(s, f, p) && s[f - 1] == LF
  }

  lemma Join(s: seq<Byte>, i: nat, j: nat, p: nat)
    requires NoBareCr(s, i, j) && NoBareCr(s, j, p) && i <= j <= p
    ensures NoBareCr(s, i, p)
  {
  }

  lemma LineEndShape(s: seq<Byte>, i: nat)
    requires i <= |s| && LineEnd(s, i).Ok?
    ensures var r := LineEnd(s, i);
            NoBareCr(s, i, r.pos) && (r.val ==> EndsLine(s, i, r.pos) && s[r.pos - 1] == LF)
  {
  }

  lemma {:induction false} ScanTokenShape(s: seq<Byte>, i: nat, stop: Byte)
    requires i <= |s| && stop != CR && ScanToken(s, i, stop).Ok?
    ensures NoBareCr(s, i, ScanToken(s, i, stop).pos + 1)
    decreases |s| - i
  {
    if s[i] != stop { ScanTokenShape(s, i + 1, stop); }
  }

  lemma {:induction false} ScanTargetShape(s: seq<Byte>, i: nat)
    requires i <= |s| && ScanTarget(s, i).Ok?
    ensures NoBareCr(s, i, ScanTarget(s, i).pos + 1)
    decreases |s| - i
  {
    if s[i] != SP { ScanTargetShape(s, i + 1); }
  }

  lemma {:induction false} SkipBlanksShape(s: seq<Byte>, i: nat)
    requires i <= |s| && SkipBlanks(s, i).Ok?
    ensures NoBareCr(s, i, SkipBlanks(s, i).pos)
    decreases |s| - i
  {
    if IsBlank(s[i]) { SkipBlanksShape(s, i + 1); }
  }

  lemma {:induction false} SkipSpacesShape(s: seq<Byte>, i: nat)
    requires i <= |s| && SkipSpaces(s, i).Ok?
    ensures NoBareCr(s, i, SkipSpaces(s, i).pos)
    decreases |s| - i
  {
    if s[i] == SP { SkipSpacesShape(s, i + 1); }
  }

  lemma {:induction false} ScanEolShape(s: seq<Byte>, i: nat)
    requires i <= |s| && ScanEol(s, i).Ok?
    ensures var r := ScanEol(s, i);
            NoBareCr(s, i, r.pos) && s[r.pos - 1] == LF
    decreases |s| - i
  {
    if IsText(s[i]) { ScanEolShape(s, i + 1); } else { LineEndShape(s, i); }
  }

  lemma HeaderLineShape(s: seq<Byte>, i: nat, foldable: bool)
    requires i < |s| && HeaderLine(s, i, foldable).Ok?
    ensures var r := HeaderLine(s, i, foldable);
            NoBareCr(s, i, r.pos) && s[r.pos - 1] == LF
  {
    var r := HeaderLine(s, i, foldable);
    if foldable && IsBlank(s[i]) {
      ScanEolShape(s, i);
    } else {
      var n := ScanToken(s, i, COLON);
      ScanTokenShape(s, i, COLON);
      var v := SkipBlanks(s, n.pos + 1);
      SkipBlanksShape(s, n.pos + 1);
      ScanEolShape(s, v.pos);
      Join(s, i, n.pos + 1, v.pos);
      Join(s, i, v.pos, r.pos);
    }
  }

  lemma {:induction false} HeadersShape(s: seq<Byte>, i: nat, n: nat, max: nat)
    requires i <= |s| && n <= max && Headers(s, i, n, max).Ok?
    ensures var r := Headers(s, i, n, max);
            && NoBareCr(s, i, r.pos)
            && (LineEnd(s, i).val ==> EndsLine(s, i, r.pos))
            && (!LineEnd(s, i).val ==> EndsInBlankLine(s, i, r.pos))
    decreases |s| - i
  {
    LineEndShape(s, i);
    if !LineEnd(s, i).val {
      var h := HeaderLine(s, i, n > 0);
      var r := Headers(s, h.pos, n + 1, max);
      HeaderLineShape(s, i, n > 0);
      HeadersShape(s, h.pos, n + 1, max);
      Join(s, i, h.pos, r.pos);
      if LineEnd(s, h.pos).val {
        assert EndsLine(s, h.pos, r.pos) && s[h.pos - 1] == LF;
      } else {
        var f :| h.pos < f && EndsLine(s, f, r.pos) && s[f - 1] == LF;
        assert i < f;
      }
    }
  }

  /** An accepted head, wherever it began, is long enough and ends in a blank line. */
  lemma AfterLine(s: seq<Byte>, start: nat, h: nat, max: nat)
    requires start < h <= |s| && s[h - 1] == LF && Headers(s, h, 0, max).Ok?
    ensures EndsInBlankLine(s, start, Headers(s, h, 0, max).pos)
  {
    HeadersShape(s, h, 0, max);
    var p := Headers(s, h, 0, max).pos;
    if LineEnd(s, h).val {
      assert EndsLine(s, h, p);
    } else {
      var f :| h < f && EndsLine(s, f, p) && s[f - 1] == LF;
      assert start < f;
    }
  }

  lemma VersionShape(s: seq<Byte>, i: nat)
    requires i <= |s| && Version(s, i).Ok?
    ensures NoBareCr(s, i, i + 8)
  {
    assert forall k :: i <= k < i + 7 ==> s[k] == s[i..i + 7][k - i] == HTTP1[k - i];
    assert forall k :: 0 <= k < 7 ==> HTTP1[k] != CR;
  }

  lemma MethodAndPathShape(s: seq<Byte>)
    requires MethodAndPath(s).Ok?
    ensures NoBareCr(s, 0, MethodAndPath(s).pos)
  {
    hide ScanToken, ScanTarget, SkipSpaces, LineEnd, NoBareCr;
    var m := LineEnd(s, 0).pos;
    var me := ScanToken(s, m, SP).pos;
    var t := SkipSpaces(s, me + 1).pos;
    var te := ScanTarget(s, t).pos;
    var v := SkipSpaces(s, te + 1).pos;
    LineEndShape(s, 0);
    ScanTokenShape(s, m, SP);
    SkipSpacesShape(s, me + 1);
    ScanTargetShape(s, t);
    SkipSpacesShape(s, te + 1);
    Join(s, 0, m, me + 1);
    Join(s, 0, me + 1, t);
    Join(s, 0, t, te + 1);
    Join(s, 0, te + 1, v);
  }

  lemma RequestShape(s: seq<Byte>, max: nat)
    requires ParseRequest(s, max).Ok?
    ensures var p := ParseRequest(s, max).pos;
            NoBareCr(s, 0, p) && EndsInBlankLine(s, 0, p)
  {
    hide MethodAndPath, Version, Headers, NoBareCr;
    var v := MethodAndPath(s).pos;
    var ve := Version(s, v).pos;
    var h := LineEnd(s, ve).pos;
    var p := Headers(s, h, 0, max).pos;
    MethodAndPathShape(s);
    VersionShape(s, v);
    LineEndShape(s, ve);
    HeadersShape(s, h, 0, max);
    Join(s, 0, v, ve);
    Join(s, 0, ve, h);
    Join(s, 0, h, p);
    AfterLine(s, 0, h, max);
  }

  lemma ResponseShape(s: seq<Byte>, max: nat)
    requires ParseResponse(s, max).Ok?
    ensures var p := ParseResponse(s, max).pos;
            NoBareCr(s, 0, p) && EndsInBlankLine(s, 0, p)
  {
    hide ScanEol, SkipSpaces, Version, Headers;
    var ve := Version(s, 0).pos;
    var c := SkipSpaces(s, ve + 1).pos;
    var m := Status(s, c).pos;
    var h := ScanEol(s, m).pos;
    var p := Headers(s, h, 0, max).pos;
    VersionShape(s, 0);
    SkipSpacesShape(s, ve + 1);
    ScanEolShape(s, m);
    HeadersShape(s, h, 0, max);
    AfterLine(s, 0, h, max);
  }

  /**
    When the first `lastLen` bytes were partial, the completeness test started at
    `lastLen - 3` finds the blank line of an accepted head.
   */
  lemma GuardPasses(s: seq<Byte>, lastLen: nat, p: nat)
    requires lastLen < p <= |s| && NoBareCr(s, 0, p) && EndsInBlankLine(s, 0, p)
    ensures IsComplete(s, lastLen).Ok?
  {
    var f :| 0 < f && EndsLine(s, f, p) && s[f - 1] == LF;
    BlankLineFound(s, if lastLen < 3 then 0 else lastLen - 3, 0, f, p);
  }

  /** A carriage return at `k` that something other than a line feed follows. */
  predicate BareCr(s: seq<Byte>, k: nat) {
    k + 1 < |s| && s[k] == CR && s[k + 1] != LF
  }

  ghost predicate HasBareCr(s: seq<Byte>, i: nat) {
    exists k :: i <= k && BareCr(s, k)
  }

  /**
    A line end, finished at `q` or before, that begins directly behind a line feed at `i` or
    later; with `count` 1 the line feed may be right before `i`.
   */
  ghost predicate BlankLineBy(s: seq<Byte>, i: nat, count: nat, q: nat) {
    exists f, p :: (i < f || (i == f && count == 1)) && 0 < f < p <= q && EndsLine(s, f, p) && s[f - 1] == LF
  }

  /** A bare carriage return that no blank line comes before. */
  ghost predicate BareCrFirst(s: seq<Byte>, i: nat, count: nat) {
    exists k :: i <= k && BareCr(s, k) && !BlankLineBy(s, i, count, k)
  }

  /** The byte conditions of the search, after one line end or one other byte. */
  lemma SearchMoves(s: seq<Byte>, i: nat, count: nat, q: nat)
    requires i <= |s| && count <= 1 && LineEnd(s, i).Ok? && q <= |s|
    requires count == 1 ==> 0 < i && s[i - 1] == LF
    ensures var e := LineEnd(s, i);
            var j := if e.val then e.pos else i + 1;
            && j <= |s| && (e.val ==> s[j - 1] == LF)
            && (forall k :: i <= k && BareCr(s, k) ==> j <= k)
            && (!(e.val && count == 1) ==>
                  (BlankLineBy(s, i, count, q) <==> BlankLineBy(s, j, if e.val then 1 else 0, q)))
            && (e.val && count == 1 ==> (BlankLineBy(s, i, count, q) <==> e.pos <= q))
  {
    var e := LineEnd(s, i);
    if e.val && count == 1 && e.pos <= q {
      assert EndsLine(s, i, e.pos);
    }
  }

  /** What the search comes to, in terms of the bytes. */
  lemma {:induction false} SearchResult(s: seq<Byte>, i: nat, count: nat)
    requires i <= |s| && count <= 1
    requires count == 1 ==> 0 < i && s[i - 1] == LF
    ensures FindBlankLine(s, i, count) == Failed <==> BareCrFirst(s, i, count)
    ensures FindBlankLine(s, i, count) == Partial <==> !HasBareCr(s, i) && !BlankLineBy(s, i, count, |s|)
    decreases |s| - i
  {
    hide BlankLineBy;
    var e := LineEnd(s, i);
    if e == Partial {
      NothingLeft(s, i, count);
    } else if e == Failed {
      assert BareCr(s, i);
      NotYetBlank(s, i, count);
    } else {
      var j, c := if e.val then e.pos else i + 1, if e.val then 1 else 0;
      SearchMoves(s, i, count, |s|);
      forall k | i <= k && BareCr(s, k)
        ensures j <= k
        ensures !(e.val && count == 1) ==> (BlankLineBy(s, i, count, k) <==> BlankLineBy(s, j, c, k))
        ensures e.val && count == 1 ==> BlankLineBy(s, i, count, k)
      {
        SearchMoves(s, i, count, k);
      }
      if !(e.val && count == 1) {
        SearchResult(s, j, c);
      }
    }
  }

  lemma NothingLeft(s: seq<Byte>, i: nat, count: nat)
    requires i <= |s| && LineEnd(s, i) == Partial
    ensures !HasBareCr(s, i) && !BlankLineBy(s, i, count, |s|)
  {
  }

  lemma NotYetBlank(s: seq<Byte>, i: nat, count: nat)
    requires BareCr(s, i)
    ensures !BlankLineBy(s, i, count, i)
  {
  }

  /** When the completeness test fails, a bare carriage return is in the bytes it looked at. */
  lemma {:induction false} TestFailsAtBareCr(s: seq<Byte>, i: nat, count: nat)
    requires i <= |s| && count <= 1 && FindBlankLine(s, i, count) == Failed
    ensures exists k :: 0 <= k && k + 1 < |s| && s[k] == CR && s[k + 1] != LF
    decreases |s| - i
  {
    var e := LineEnd(s, i);
    if e == Failed {
      assert s[i] == CR && s[i + 1] != LF;
    } else if !e.val {
      TestFailsAtBareCr(s, i + 1, 0);
    } else {
      TestFailsAtBareCr(s, e.pos, 1);
    }
  }

  /**
    When the test fails on what has arrived, a head that ends in a blank line can only end in
    the bytes parsed before: it ends before the bare carriage return, and its blank line was
    not found.
   */
  lemma FailedTestIsFinal(s: seq<Byte>, lastLen: nat, x: seq<Byte>, p: nat)
    requires lastLen <= |s| && s <= x && IsComplete(s, lastLen) == Failed
    requires NoBareCr(x, 0, p) && EndsInBlankLine(x, 0, p)
    ensures p <= lastLen
  {
    TestFailsAtBareCr(s, if lastLen < 3 then 0 else lastLen - 3, 0);
    var k :| 0 <= k && k + 1 < |s| && s[k] == CR && s[k + 1] != LF;
    assert x[k] == CR && x[k + 1] != LF;
    assert p <= k;
    BlankLineWithin(s, x, p);
    if lastLen < p { GuardPasses(s, lastLen, p); }
  }

  /** The blank line at `p` is one of the prefix that contains it, too. */
  lemma BlankLineWithin(s: seq<Byte>, x: seq<Byte>, p: nat)
    requires s <= x && p <= |s| && NoBareCr(x, 0, p) && EndsInBlankLine(x, 0, p)
    ensures NoBareCr(s, 0, p) && EndsInBlankLine(s, 0, p)
  {
    var f :| 0 < f && EndsLine(x, f, p) && x[f - 1] == LF;
    assert EndsLine(s, f, p) && s[f - 1] == LF;
  }

  // ----- requests: retries with the completeness test -----

  /**
    The retry shortcut of the request parser, after any attempt that did not succeed: same
    success, same outputs.
   */
  lemma RequestShortcutSound(s: seq<Byte>, max: nat, lastLen: nat)
    requires lastLen <= |s| && !ParseRequest(s[..lastLen], max).Ok?
    ensures var full := ParseRequest(s, max);
            var quick := Guarded(s, lastLen, full);
            (quick.Ok? <==> full.Ok?) && (full.Ok? ==> quick == full)
  {
    var full := ParseRequest(s, max);
    if full.Ok? {
      RequestShape(s, max);
      RequestPrefix(s, max, lastLen);
      GuardPasses(s, lastLen, full.pos);
    }
  }

  /** A failure is final, whether the test or the parser reports it. */
  lemma RequestFailureFinal(s: seq<Byte>, max: nat, lastLen: nat, x: seq<Byte>)
    requires lastLen <= |s| && !ParseRequest(s[..lastLen], max).Ok? && s <= x
    requires Guarded(s, lastLen, ParseRequest(s, max)) == Failed
    ensures !ParseRequest(x, max).Ok?
  {
    hide ParseRequest, NoBareCr, EndsInBlankLine, FindBlankLine;
    if ParseRequest(x, max).Ok? {
      var p := ParseRequest(x, max).pos;
      RequestStable(s, x, max);
      assert x[..lastLen] == s[..lastLen];
      RequestPrefix(x, max, lastLen);
      if p > lastLen {
        RequestShape(x, max);
        FailedTestIsFinal(s, lastLen, x, p);
      }
    }
  }

  /** Lengths at which the parser was called as input arrived. */
  ghost predicate Growing(lens: seq<nat>, n: nat) {
    && (forall i :: 0 <= i < |lens| ==> lens[i] <= n)
    && (forall i, j :: 0 <= i < j < |lens| ==> lens[i] <= lens[j])
  }

  /** The length passed as `last_len` with call `i`: that of the call before. */
  function LastLen(lens: seq<nat>, i: nat): nat
    requires i <= |lens|
  {
    if i == 0 then 0 else lens[i - 1]
  }

  /** Call `i` on the bytes of `s` that have arrived by then. */
  function RequestAttempt(s: seq<Byte>, max: nat, lens: seq<nat>, i: nat): Parse<Request>
    requires Growing(lens, |s|) && i < |lens|
  {
    Guarded(s[..lens[i]], LastLen(lens, i), ParseRequest(s[..lens[i]], max))
  }

  /**
    The documented use: call again with the previous length as more arrives.  However the
    input arrives, as long as no call succeeded the next one succeeds exactly when the head is
    complete, with the outputs of one call on everything; and a failure is final.
   */
  lemma {:induction false} RequestRetries(s: seq<Byte>, max: nat, lens: seq<nat>, i: nat)
    requires Growing(lens, |s|) && i < |lens|
    requires forall j :: 0 <= j < i ==> !RequestAttempt(s, max, lens, j).Ok?
    ensures var full := ParseRequest(s, max);
            var r := RequestAttempt(s, max, lens, i);
            && (r.Ok? <==> full.Ok? && full.pos <= lens[i])
            && (r.Ok? ==> r == full)
            && (r == Failed ==> forall x :: s[..lens[i]] <= x ==> !ParseRequest(x, max).Ok?)
    decreases i
  {
    hide ParseRequest, FindBlankLine;
    var now, last := s[..lens[i]], LastLen(lens, i);
    assert now[..last] == s[..last];
    if i == 0 {
      NoEmptyRequest(max);
      assert now[..0] == [];
    } else {
      RequestRetries(s, max, lens, i - 1);
      RequestStable(s[..last], s, max);
    }
    RequestShortcutSound(now, max, last);
    RequestStable(now, s, max);
    if RequestAttempt(s, max, lens, i) == Failed {
      forall x | now <= x ensures !ParseRequest(x, max).Ok? {
        RequestFailureFinal(now, max, last, x);
      }
    }
  }

  lemma NoEmptyRequest(max: nat)
    ensures !ParseRequest([], max).Ok? && !ParseResponse([], max).Ok?
  {
  }

  /** Where the completeness test starts. */
  function TestStart(lastLen: nat): nat {
    if lastLen < 3 then 0 else lastLen - 3
  }

  /**
    When a call with `last_len` says that it failed.  If the parser alone has failed: as soon as
    the bytes from `last_len - 3` on hold a blank line or a bare carriage return, and no sooner.
    If the parser alone would go on: if the test meets a bare carriage return and no blank line
    before.
   */
  lemma FailureShows<T>(s: seq<Byte>, lastLen: nat, full: Parse<T>)
    requires 0 < lastLen <= |s|
    ensures var lo := TestStart(lastLen);
            && (full == Failed ==>
                  (Guarded(s, lastLen, full) == Failed <==> HasBareCr(s, lo) || BlankLineBy(s, lo, 0, |s|)))
            && (full == Partial ==> (Guarded(s, lastLen, full) == Failed <==> BareCrFirst(s, lo, 0)))
  {
    hide FindBlankLine, HasBareCr, BlankLineBy, BareCrFirst;
    SearchResult(s, TestStart(lastLen), 0);
  }

  lemma RequestFailureShows(s: seq<Byte>, max: nat, lastLen: nat)
    requires 0 < lastLen <= |s| && ParseRequest(s, max) == Failed
    ensures var lo := TestStart(lastLen);
            var r := Guarded(s, lastLen, ParseRequest(s, max));
            && (r == Failed <==> HasBareCr(s, lo) || BlankLineBy(s, lo, 0, |s|))
            && (r == Partial <==> !HasBareCr(s, lo) && !BlankLineBy(s, lo, 0, |s|))
  {
    hide ParseRequest, FindBlankLine, HasBareCr, BlankLineBy;
    FailureShows(s, lastLen, ParseRequest(s, max));
  }

  lemma ResponseFailureShows(s: seq<Byte>, max: nat, lastLen: nat)
    requires 0 < lastLen <= |s| && ParseResponse(s, max) == Failed
    ensures var lo := TestStart(lastLen);
            var r := Guarded(s, lastLen, ParseResponse(s, max));
            && (r == Failed <==> HasBareCr(s, lo) || BlankLineBy(s, lo, 0, |s|))
            && (r == Partial <==> !HasBareCr(s, lo) && !BlankLineBy(s, lo, 0, |s|))
  {
    hide ParseResponse, FindBlankLine, HasBareCr, BlankLineBy;
    FailureShows(s, lastLen, ParseResponse(s, max));
  }

  lemma HeadersFailureShows(s: seq<Byte>, max: nat, lastLen: nat)
    requires 0 < lastLen <= |s| && ParseHeaders(s, max) == Failed
    ensures var lo := TestStart(lastLen);
            var r := Guarded(s, lastLen, ParseHeaders(s, max));
            && (r == Failed <==> HasBareCr(s, lo) || BlankLineBy(s, lo, 0, |s|))
            && (r == Partial <==> !HasBareCr(s, lo) && !BlankLineBy(s, lo, 0, |s|))
  {
    hide ParseHeaders, FindBlankLine, HasBareCr, BlankLineBy;
    FailureShows(s, lastLen, ParseHeaders(s, max));
  }

  lemma TokenFails(s: seq<Byte>, max: nat)
    requires |s| >= 2 && s[0] == 71 && s[1] == 40
    ensures ParseRequest(s[..1], max) == Partial && ParseRequest(s, max) == Failed
  {
    var first := s[..1];
    assert LineEnd(first, 0) == Ok(0, false) && LineEnd(s, 0) == Ok(0, false);
    assert ScanToken(first, 1, SP) == Partial && ScanToken(first, 0, SP) == Partial;
    assert ScanToken(s, 1, SP) == Failed && ScanToken(s, 0, SP) == Failed;
  }

  /** The request line `G(` fails, and with `last_len` 1 is reported as partial. */
  lemma LateFailure(max: nat)
    ensures var s: seq<Byte> := [71, 40];
            && ParseRequest(s[..1], max) == Partial && ParseRequest(s, max) == Failed
            && Guarded(s, 1, ParseRequest(s, max)) == Partial
  {
    hide ParseRequest;
    var s: seq<Byte> := [71, 40];
    TokenFails(s, max);
    RequestFailureShows(s, max, 1);
  }

  /** Followed by CR and `X` it is reported as failed, though there is no line feed in it. */
  lemma PromptFailure(max: nat)
    ensures var s: seq<Byte> := [71, 40, CR, 88];
            && ParseRequest(s[..1], max) == Partial && ParseRequest(s, max) == Failed
            && Guarded(s, 1, ParseRequest(s, max)) == Failed
  {
    hide ParseRequest;
    var s: seq<Byte> := [71, 40, CR, 88];
    TokenFails(s, max);
    assert BareCr(s, 2);
    RequestFailureShows(s, max, 1);
  }

  // ----- responses: retries with the completeness test -----

  lemma ResponseShortcutSound(s: seq<Byte>, max: nat, lastLen: nat)
    requires lastLen <= |s| && !ParseResponse(s[..lastLen], max).Ok?
    ensures var full := ParseResponse(s, max);
            var quick := Guarded(s, lastLen, full);
            (quick.Ok? <==> full.Ok?) && (full.Ok? ==> quick == full)
  {
    var full := ParseResponse(s, max);
    if full.Ok? {
      ResponseShape(s, max);
      ResponsePrefix(s, max, lastLen);
      GuardPasses(s, lastLen, full.pos);
    }
  }

  lemma ResponseFailureFinal(s: seq<Byte>, max: nat, lastLen: nat, x: seq<Byte>)
    requires lastLen <= |s| && !ParseResponse(s[..lastLen], max).Ok? && s <= x
    requires Guarded(s, lastLen, ParseResponse(s, max)) == Failed
    ensures !ParseResponse(x, max).Ok?
  {
    hide ParseResponse, NoBareCr, EndsInBlankLine, FindBlankLine;
    if ParseResponse(x, max).Ok? {
      var p := ParseResponse(x, max).pos;
      ResponseStable(s, x, max);
      assert x[..lastLen] == s[..lastLen];
      ResponsePrefix(x, max, lastLen);
      if p > lastLen {
        ResponseShape(x, max);
        FailedTestIsFinal(s, lastLen, x, p);
      }
    }
  }

  function ResponseAttempt(s: seq<Byte>, max: nat, lens: seq<nat>, i: nat): Parse<Response>
    requires Growing(lens, |s|) && i < |lens|
  {
    Guarded(s[..lens[i]], LastLen(lens, i), ParseResponse(s[..lens[i]], max))
  }

  lemma {:induction false} ResponseRetries(s: seq<Byte>, max: nat, lens: seq<nat>, i: nat)
    requires Growing(lens, |s|) && i < |lens|
    requires forall j :: 0 <= j < i ==> !ResponseAttempt(s, max, lens, j).Ok?
    ensures var full := ParseResponse(s, max);
            var r := ResponseAttempt(s, max, lens, i);
            && (r.Ok? <==> full.Ok? && full.pos <= lens[i])
            && (r.Ok? ==> r == full)
            && (r == Failed ==> forall x :: s[..lens[i]] <= x ==> !ParseResponse(x, max).Ok?)
    decreases i
  {
    hide ParseResponse, FindBlankLine;
    var now, last := s[..lens[i]], LastLen(lens, i);
    assert now[..last] == s[..last];
    if i == 0 {
      NoEmptyRequest(max);
      assert now[..0] == [];
    } else {
      ResponseRetries(s, max, lens, i - 1);
      ResponseStable(s[..last], s, max);
    }
    ResponseShortcutSound(now, max, last);
    ResponseStable(now, s, max);
    if ResponseAttempt(s, max, lens, i) == Failed {
      forall x | now <= x ensures !ParseResponse(x, max).Ok? {
        ResponseFailureFinal(now, max, last, x);
      }
    }
  }

  // ----- header blocks -----

  /** A header block that is nothing but CR and LF. */
  predicate IsEmptyBlock(s: seq<Byte>) {
    |s| >= 2 && s[0] == CR && s[1] == LF
  }

  /** Behind the line end at the start another one follows some other, with no bare CR before. */
  ghost predicate BlankLineFollows(s: seq<Byte>) {
    exists f, p :: 2 <= f && EndsLine(s, f, p) && s[f - 1] == LF && NoBareCr(s, 2, p)
  }

  /** What the search for a blank line has found when it succeeds. */
  lemma {:induction false} BlankLineIs(s: seq<Byte>, i: nat, count: nat) returns (f: nat, p: nat)
    requires i <= |s| && count <= 1 && FindBlankLine(s, i, count).Ok?
    requires count == 1 ==> 0 < i && s[i - 1] == LF
    ensures i <= f && 0 < f && EndsLine(s, f, p) && s[f - 1] == LF && NoBareCr(s, i, p)
    decreases |s| - i
  {
    var e := LineEnd(s, i);
    LineEndShape(s, i);
    if e.val && count == 1 {
      f, p := i, e.pos;
    } else {
      var j := if e.val then e.pos else i + 1;
      f, p := BlankLineIs(s, j, if e.val then 1 else 0);
      assert NoBareCr(s, i, j);
      Join(s, i, j, p);
    }
  }

  lemma FoundIfFollows(s: seq<Byte>)
    requires IsEmptyBlock(s)
    ensures FindBlankLine(s, 2, 1).Ok? <==> BlankLineFollows(s)
  {
    if FindBlankLine(s, 2, 1).Ok? {
      var f, p := BlankLineIs(s, 2, 1);
    }
    if BlankLineFollows(s) {
      var f, p :| 2 <= f && EndsLine(s, f, p) && s[f - 1] == LF && NoBareCr(s, 2, p);
      BlankLineFound(s, 2, 1, f, p);
    }
  }

  /**
    For bare header blocks the shortcut is sound unless the block is a single CR LF of which
    the CR was seen first: then it is sound just if a blank line follows later on.
   */
  lemma HeadersShortcut(s: seq<Byte>, max: nat, lastLen: nat)
    requires lastLen <= |s| && !ParseHeaders(s[..lastLen], max).Ok?
    ensures var full := ParseHeaders(s, max);
            var quick := Guarded(s, lastLen, full);
            && ((quick.Ok? <==> full.Ok?) <==> (lastLen != 1 || !IsEmptyBlock(s) || BlankLineFollows(s)))
            && (quick.Ok? ==> quick == full)
  {
    hide Headers, FindBlankLine, NoBareCr, EndsInBlankLine, EndsLine, ParseHeaders, IsComplete, BlankLineFollows;
    if lastLen == 1 && IsEmptyBlock(s) {
      EmptyBlock(s, max);
      FoundIfFollows(s);
    } else if ParseHeaders(s, max).Ok? && lastLen > 0 {
      HeadersPrefix(s, max, lastLen);
      BlockShape(s, max);
      GuardPasses(s, lastLen, ParseHeaders(s, max).pos);
    }
  }

  /** A failure on a header block is final, again unless it is a CR LF of which the CR was seen first. */
  lemma HeadersFailureFinal(s: seq<Byte>, max: nat, lastLen: nat, x: seq<Byte>)
    requires lastLen <= |s| && !ParseHeaders(s[..lastLen], max).Ok? && s <= x
    requires Guarded(s, lastLen, ParseHeaders(s, max)) == Failed
    ensures ParseHeaders(x, max).Ok? <==> lastLen == 1 && IsEmptyBlock(s)
  {
    hide Headers, FindBlankLine, NoBareCr, EndsInBlankLine, EndsLine, ParseHeaders;
    if lastLen == 1 && IsEmptyBlock(s) {
      EmptyBlock(x, max);
    } else if ParseHeaders(x, max).Ok? {
      var p := ParseHeaders(x, max).pos;
      HeadersExtended(s, x, max);
      assert x[..lastLen] == s[..lastLen];
      HeadersPrefix(x, max, lastLen);
      if p > lastLen {
        BlockShape(x, max);
        TestFailsAtBareCr(s, if lastLen < 3 then 0 else lastLen - 3, 0);
        FailedTestIsFinal(s, lastLen, x, p);
      }
    }
  }

  lemma HeadersExtended(s: seq<Byte>, x: seq<Byte>, max: nat)
    requires s <= x
    ensures Stable(ParseHeaders(s, max), ParseHeaders(x, max), |s|, 0)
  {
    HeadersStable(s, x, 0, 0, max);
  }

  function HeadersAttempt(s: seq<Byte>, max: nat, lens: seq<nat>, i: nat): Parse<seq<Header>>
    requires Growing(lens, |s|) && i < |lens|
  {
    Guarded(s[..lens[i]], LastLen(lens, i), ParseHeaders(s[..lens[i]], max))
  }

  /** The same for header blocks, unless the block is a CR LF of which the CR was seen first. */
  lemma {:induction false} HeadersRetries(s: seq<Byte>, max: nat, lens: seq<nat>, i: nat)
    requires Growing(lens, |s|) && i < |lens|
    requires !(IsEmptyBlock(s) && exists j :: 0 <= j < i && lens[j] == 1)
    requires forall j :: 0 <= j < i ==> !HeadersAttempt(s, max, lens, j).Ok?
    ensures var full := ParseHeaders(s, max);
            var r := HeadersAttempt(s, max, lens, i);
            && (r.Ok? <==> full.Ok? && full.pos <= lens[i])
            && (r.Ok? ==> r == full)
            && (r == Failed ==> forall x :: s[..lens[i]] <= x ==> !ParseHeaders(x, max).Ok?)
    decreases i
  {
    hide ParseHeaders, FindBlankLine, BlankLineFollows;
    var now, last := s[..lens[i]], LastLen(lens, i);
    assert now[..last] == s[..last];
    if i == 0 {
      assert now[..0] == [];
    } else {
      HeadersRetries(s, max, lens, i - 1);
      HeadersExtended(s[..last], s, max);
    }
    NoEmptyHeaders(max);
    HeadersShortcut(now, max, last);
    HeadersExtended(now, s, max);
    if HeadersAttempt(s, max, lens, i) == Failed {
      forall x | now <= x ensures !ParseHeaders(x, max).Ok? {
        HeadersFailureFinal(now, max, last, x);
      }
    }
  }

  lemma NoEmptyHeaders(max: nat)
    ensures !ParseHeaders([], max).Ok?
  {
  }

  /**
    In the excepted case a call succeeds just when the bytes from `last_len - 3` on hold a blank
    line before any bare carriage return, wherever the block itself ended.
   */
  lemma EmptyBlockSeen(s: seq<Byte>, max: nat, lastLen: nat)
    requires IsEmptyBlock(s) && 0 < lastLen <= |s|
    ensures var lo := TestStart(lastLen);
            var r := Guarded(s, lastLen, ParseHeaders(s, max));
            && (r.Ok? <==> (HasBareCr(s, lo) || BlankLineBy(s, lo, 0, |s|)) && !BareCrFirst(s, lo, 0))
            && (r.Ok? ==> r == Ok(2, []))
  {
    hide ParseHeaders, FindBlankLine, HasBareCr, BlankLineBy, BareCrFirst;
    EmptyBlock(s, max);
    SearchResult(s, TestStart(lastLen), 0);
  }

  /** In the excepted case the block can be overlooked for good: CR, LF and `a`, one at a time. */
  lemma HeadersOverlooked(i: nat)
    requires i < 3
    ensures var s: seq<Byte> := [CR, LF, 97];
            && ParseHeaders(s, 20) == Ok(2, [])
            && Growing([1, 2, 3], |s|) && HeadersAttempt(s, 20, [1, 2, 3], i) == Partial
  {
    hide FindBlankLine;
    var s: seq<Byte> := [CR, LF, 97];
    var now, last := s[..[1, 2, 3][i]], LastLen([1, 2, 3], i);
    assert now == [CR] || now == [CR, LF] || now == s;
    SearchResult(now, 0, 0);
    if i == 0 { assert LineEnd(now, 0) == Partial; }
  }

  lemma EmptyBlock(s: seq<Byte>, max: nat)
    requires IsEmptyBlock(s)
    ensures ParseHeaders(s, max) == Ok(2, []) && IsComplete(s, 1) == FindBlankLine(s, 2, 1)
  {
  }

  lemma BlockShape(s: seq<Byte>, max: nat)
    requires ParseHeaders(s, max).Ok?
    ensures NoBareCr(s, 0, ParseHeaders(s, max).pos)
    ensures EndsInBlankLine(s, 0, ParseHeaders(s, max).pos) || ParseHeaders(s, max).pos == 1 ||
            (ParseHeaders(s, max).pos == 2 && IsEmptyBlock(s))
  {
    HeadersShape(s, 0, 0, max);
  }

  /** The shortcut does turn an acceptable header block away. */
  lemma HeadersShortcutUnsound()
    ensures var s: seq<Byte> := [CR, LF];
            && ParseHeaders(s[..1], 20) == Partial
            && ParseHeaders(s, 20) == Ok(2, [])
            && Guarded(s, 1, ParseHeaders(s, 20)) == Partial
  {
    var s: seq<Byte> := [CR, LF];
    assert LineEnd(s[..1], 0) == Partial;
    assert FindBlankLine(s, 2, 1) == Partial;
  }
}
