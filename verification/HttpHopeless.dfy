/**
  Failure and hopelessness.  A buffer is hopeless when no extension of it is accepted.  For
  header blocks the parser says so at once: it fails on exactly the hopeless buffers.  For
  requests and responses it can ask for more input in vain; exactly when is stated on the bytes.
 */
module HttpHopeless {
  import opened Bytes
  import opened HttpGrammar
  import opened HttpStability

  // ----- header blocks -----

  lemma {:induction false} EolCompletes(s: seq<Byte>, i: nat)
    requires i <= |s| && ScanEol(s, i) == Partial
    ensures ScanEol(s + [LF], i).Ok? && ScanEol(s + [LF], i).pos == |s| + 1
    ensures i < |s| && !IsText(s[i]) ==> ScanEol(s + [LF], i).val == i
    decreases |s| - i
  {
    if i < |s| && IsText(s[i]) { EolCompletes(s, i + 1); }
  }

  lemma {:induction false} TokenCompletes(s: seq<Byte>, x: seq<Byte>, i: nat, stop: Byte)
    requires i <= |s| && ScanToken(s, i, stop) == Partial && s + [stop] <= x
    ensures ScanToken(x, i, stop) == Ok(|s|, ())
    decreases |s| - i
  {
    assert x[|s|] == (s + [stop])[|s|];
    if i < |s| {
      assert x[i] == (s + [stop])[i];
      TokenCompletes(s, x, i + 1, stop);
    }
  }

  lemma {:induction false} BlanksComplete(s: seq<Byte>, i: nat)
    requires i <= |s| && SkipBlanks(s, i) == Partial
    ensures SkipBlanks(s + [LF], i) == Ok(|s|, ())
    decreases |s| - i
  {
    if i < |s| { BlanksComplete(s, i + 1); }
  }

  /** A header line that is not finished can be, by at most a colon and a line feed. */
  lemma HeaderLineCompletes(s: seq<Byte>, i: nat, foldable: bool) returns (x: seq<Byte>)
    requires i < |s| && HeaderLine(s, i, foldable) == Partial
    ensures s <= x && HeaderLine(x, i, foldable).Ok? && HeaderLine(x, i, foldable).pos == |x|
  {
    hide ScanToken, SkipBlanks, ScanEol;
    x := s + [LF];
    if foldable && IsBlank(s[i]) {
      EolCompletes(s, i);
    } else {
      var n := ScanToken(s, i, COLON);
      if n == Partial {
        x := s + [COLON, LF];
        TokenCompletes(s, x, i, COLON);
        OnlyLineFeed(x, |s| + 1);
      } else {
        ScanTokenStable(s, x, i, COLON);
        var v := SkipBlanks(s, n.pos + 1);
        if v == Partial {
          BlanksComplete(s, n.pos + 1);
          OnlyLineFeed(x, |s|);
        } else {
          SkipBlanksStable(s, x, n.pos + 1);
          EolCompletes(s, v.pos);
        }
      }
    }
  }

  lemma OnlyLineFeed(x: seq<Byte>, i: nat)
    requires i + 1 == |x| && x[i] == LF
    ensures ScanEol(x, i) == Ok(|x|, i) && SkipBlanks(x, i) == Ok(i, ()) && LineEnd(x, i) == Ok(|x|, true)
  {
  }

  /** A header block that is not finished can be. */
  lemma {:induction false} HeadersComplete(s: seq<Byte>, i: nat, n: nat, max: nat) returns (x: seq<Byte>)
    requires i <= |s| && n <= max && Headers(s, i, n, max) == Partial
    ensures s <= x && Headers(x, i, n, max).Ok?
    decreases |s| - i
  {
    hide HeaderLine;
    var p := LineEnd(s, i);
    if p == Partial {
      return s + [LF];
    }
    var h := HeaderLine(s, i, n > 0);
    if h == Partial {
      var y := HeaderLineCompletes(s, i, n > 0);
      x := y + [LF];
      HeaderLineStable(y, x, i, n > 0);
      OnlyLineFeed(x, |y|);
    } else {
      x := HeadersComplete(s, h.pos, n + 1, max);
      HeaderLineStable(s, x, i, n > 0);
    }
    LineEndStable(s, x, i);
  }

  /** From anywhere in a buffer, the header parser fails exactly when nothing behind it helps. */
  lemma HeadersFailExactlyFrom(s: seq<Byte>, i: nat, n: nat, max: nat)
    requires i <= |s| && n <= max
    ensures Headers(s, i, n, max) == Failed <==> forall x :: s <= x ==> !Headers(x, i, n, max).Ok?
  {
    hide Headers;
    forall x | s <= x ensures Stable(Headers(s, i, n, max), Headers(x, i, n, max), |s|, 0) {
      HeadersStable(s, x, i, n, max);
    }
    if Headers(s, i, n, max) == Partial {
      var x := HeadersComplete(s, i, n, max);
      assert Headers(x, i, n, max).Ok?;
    }
  }

  /** The header parser fails on exactly the buffers that nothing can complete. */
  lemma HeadersFailExactly(s: seq<Byte>, max: nat)
    ensures ParseHeaders(s, max) == Failed <==> forall x :: s <= x ==> !ParseHeaders(x, max).Ok?
  {
    hide Headers;
    forall x | s <= x ensures Stable(ParseHeaders(s, max), ParseHeaders(x, max), |s|, 0) {
      HeadersExtended(s, x, max);
    }
    if ParseHeaders(s, max) == Partial {
      var x := HeadersComplete(s, 0, 0, max);
      assert ParseHeaders(x, max).Ok?;
    }
  }

  // ----- the version -----

  /** What has arrived of a version can still become one. */
  predicate VersionFits(t: seq<Byte>) {
    && (forall k :: 0 <= k < |t| && k < 7 ==> t[k] == HTTP1[k])
    && (|t| >= 8 ==> IsDigit(t[7]))
  }

  /** The beginning of a version, made whole. */
  function WholeVersion(t: seq<Byte>): (w: seq<Byte>)
    requires VersionFits(t) && |t| < 9
    ensures |w| == 8 && w[..7] == HTTP1 && IsDigit(w[7]) && t <= w
  {
    if |t| == 8 then t else HTTP1 + [48]
  }

  lemma VersionDecides(s: seq<Byte>, x: seq<Byte>, v: nat)
    requires s <= x && v <= |s| && !VersionFits(s[v..])
    ensures !Version(x, v).Ok?
  {
    var t := s[v..];
    assert forall k :: 0 <= k < |t| ==> t[k] == x[v + k];
    if |x| - v >= 9 {
      var u := x[v..v + 7];
      assert forall k :: 0 <= k < 7 ==> u[k] == x[v + k];
    }
  }

  lemma VersionCompletes(s: seq<Byte>, v: nat, rest: seq<Byte>) returns (x: seq<Byte>)
    requires v <= |s| && |s| - v < 9 && VersionFits(s[v..]) && rest != []
    ensures s[..v] + WholeVersion(s[v..]) + rest == x && Version(x, v).Ok?
    ensures (|s| - v < 9 && s[v..] <= WholeVersion(s[v..]) ==> s <= x) && |x| == v + 8 + |rest| && x[v + 8..] == rest
  {
    var w := WholeVersion(s[v..]);
    x := s[..v] + w + rest;
    assert x[v..v + 7] == w[..7];
    assert x[v + 7] == w[7];
    assert s == s[..v] + s[v..];
  }

  // ----- requests -----

  /** The method is missing: a space stands where it should begin. */
  predicate NoMethod(s: seq<Byte>) {
    var m := LineEnd(s, 0);
    m.Ok? && m.pos < |s| && s[m.pos] == SP
  }

  /** What follows the target is not the beginning of a version. */
  predicate BadVersion(s: seq<Byte>) {
    var v := MethodAndPath(s);
    v.Ok? && !VersionFits(s[v.pos..])
  }

  lemma NoMethodDecides(s: seq<Byte>, x: seq<Byte>)
    requires s <= x && NoMethod(s)
    ensures !MethodAndPath(x).Ok?
  {
    hide SkipSpaces, ScanTarget;
    LineEndStable(s, x, 0);
    var m := LineEnd(s, 0).pos;
    assert x[m] == s[m];
  }

  lemma BadVersionDecides(s: seq<Byte>, x: seq<Byte>, max: nat)
    requires s <= x && BadVersion(s)
    ensures !ParseRequest(x, max).Ok?
  {
    hide MethodAndPath, Version, Headers, VersionFits;
    MethodAndPathStable(s, x);
    VersionDecides(s, x, MethodAndPath(s).pos);
  }

  lemma {:induction false} SpacesComplete(s: seq<Byte>, b: Byte, i: nat)
    requires i <= |s| && SkipSpaces(s, i) == Partial && b != SP
    ensures SkipSpaces(s + [b], i) == Ok(|s|, ())
    decreases |s| - i
  {
    if i < |s| { SpacesComplete(s, b, i + 1); }
  }

  lemma {:induction false} TargetCompletes(s: seq<Byte>, i: nat)
    requires i <= |s| && ScanTarget(s, i) == Partial
    ensures ScanTarget(s + [SP], i) == Ok(|s|, ())
    decreases |s| - i
  {
    if i < |s| { TargetCompletes(s, i + 1); }
  }

  /** How far the parser got in the first two words of a request. */
  ghost predicate MethodRead(s: seq<Byte>, me: nat) {
    var m := LineEnd(s, 0);
    m.Ok? && ScanToken(s, m.pos, SP) == Ok(me, ()) && me != m.pos
  }

  ghost predicate TargetBegun(s: seq<Byte>, me: nat, t: nat) {
    MethodRead(s, me) && me < |s| && SkipSpaces(s, me + 1) == Ok(t, ())
  }

  ghost predicate TargetRead(s: seq<Byte>, me: nat, t: nat, te: nat) {
    TargetBegun(s, me, t) && t < |s| && ScanTarget(s, t) == Ok(te, ()) && te < |s|
  }

  lemma MethodReadStable(s: seq<Byte>, x: seq<Byte>, me: nat)
    requires s <= x && MethodRead(s, me)
    ensures MethodRead(x, me)
  {
    hide ScanToken;
    LineEndStable(s, x, 0);
    ScanTokenStable(s, x, LineEnd(s, 0).pos, SP);
  }

  lemma TargetBegunStable(s: seq<Byte>, x: seq<Byte>, me: nat, t: nat)
    requires s <= x && TargetBegun(s, me, t)
    ensures TargetBegun(x, me, t)
  {
    hide SkipSpaces, MethodRead;
    MethodReadStable(s, x, me);
    SkipSpacesStable(s, x, me + 1);
  }

  lemma TargetReadStable(s: seq<Byte>, x: seq<Byte>, me: nat, t: nat, te: nat)
    requires s <= x && TargetRead(s, me, t, te)
    ensures TargetRead(x, me, t, te)
  {
    hide ScanTarget, TargetBegun;
    TargetBegunStable(s, x, me, t);
    ScanTargetStable(s, x, t);
  }

  /** A text whose method and target are complete, and of whose version one letter is there. */
  ghost predicate UpToVersion(s: seq<Byte>, y: seq<Byte>) {
    s <= y && MethodAndPath(y).Ok? && y[MethodAndPath(y).pos..] == [72]
  }

  lemma FinishSecondSpaces(s: seq<Byte>, me: nat, t: nat, te: nat) returns (y: seq<Byte>)
    requires TargetRead(s, me, t, te) && SkipSpaces(s, te + 1) == Partial
    ensures UpToVersion(s, y)
  {
    hide ScanToken, ScanTarget, LineEnd;
    y := s + [72];
    TargetReadStable(s, y, me, t, te);
    SpacesComplete(s, 72, te + 1);
    assert te != t by { TargetNotEmpty(y, t); }
    assert y[|s|..] == [72];
  }

  lemma TargetNotEmpty(s: seq<Byte>, t: nat)
    requires t < |s| && s[t] != SP
    ensures ScanTarget(s, t) != Ok(t, ())
  {
  }

  lemma FinishTarget(s: seq<Byte>, me: nat, t: nat) returns (y: seq<Byte>)
    requires TargetBegun(s, me, t) && t < |s| && ScanTarget(s, t) == Partial
    ensures UpToVersion(s, y)
  {
    hide ScanToken, ScanTarget, LineEnd, MethodAndPath;
    var x := s + [SP];
    TargetBegunStable(s, x, me, t);
    TargetCompletes(s, t);
    y := FinishSecondSpaces(x, me, t, |s|);
  }

  lemma FinishFirstSpaces(s: seq<Byte>, me: nat) returns (y: seq<Byte>)
    requires MethodRead(s, me) && me < |s| && SkipSpaces(s, me + 1) == Partial
    ensures UpToVersion(s, y)
  {
    hide ScanToken, LineEnd, MethodAndPath;
    var x := s + [47];
    MethodReadStable(s, x, me);
    SpacesComplete(s, 47, me + 1);
    assert ScanTarget(x, |s| + 1) == Partial && ScanTarget(x, |s|) == Partial;
    y := FinishTarget(x, me, |s|);
  }

  lemma FinishMethod(s: seq<Byte>) returns (y: seq<Byte>)
    requires LineEnd(s, 0).Ok? && ScanToken(s, LineEnd(s, 0).pos, SP) == Partial
    ensures UpToVersion(s, y)
  {
    hide LineEnd, MethodAndPath;
    var m := LineEnd(s, 0).pos;
    if m == |s| {
      var x := s + [71, SP];
      LineEndStable(s, x, 0);
      assert ScanToken(x, m + 1, SP) == Ok(m + 1, ()) && ScanToken(x, m, SP) == Ok(m + 1, ());
      assert SkipSpaces(x, m + 2) == Partial;
      y := FinishFirstSpaces(x, m + 1);
    } else {
      var x := s + [SP];
      LineEndStable(s, x, 0);
      TokenCompletes(s, x, m, SP);
      assert SkipSpaces(x, |x|) == Partial;
      y := FinishFirstSpaces(x, |s|);
    }
  }

  lemma ScannedTo(r: Parse<()>)
    requires r.Ok?
    ensures r == Ok(r.pos, ())
  {
    match r.val
    case () =>
  }

  /** Method and target, if there is a method, can be completed. */
  lemma FinishMethodAndPath(s: seq<Byte>) returns (y: seq<Byte>)
    requires MethodAndPath(s) == Partial && !NoMethod(s)
    ensures UpToVersion(s, y)
  {
    hide ScanTarget, UpToVersion;
    var m := LineEnd(s, 0);
    if m == Partial {
      var x := if s == [] then [71] else [CR, LF];
      assert LineEnd(x, 0).Ok? && ScanToken(x, LineEnd(x, 0).pos, SP) == Partial;
      y := FinishMethod(x);
      Further(s, x, y);
      return;
    }
    var e := ScanToken(s, m.pos, SP);
    if e == Partial {
      y := FinishMethod(s);
      return;
    }
    ScannedTo(e);
    assert e.pos != m.pos;
    assert MethodRead(s, e.pos);
    var t := SkipSpaces(s, e.pos + 1);
    if t == Partial {
      y := FinishFirstSpaces(s, e.pos);
      return;
    }
    ScannedTo(t);
    assert TargetBegun(s, e.pos, t.pos);
    var te := ScanTarget(s, t.pos);
    if te == Partial {
      y := FinishTarget(s, e.pos, t.pos);
    } else {
      ScannedTo(te);
      y := FinishSecondSpaces(s, e.pos, t.pos, te.pos);
    }
  }

  lemma Further(s: seq<Byte>, x: seq<Byte>, y: seq<Byte>)
    requires s <= x && UpToVersion(x, y)
    ensures UpToVersion(s, y)
  {
  }

  /** From the version on, what is there can be completed to a request. */
  lemma FinishVersion(s: seq<Byte>, max: nat) returns (x: seq<Byte>)
    requires MethodAndPath(s).Ok? && VersionLine(s, MethodAndPath(s).pos) == Partial && !BadVersion(s)
    ensures s <= x && ParseRequest(x, max).Ok?
  {
    hide MethodAndPath, VersionFits;
    var v := MethodAndPath(s).pos;
    if Version(s, v) == Partial {
      x := VersionCompletes(s, v, [LF, LF]);
      TwoLineFeeds(x, v + 8, max);
    } else {
      x := s + [LF, LF];
      VersionStable(s, x, v);
      CrPending(s, v + 8);
      TwoLineFeedsBehindCr(x, v + 8, max);
    }
    MethodAndPathStable(s, x);
  }

  lemma CrPending(s: seq<Byte>, i: nat)
    requires i < |s| && LineEnd(s, i) == Partial
    ensures s[i] == CR && i + 1 == |s|
  {
  }

  lemma TwoLineFeeds(x: seq<Byte>, i: nat, max: nat)
    requires i + 2 == |x| && x[i..] == [LF, LF]
    ensures LineEnd(x, i) == Ok(i + 1, true) && Headers(x, i + 1, 0, max).Ok?
  {
    assert x[i] == x[i..][0] && x[i + 1] == x[i..][1];
    OnlyLineFeed(x, i + 1);
  }

  lemma TwoLineFeedsBehindCr(x: seq<Byte>, i: nat, max: nat)
    requires i + 3 == |x| && x[i] == CR && x[i + 1] == LF && x[i + 2] == LF
    ensures LineEnd(x, i) == Ok(i + 2, true) && Headers(x, i + 2, 0, max).Ok?
  {
    OnlyLineFeed(x, i + 2);
  }

  lemma FinishRequest(s: seq<Byte>, max: nat) returns (x: seq<Byte>)
    requires ParseRequest(s, max) == Partial && !NoMethod(s) && !BadVersion(s)
    ensures s <= x && ParseRequest(x, max).Ok?
  {
    hide MethodAndPath, VersionLine, Headers, NoMethod, BadVersion;
    var v := MethodAndPath(s);
    if v == Partial {
      var y := FinishMethodAndPath(s);
      OneLetterFits(s, y);
      x := FinishVersion(y, max);
    } else {
      var h := VersionLine(s, v.pos);
      if h == Partial {
        x := FinishVersion(s, max);
      } else {
        x := HeadersComplete(s, h.pos, 0, max);
        MethodAndPathStable(s, x);
        VersionLineStable(s, x, v.pos);
      }
    }
  }

  lemma OneLetterFits(s: seq<Byte>, y: seq<Byte>)
    requires UpToVersion(s, y)
    ensures s <= y && MethodAndPath(y).Ok? && !BadVersion(y) && VersionLine(y, MethodAndPath(y).pos) == Partial
  {
    hide MethodAndPath;
  }

  /**
    Nothing can make a request of the buffer if and only if the parser has failed, or is still
    asking for input though the method is missing or the version has gone wrong: it looks at
    the method once the target is there, and at the version once nine bytes are.
   */
  lemma RequestHopeless(s: seq<Byte>, max: nat)
    ensures (forall x :: s <= x ==> !ParseRequest(x, max).Ok?) <==>
            ParseRequest(s, max) == Failed || NoMethod(s) || BadVersion(s)
  {
    hide ParseRequest, NoMethod, BadVersion;
    forall x | s <= x
      ensures Stable(ParseRequest(s, max), ParseRequest(x, max), |s|, 0)
      ensures NoMethod(s) || BadVersion(s) ==> !ParseRequest(x, max).Ok?
    {
      RequestStable(s, x, max);
      if NoMethod(s) {
        MethodNeeded(s, x, max);
      } else if BadVersion(s) {
        BadVersionDecides(s, x, max);
      }
    }
    if ParseRequest(s, max) == Partial && !NoMethod(s) && !BadVersion(s) {
      var x := FinishRequest(s, max);
    }
  }

  lemma MethodNeeded(s: seq<Byte>, x: seq<Byte>, max: nat)
    requires s <= x && NoMethod(s)
    ensures !ParseRequest(x, max).Ok?
  {
    hide MethodAndPath;
    NoMethodDecides(s, x);
  }

  // ----- responses -----

  /** The digits of the status that have arrived. */
  predicate StatusFits(t: seq<Byte>) {
    forall k :: 0 <= k < |t| && k < 3 ==> IsDigit(t[k])
  }

  /** The status has begun with something that is no digit. */
  predicate BadStatus(s: seq<Byte>) {
    var v := Version(s, 0);
    v.Ok? && s[8] == SP && SkipSpaces(s, 9).Ok? && !StatusFits(s[SkipSpaces(s, 9).pos..])
  }

  /** Text follows the status without a space. */
  predicate Garbage(s: seq<Byte>) {
    var m := VersionAndStatus(s);
    m.Ok? && IsText(s[m.pos]) && s[m.pos] != SP
  }

  lemma BadStatusDecides(s: seq<Byte>, x: seq<Byte>)
    requires s <= x && BadStatus(s)
    ensures !VersionAndStatus(x).Ok?
  {
    hide Version, SkipSpaces;
    VersionStable(s, x, 0);
    SkipSpacesStable(s, x, 9);
    var c := SkipSpaces(s, 9).pos;
    var t := s[c..];
    assert forall k :: 0 <= k < |t| ==> t[k] == x[c + k];
  }

  lemma GarbageDecides(s: seq<Byte>, x: seq<Byte>)
    requires s <= x && Garbage(s)
    ensures VersionAndStatus(x) == VersionAndStatus(s) && !Message(x, VersionAndStatus(s).pos).Ok?
  {
    hide VersionAndStatus;
    VersionAndStatusStable(s, x);
    var m := VersionAndStatus(s).pos;
    assert x[m] == s[m];
    assert ScanEol(x, m) == ScanEol(x, m + 1);
  }

  lemma StatusCompletes(s: seq<Byte>, max: nat) returns (x: seq<Byte>)
    requires Version(s, 0).Ok? && s[8] == SP && SkipSpaces(s, 9).Ok?
    requires Status(s, SkipSpaces(s, 9).pos) == Partial && !BadStatus(s)
    ensures s <= x && ParseResponse(x, max).Ok?
  {
    hide Version, SkipSpaces, Headers;
    var c := SkipSpaces(s, 9).pos;
    var t := s[c..];
    var zeros: seq<Byte> := [48, 48, 48];
    var digits := t + zeros[|t|..];
    x := s[..c] + digits + [LF, LF];
    assert s == s[..c] + t;
    assert forall k :: 0 <= k < 3 ==> x[c + k] == digits[k];
    VersionStable(s, x, 0);
    SkipSpacesStable(s, x, 9);
    assert Status(x, c).Ok?;
    TwoLineFeeds(x, c + 3, max);
    EmptyMessage(x, c + 3);
  }

  lemma EmptyMessage(x: seq<Byte>, m: nat)
    requires m < |x| && x[m] == LF
    ensures Message(x, m) == Ok(m + 1, Slice(m, 0))
  {
  }

  lemma FinishStatus(s: seq<Byte>, max: nat) returns (x: seq<Byte>)
    requires Version(s, 0).Ok? && s[8] == SP && SkipSpaces(s, 9) == Partial
    ensures s <= x && ParseResponse(x, max).Ok?
  {
    hide Version, SkipSpaces, ParseResponse;
    var y := s + [48];
    VersionStable(s, y, 0);
    SpacesComplete(s, 48, 9);
    assert y[|s|..] == [48];
    x := StatusCompletes(y, max);
  }

  lemma FinishVersionAndStatus(s: seq<Byte>, max: nat) returns (x: seq<Byte>)
    requires VersionAndStatus(s) == Partial && VersionFits(s) && !BadStatus(s)
    ensures s <= x && ParseResponse(x, max).Ok?
  {
    hide SkipSpaces, Status, ParseResponse, BadStatus, VersionFits;
    assert s[0..] == s && s[..0] == [];
    if Version(s, 0) == Partial {
      var y := VersionCompletes(s, 0, [SP]);
      assert y[8] == y[8..][0];
      assert SkipSpaces(y, 9) == Partial by { SpacesAtEnd(y); }
      x := FinishStatus(y, max);
    } else if SkipSpaces(s, 9) == Partial {
      x := FinishStatus(s, max);
    } else {
      x := StatusCompletes(s, max);
    }
  }

  lemma SpacesAtEnd(s: seq<Byte>)
    ensures SkipSpaces(s, |s|) == Partial
  {
  }

  lemma FinishMessage(s: seq<Byte>, max: nat) returns (x: seq<Byte>)
    requires VersionAndStatus(s).Ok? && Message(s, VersionAndStatus(s).pos) == Partial && !Garbage(s)
    ensures s <= x && ParseResponse(x, max).Ok?
  {
    hide VersionAndStatus, ScanEol;
    var m := VersionAndStatus(s).pos;
    var y := s + [LF];
    x := y + [LF];
    EolCompletes(s, m);
    ScanEolStable(y, x, m);
    assert x[m] == s[m];
    OnlyLineFeed(x, |y|);
    VersionAndStatusStable(s, x);
  }

  lemma FinishResponse(s: seq<Byte>, max: nat) returns (x: seq<Byte>)
    requires ParseResponse(s, max) == Partial && VersionFits(s) && !BadStatus(s) && !Garbage(s)
    ensures s <= x && ParseResponse(x, max).Ok?
  {
    hide VersionAndStatus, Message, Headers, VersionFits, BadStatus, Garbage;
    var v := VersionAndStatus(s);
    if v == Partial {
      x := FinishVersionAndStatus(s, max);
    } else {
      var h := Message(s, v.pos);
      if h == Partial {
        x := FinishMessage(s, max);
      } else {
        x := HeadersComplete(s, h.pos, 0, max);
        VersionAndStatusStable(s, x);
        MessageStable(s, x, v.pos);
      }
    }
  }

  /**
    The same for responses: the version is looked at once nine bytes are there, the status once
    four are, and what sets off the message once its line has ended.
   */
  lemma ResponseHopeless(s: seq<Byte>, max: nat)
    ensures (forall x :: s <= x ==> !ParseResponse(x, max).Ok?) <==>
            ParseResponse(s, max) == Failed || !VersionFits(s) || BadStatus(s) || Garbage(s)
  {
    hide ParseResponse, VersionFits, BadStatus, Garbage;
    forall x | s <= x
      ensures Stable(ParseResponse(s, max), ParseResponse(x, max), |s|, 0)
      ensures !VersionFits(s) || BadStatus(s) || Garbage(s) ==> !ParseResponse(x, max).Ok?
    {
      ResponseStable(s, x, max);
      if !VersionFits(s) || BadStatus(s) || Garbage(s) {
        ResponseRefused(s, x, max);
      }
    }
    if ParseResponse(s, max) == Partial && VersionFits(s) && !BadStatus(s) && !Garbage(s) {
      var x := FinishResponse(s, max);
    }
  }

  lemma ResponseRefused(s: seq<Byte>, x: seq<Byte>, max: nat)
    requires s <= x && (!VersionFits(s) || BadStatus(s) || Garbage(s))
    ensures !ParseResponse(x, max).Ok?
  {
    hide VersionAndStatus, Message, Headers, VersionFits, BadStatus, Garbage;
    if BadStatus(s) {
      BadStatusDecides(s, x);
    } else if Garbage(s) {
      GarbageDecides(s, x);
    } else {
      assert s[0..] == s;
      VersionDecides(s, x, 0);
      NoVersion(x);
    }
  }

  lemma NoVersion(x: seq<Byte>)
    requires !Version(x, 0).Ok?
    ensures !VersionAndStatus(x).Ok?
  {
  }
}
