/**
  The language of the parsers: heads written out as sections 3.1.1, 3.1.2, 3.2 and 3.2.4 of
  RFC 7230 have them, with every choice the parsers leave open (line ends, spaces, blanks
  around values, folds) spelled out.  Printing and parsing undo each other, down to the
  offset of every slice, so the parsers accept exactly what can be printed.
 */
module HttpPrint {
  import opened Bytes
  import opened HttpGrammar

  /**
    A header line: a named one, or a fold that continues the line before it.  `lead` and
    `trail` are the blanks around a value; the blanks a fold starts with belong to its value.
   */
  datatype Line =
    | Named(name: seq<Byte>, lead: seq<Byte>, value: seq<Byte>, trail: seq<Byte>, crlf: bool)
    | Fold(value: seq<Byte>, trail: seq<Byte>, crlf: bool)

  /** The header block: its lines and the form of the line end that closes it. */
  datatype Block = Block(lines: seq<Line>, crlf: bool)

  ghost predicate LegalValue(value: seq<Byte>) {
    AllBytes(value, IsText) && (value != [] ==> !IsBlank(value[|value| - 1]))
  }

  /** A value that also has no blank in front: what may replace the value of a named header. */
  ghost predicate LegalFieldValue(value: seq<Byte>) {
    LegalValue(value) && (value != [] ==> !IsBlank(value[0]))
  }

  ghost predicate LegalLine(l: Line) {
    && AllBytes(l.trail, IsBlank)
    && match l
       case Named(name, lead, value, trail, _) =>
         && name != [] && AllBytes(name, IsTchar)
         && AllBytes(lead, IsBlank) && LegalFieldValue(value)
         && (value == [] ==> trail == [])
       case Fold(value, trail, _) =>
         && LegalValue(value) && value + trail != [] && IsBlank((value + trail)[0])
  }

  /** The lines of a block, of which the first is named if no header comes before. */
  ghost predicate LegalLines(lines: seq<Line>, first: bool) {
    (forall l <- lines :: LegalLine(l)) && (first && lines != [] ==> lines[0].Named?)
  }

  function Eol(crlf: bool): seq<Byte> {
    if crlf then [CR, LF] else [LF]
  }

  function PrintValue(value: seq<Byte>, trail: seq<Byte>, crlf: bool, rest: seq<Byte>): seq<Byte> {
    value + (trail + (Eol(crlf) + rest))
  }

  function PrintLine(l: Line, rest: seq<Byte>): seq<Byte> {
    match l
    case Named(name, lead, value, trail, crlf) => name + ([COLON] + (lead + PrintValue(value, trail, crlf, rest)))
    case Fold(value, trail, crlf) => PrintValue(value, trail, crlf, rest)
  }

  function PrintLines(lines: seq<Line>, rest: seq<Byte>): seq<Byte> {
    if lines == [] then rest else PrintLine(lines[0], PrintLines(lines[1..], rest))
  }

  function PrintBlock(b: Block, rest: seq<Byte>): seq<Byte> {
    PrintLines(b.lines, Eol(b.crlf) + rest)
  }

  // ----- where things are in the printed text -----

  function LineSize(l: Line): nat {
    (if l.Named? then |l.name| + 1 + |l.lead| else 0) + |l.value| + |l.trail| + |Eol(l.crlf)|
  }

  function LinesSize(lines: seq<Line>): nat {
    if lines == [] then 0 else LineSize(lines[0]) + LinesSize(lines[1..])
  }

  /** The header that a line printed at offset `i` is. */
  function HeaderAt(l: Line, i: nat): Header {
    match l
    case Named(name, lead, value, _, _) =>
      Header(Some(Slice(i, |name|)), Slice(i + |name| + 1 + |lead|, |value|))
    case Fold(value, _, _) => Header(None, Slice(i, |value|))
  }

  function HeadersAt(lines: seq<Line>, i: nat): (hs: seq<Header>)
    ensures |hs| == |lines|
  {
    if lines == [] then [] else [HeaderAt(lines[0], i)] + HeadersAt(lines[1..], i + LineSize(lines[0]))
  }

  /** From `i` on the text is `t`. */
  ghost predicate At(s: seq<Byte>, i: nat, t: seq<Byte>) {
    i <= |s| && s[i..] == t
  }

  lemma AtPart(s: seq<Byte>, i: nat, a: seq<Byte>, b: seq<Byte>)
    requires At(s, i, a + b)
    ensures i + |a| <= |s| && At(s, i + |a|, b)
    ensures forall k :: i <= k < i + |a| ==> s[k] == a[k - i]
  {
    assert forall k :: i <= k < |s| ==> s[k] == s[i..][k - i];
  }

  // ----- parsing what was printed -----

  lemma EolAt(s: seq<Byte>, i: nat, crlf: bool, rest: seq<Byte>)
    requires At(s, i, Eol(crlf) + rest)
    ensures LineEnd(s, i) == Ok(i + |Eol(crlf)|, true) && At(s, i + |Eol(crlf)|, rest)
    ensures i < |s| && !IsText(s[i]) && ScanEol(s, i) == Ok(i + |Eol(crlf)|, i)
  {
    hide At;
    AtPart(s, i, Eol(crlf), rest);
  }

  /** A value, the blanks behind it and the line end. */
  lemma ValueAt(s: seq<Byte>, i: nat, value: seq<Byte>, trail: seq<Byte>, crlf: bool, rest: seq<Byte>, name: Option<Slice>)
    requires At(s, i, PrintValue(value, trail, crlf, rest))
    requires LegalValue(value) && AllBytes(trail, IsBlank)
    ensures var e := i + |value| + |trail| + |Eol(crlf)|;
            && FieldValue(s, i, name) == Ok(e, Header(name, Slice(i, |value|)))
            && At(s, e, rest)
  {
    hide At, ScanEol, TrimEnd, Eol;
    var v := i + |value|;
    var e := v + |trail|;
    AtPart(s, i, value, trail + (Eol(crlf) + rest));
    AtPart(s, v, trail, Eol(crlf) + rest);
    EolAt(s, e, crlf, rest);
    assert forall k :: i <= k < e ==> IsText(s[k]);
    EolSkip(s, i, e);
    TrimEndSkip(s, i, v, e);
  }

  lemma NamedAt(s: seq<Byte>, i: nat, l: Line, rest: seq<Byte>, foldable: bool)
    requires At(s, i, PrintLine(l, rest)) && LegalLine(l) && l.Named?
    ensures i < |s| && LineEnd(s, i) == Ok(i, false)
    ensures HeaderLine(s, i, foldable) == Ok(i + LineSize(l), HeaderAt(l, i)) && At(s, i + LineSize(l), rest)
  {
    hide At, FieldValue, ScanToken, SkipBlanks, PrintValue, Eol;
    var Named(name, lead, value, trail, crlf) := l;
    var v := NameAt(s, i, name, lead, PrintValue(value, trail, crlf, rest));
    NoBlankAt(s, v, value, trail, crlf, rest);
    ValueAt(s, v, value, trail, crlf, rest, Some(Slice(i, |name|)));
  }

  /** A name, the colon and the blanks before the value. */
  lemma NameAt(s: seq<Byte>, i: nat, name: seq<Byte>, lead: seq<Byte>, text: seq<Byte>) returns (v: nat)
    requires At(s, i, name + ([COLON] + (lead + text)))
    requires name != [] && AllBytes(name, IsTchar) && AllBytes(lead, IsBlank)
    ensures v == i + |name| + 1 + |lead| <= |s| && At(s, v, text)
    ensures IsTchar(s[i]) && ScanToken(s, i, COLON) == Ok(i + |name|, ())
    ensures SkipBlanks(s, i + |name| + 1) == SkipBlanks(s, v)
  {
    hide At, ScanToken, SkipBlanks;
    var n := i + |name|;
    v := n + 1 + |lead|;
    AtPart(s, i, name, [COLON] + (lead + text));
    AtPart(s, n, [COLON], lead + text);
    AtPart(s, n + 1, lead, text);
    TokenOver(s, i, n);
    BlanksSkip(s, n + 1, v);
  }

  /** A token that ends at its stop. */
  lemma TokenOver(s: seq<Byte>, i: nat, n: nat)
    requires i <= n < |s| && s[n] == COLON && forall k :: i <= k < n ==> IsTchar(s[k])
    ensures ScanToken(s, i, COLON) == Ok(n, ())
  {
    TokenSkip(s, i, n, COLON);
  }

  lemma NoBlankAt(s: seq<Byte>, v: nat, value: seq<Byte>, trail: seq<Byte>, crlf: bool, rest: seq<Byte>)
    requires At(s, v, PrintValue(value, trail, crlf, rest)) && LegalFieldValue(value) && (value == [] ==> trail == [])
    ensures SkipBlanks(s, v) == Ok(v, ())
  {
    hide At;
    AtPart(s, v, value, trail + (Eol(crlf) + rest));
    if value == [] {
      AtPart(s, v, trail, Eol(crlf) + rest);
      EolAt(s, v, crlf, rest);
    }
  }

  lemma FoldAt(s: seq<Byte>, i: nat, l: Line, rest: seq<Byte>)
    requires At(s, i, PrintLine(l, rest)) && LegalLine(l) && l.Fold?
    ensures i < |s| && LineEnd(s, i) == Ok(i, false)
    ensures HeaderLine(s, i, true) == Ok(i + LineSize(l), HeaderAt(l, i)) && At(s, i + LineSize(l), rest)
  {
    hide At, FieldValue, Eol;
    var Fold(value, trail, crlf) := l;
    AtPart(s, i, value, trail + (Eol(crlf) + rest));
    AtPart(s, i + |value|, trail, Eol(crlf) + rest);
    assert IsBlank(s[i]);
    ValueAt(s, i, value, trail, crlf, rest, None);
  }

  /** A printed header block, after `n` headers and with room for it, parses back. */
  lemma {:induction false} BlockAt(s: seq<Byte>, i: nat, b: Block, rest: seq<Byte>, n: nat, max: nat)
    requires At(s, i, PrintBlock(b, rest)) && LegalLines(b.lines, n == 0) && n + |b.lines| <= max
    ensures var e := i + LinesSize(b.lines) + |Eol(b.crlf)|;
            Headers(s, i, n, max) == Ok(e, HeadersAt(b.lines, i)) && At(s, e, rest)
    decreases |b.lines|
  {
    hide At, Eol, HeaderLine, LegalLine, PrintLine, LineSize;
    if b.lines == [] {
      EolAt(s, i, b.crlf, rest);
    } else {
      var l := b.lines[0];
      var b' := Block(b.lines[1..], b.crlf);
      if l.Named? {
        NamedAt(s, i, l, PrintBlock(b', rest), n > 0);
      } else {
        FoldAt(s, i, l, PrintBlock(b', rest));
      }
      BlockAt(s, i + LineSize(l), b', rest, n + 1, max);
    }
  }

  // ----- what was parsed could have been printed -----

  lemma AtJoin(s: seq<Byte>, i: nat, a: seq<Byte>, b: seq<Byte>)
    requires i + |a| <= |s| && s[i..i + |a|] == a && At(s, i + |a|, b)
    ensures At(s, i, a + b)
  {
  }

  lemma AtSelf(s: seq<Byte>, i: nat)
    requires i <= |s|
    ensures At(s, i, s[i..])
  {
  }

  lemma {:induction false} TokenRead(s: seq<Byte>, i: nat, stop: Byte)
    requires i <= |s| && ScanToken(s, i, stop).Ok?
    ensures var e := ScanToken(s, i, stop).pos;
            AllBytes(s[i..e], IsTchar) && s[e] == stop
    decreases |s| - i
  {
    if s[i] != stop {
      TokenRead(s, i + 1, stop);
      var e := ScanToken(s, i, stop).pos;
      assert s[i..e] == [s[i]] + s[i + 1..e];
    }
  }

  lemma {:induction false} BlanksRead(s: seq<Byte>, i: nat)
    requires i <= |s| && SkipBlanks(s, i).Ok?
    ensures var e := SkipBlanks(s, i).pos;
            AllBytes(s[i..e], IsBlank) && !IsBlank(s[e])
    decreases |s| - i
  {
    if IsBlank(s[i]) {
      BlanksRead(s, i + 1);
      var e := SkipBlanks(s, i).pos;
      assert s[i..e] == [s[i]] + s[i + 1..e];
    }
  }

  lemma LineEndRead(s: seq<Byte>, i: nat) returns (crlf: bool)
    requires i <= |s| && LineEnd(s, i).Ok? && LineEnd(s, i).val
    ensures LineEnd(s, i).pos == i + |Eol(crlf)| && At(s, i, Eol(crlf) + s[LineEnd(s, i).pos..])
  {
    crlf := s[i] == CR;
    AtSelf(s, LineEnd(s, i).pos);
    AtJoin(s, i, Eol(crlf), s[LineEnd(s, i).pos..]);
  }

  lemma {:induction false} EolRead(s: seq<Byte>, i: nat) returns (crlf: bool)
    requires i <= |s| && ScanEol(s, i).Ok?
    ensures var r := ScanEol(s, i);
            && AllBytes(s[i..r.val], IsText)
            && r.pos == r.val + |Eol(crlf)| && At(s, r.val, Eol(crlf) + s[r.pos..])
    decreases |s| - i
  {
    hide At, Eol;
    if IsText(s[i]) {
      crlf := EolRead(s, i + 1);
      var e := ScanEol(s, i).val;
      assert s[i..e] == [s[i]] + s[i + 1..e];
    } else {
      crlf := LineEndRead(s, i);
    }
  }

  lemma {:induction false} TrimRead(s: seq<Byte>, i: nat, e: nat)
    requires i <= e <= |s|
    ensures var t := TrimEnd(s, i, e);
            AllBytes(s[t..e], IsBlank) && (t == i || !IsBlank(s[t - 1]))
    decreases e
  {
    if e > i && IsBlank(s[e - 1]) {
      TrimRead(s, i, e - 1);
      var t := TrimEnd(s, i, e);
      assert s[t..e] == s[t..e - 1] + [s[e - 1]];
    }
  }

  lemma ValueRead(s: seq<Byte>, v: nat, name: Option<Slice>) returns (value: seq<Byte>, trail: seq<Byte>, crlf: bool)
    requires v <= |s| && FieldValue(s, v, name).Ok?
    ensures var r := FieldValue(s, v, name);
            && LegalValue(value) && AllBytes(trail, IsBlank)
            && At(s, v, PrintValue(value, trail, crlf, s[r.pos..]))
            && r.val == Header(name, Slice(v, |value|))
            && r.pos == v + |value| + |trail| + |Eol(crlf)|
  {
    hide At, ScanEol, TrimEnd, Eol;
    crlf := EolRead(s, v);
    var e := ScanEol(s, v);
    var t := TrimEnd(s, v, e.val);
    TrimRead(s, v, e.val);
    value, trail := s[v..t], s[t..e.val];
    assert forall k :: 0 <= k < |value| ==> value[k] == s[v..e.val][k];
    AtJoin(s, t, trail, Eol(crlf) + s[e.pos..]);
    AtJoin(s, v, value, trail + (Eol(crlf) + s[e.pos..]));
  }

  lemma LineRead(s: seq<Byte>, i: nat, foldable: bool) returns (l: Line)
    requires i < |s| && HeaderLine(s, i, foldable).Ok?
    ensures var r := HeaderLine(s, i, foldable);
            && LegalLine(l) && (l.Fold? ==> foldable)
            && At(s, i, PrintLine(l, s[r.pos..]))
            && r.val == HeaderAt(l, i) && r.pos == i + LineSize(l)
  {
    hide FieldValue, At, PrintValue;
    if foldable && IsBlank(s[i]) {
      var value, trail, crlf := ValueRead(s, i, None);
      l := Fold(value, trail, crlf);
      FirstByte(s, i, value, trail, crlf, s[HeaderLine(s, i, foldable).pos..]);
    } else {
      l := NamedRead(s, i, foldable);
    }
  }

  /** Where a value and the blanks behind it start, if there is any of them. */
  lemma FirstByte(s: seq<Byte>, i: nat, value: seq<Byte>, trail: seq<Byte>, crlf: bool, rest: seq<Byte>)
    requires At(s, i, PrintValue(value, trail, crlf, rest))
    ensures i < |s| && s[i] == if value + trail == [] then Eol(crlf)[0] else (value + trail)[0]
  {
    hide At;
    AtPart(s, i, value, trail + (Eol(crlf) + rest));
    AtPart(s, i + |value|, trail, Eol(crlf) + rest);
    AtPart(s, i + |value| + |trail|, Eol(crlf), rest);
  }

  lemma NamedRead(s: seq<Byte>, i: nat, foldable: bool) returns (l: Line)
    requires i < |s| && HeaderLine(s, i, foldable).Ok? && !(foldable && IsBlank(s[i]))
    ensures var r := HeaderLine(s, i, foldable);
            && LegalLine(l) && l.Named?
            && At(s, i, PrintLine(l, s[r.pos..]))
            && r.val == HeaderAt(l, i) && r.pos == i + LineSize(l)
  {
    hide At, FieldValue, ScanToken, SkipBlanks, PrintValue, Eol;
    var n := ScanToken(s, i, COLON).pos;
    var v := SkipBlanks(s, n + 1).pos;
    TokenRead(s, i, COLON);
    BlanksRead(s, n + 1);
    var name, lead := s[i..n], s[n + 1..v];
    var value, trail, crlf := ValueRead(s, v, Some(Slice(i, n - i)));
    var rest := s[HeaderLine(s, i, foldable).pos..];
    FirstByte(s, v, value, trail, crlf, rest);
    var text := PrintValue(value, trail, crlf, rest);
    AtJoin(s, n + 1, lead, text);
    AtJoin(s, n, [COLON], lead + text);
    AtJoin(s, i, name, [COLON] + (lead + text));
    l := Named(name, lead, value, trail, crlf);
  }

  lemma {:induction false} BlockRead(s: seq<Byte>, i: nat, n: nat, max: nat) returns (b: Block)
    requires i <= |s| && n <= max && Headers(s, i, n, max).Ok?
    ensures var r := Headers(s, i, n, max);
            && LegalLines(b.lines, n == 0)
            && At(s, i, PrintBlock(b, s[r.pos..]))
            && r.val == HeadersAt(b.lines, i) && r.pos == i + LinesSize(b.lines) + |Eol(b.crlf)|
    decreases |s| - i
  {
    hide At, Eol, HeaderLine, LegalLine, PrintLine, LineSize;
    if LineEnd(s, i).val {
      var crlf := LineEndRead(s, i);
      b := Block([], crlf);
    } else {
      var h := HeaderLine(s, i, n > 0);
      var l := LineRead(s, i, n > 0);
      var b' := BlockRead(s, h.pos, n + 1, max);
      b := Block([l] + b'.lines, b'.crlf);
      assert b.lines[1..] == b'.lines;
      AtRest(s, h.pos, PrintBlock(b', s[Headers(s, i, n, max).pos..]));
    }
  }

  lemma AtRest(s: seq<Byte>, i: nat, t: seq<Byte>)
    requires At(s, i, t)
    ensures s[i..] == t
  {
  }

  // ----- what the slices of a parsed block hold -----

  ghost predicate Holds(s: seq<Byte>, v: Slice, text: seq<Byte>) {
    v.End() <= |s| && s[v.off..v.End()] == text
  }

  /** The slices of a header hold the name and value of its line. */
  ghost predicate Reads(s: seq<Byte>, h: Header, l: Line) {
    && (h.name.Some? <==> l.Named?)
    && (l.Named? ==> Holds(s, h.name.value, l.name))
    && Holds(s, h.value, l.value)
  }

  lemma PartHolds(s: seq<Byte>, i: nat, a: seq<Byte>, b: seq<Byte>)
    requires At(s, i, a + b)
    ensures Holds(s, Slice(i, |a|), a)
  {
    assert s[i..i + |a|] == s[i..][..|a|];
  }

  lemma LineReads(s: seq<Byte>, i: nat, l: Line, rest: seq<Byte>)
    requires At(s, i, PrintLine(l, rest)) && LegalLine(l)
    ensures Reads(s, HeaderAt(l, i), l) && At(s, i + LineSize(l), rest)
  {
    hide At, Holds, LegalLine, Eol;
    var end := Eol(l.crlf) + rest;
    var v := i;
    if l.Named? {
      var text := l.lead + (l.value + (l.trail + end));
      PartHolds(s, i, l.name, [COLON] + text);
      AtPart(s, i, l.name, [COLON] + text);
      AtPart(s, i + |l.name|, [COLON], text);
      AtPart(s, i + |l.name| + 1, l.lead, l.value + (l.trail + end));
      v := i + |l.name| + 1 + |l.lead|;
    }
    PartHolds(s, v, l.value, l.trail + end);
    AtPart(s, v, l.value, l.trail + end);
    AtPart(s, v + |l.value|, l.trail, end);
    AtPart(s, v + |l.value| + |l.trail|, Eol(l.crlf), rest);
  }

  lemma {:induction false} LinesRead(s: seq<Byte>, i: nat, lines: seq<Line>, rest: seq<Byte>)
    requires At(s, i, PrintLines(lines, rest)) && forall l <- lines :: LegalLine(l)
    ensures forall j :: 0 <= j < |lines| ==> Reads(s, HeadersAt(lines, i)[j], lines[j])
    decreases |lines|
  {
    hide At, PrintLine, LegalLine, Reads, LineSize;
    if lines != [] {
      LineReads(s, i, lines[0], PrintLines(lines[1..], rest));
      LinesRead(s, i + LineSize(lines[0]), lines[1..], rest);
    }
  }

  function HeaderStart(h: Header): nat {
    if h.name.Some? then h.name.value.off else h.value.off
  }

  /** Disjoint slices in the order of the text, between `lo` and `hi`. */
  ghost predicate Ordered(hs: seq<Header>, lo: nat, hi: nat) {
    && (forall j :: 0 <= j < |hs| ==>
          && lo <= HeaderStart(hs[j]) && hs[j].value.End() < hi
          && (hs[j].name.Some? ==> hs[j].name.value.End() < hs[j].value.off))
    && (forall j, m :: 0 <= j < m < |hs| ==> hs[j].value.End() < HeaderStart(hs[m]))
  }

  lemma {:induction false} HeadersOrdered(lines: seq<Line>, i: nat)
    ensures Ordered(HeadersAt(lines, i), i, i + LinesSize(lines) + 1)
    decreases |lines|
  {
    if lines != [] {
      var n := LineSize(lines[0]);
      HeadersOrdered(lines[1..], i + n);
      var hs, t := HeadersAt(lines, i), HeadersAt(lines[1..], i + n);
      assert forall j :: 0 < j < |hs| ==> hs[j] == t[j - 1];
    }
  }

  /** A header with legal parts: the value is trimmed, a name is a nonempty token. */
  ghost predicate WellFormed(s: seq<Byte>, h: Header) {
    && h.value.End() <= |s|
    && LegalValue(s[h.value.off..h.value.End()])
    && (h.name.Some? ==>
          && h.name.value.End() <= |s| && h.name.value.len > 0
          && AllBytes(s[h.name.value.off..h.name.value.End()], IsTchar)
          && LegalFieldValue(s[h.value.off..h.value.End()]))
  }

  /** The slices of an accepted block are in order, well formed, and the first has a name. */
  lemma BlockWellFormed(s: seq<Byte>, i: nat, n: nat, max: nat)
    requires i <= |s| && n <= max && Headers(s, i, n, max).Ok?
    ensures var r := Headers(s, i, n, max);
            && Ordered(r.val, i, r.pos)
            && (forall j :: 0 <= j < |r.val| ==> WellFormed(s, r.val[j]))
            && (n == 0 && r.val != [] ==> r.val[0].name.Some?)
  {
    hide Headers, At, PrintLines, HeadersAt, Ordered;
    var r := Headers(s, i, n, max);
    var b := BlockRead(s, i, n, max);
    LinesRead(s, i, b.lines, Eol(b.crlf) + s[r.pos..]);
    HeadersOrdered(b.lines, i);
    OrderedWithin(r.val, i, i + LinesSize(b.lines) + 1, r.pos);
    forall j | 0 <= j < |r.val| ensures WellFormed(s, r.val[j]) {
      assert Reads(s, r.val[j], b.lines[j]) && LegalLine(b.lines[j]);
    }
    if n == 0 && r.val != [] { assert Reads(s, r.val[0], b.lines[0]); }
  }

  lemma OrderedWithin(hs: seq<Header>, lo: nat, hi: nat, hi': nat)
    requires Ordered(hs, lo, hi) && hi <= hi'
    ensures Ordered(hs, lo, hi')
  {
  }
}
