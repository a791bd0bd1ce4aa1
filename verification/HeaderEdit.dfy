/**
  Replacing a header value inside the message buffer.  The edit leaves prefix, new value and
  suffix, and it commutes with parsing: the edited head parses to the original fields with
  that one value changed.  What the surrounding routine reports about the edit is another
  matter, in HeaderModify.
 */
module HeaderEdit {
  import opened Bytes
  import opened HttpGrammar
  import opened HttpPrint
  import opened HttpStability

  /** `s` with the bytes of the slice `v` replaced. */
  function Splice(s: seq<Byte>, v: Slice, value: seq<Byte>): (x: seq<Byte>)
    requires v.End() <= |s|
    ensures |x| == |s| - v.len + |value|
  {
    s[..v.off] + value + s[v.End()..]
  }

  function Moved(v: Slice, delta: int): Slice
    requires v.off + delta >= 0
  {
    Slice(v.off + delta, v.len)
  }

  function MovedHeader(h: Header, delta: int): Header
    requires h.value.off + delta >= 0 && (h.name.Some? ==> h.name.value.off + delta >= 0)
  {
    Header(if h.name.Some? then Some(Moved(h.name.value, delta)) else None, Moved(h.value, delta))
  }

  // ----- the edit on the printed form -----

  /**
    The line with another value.  The blanks behind an emptied value count as blanks before
    it, which is why its slice then starts `Gap` later.
   */
  function WithValue(l: Line, value: seq<Byte>): Line
    requires l.Named?
  {
    if value == [] then l.(lead := l.lead + l.trail, value := [], trail := []) else l.(value := value)
  }

  function Gap(l: Line, value: seq<Byte>): nat {
    if value == [] then |l.trail| else 0
  }

  function ValueOffset(l: Line): nat
    requires l.Named?
  {
    |l.name| + 1 + |l.lead|
  }

  lemma WithValueLegal(l: Line, value: seq<Byte>)
    requires LegalLine(l) && l.Named? && LegalFieldValue(value)
    ensures LegalLine(WithValue(l, value))
    ensures LineSize(WithValue(l, value)) == LineSize(l) - |l.value| + |value|
  {
    var lead := l.lead + l.trail;
    assert forall k :: 0 <= k < |lead| ==> lead[k] == if k < |l.lead| then l.lead[k] else l.trail[k - |l.lead|];
  }

  lemma SpliceLine(l: Line, value: seq<Byte>, rest: seq<Byte>)
    requires l.Named?
    ensures ValueOffset(l) + |l.value| <= |PrintLine(l, rest)|
    ensures PrintLine(WithValue(l, value), rest) == Splice(PrintLine(l, rest), Slice(ValueOffset(l), |l.value|), value)
  {
    hide Splice;
    var end := Eol(l.crlf) + rest;
    var front := l.name + ([COLON] + l.lead);
    NamedParts(l.name, l.lead, l.value, l.trail + end);
    if value == [] {
      EmptiedParts(l.name, l.lead, l.trail, end);
    } else {
      NamedParts(l.name, l.lead, value, l.trail + end);
    }
    SpliceParts(front, l.value, l.trail + end, value);
  }

  lemma NamedParts(name: seq<Byte>, lead: seq<Byte>, value: seq<Byte>, tail: seq<Byte>)
    ensures name + ([COLON] + (lead + (value + tail))) == (name + ([COLON] + lead)) + value + tail
  {
  }

  lemma EmptiedParts(name: seq<Byte>, lead: seq<Byte>, trail: seq<Byte>, tail: seq<Byte>)
    ensures name + ([COLON] + ((lead + trail) + ([] + ([] + tail)))) == (name + ([COLON] + lead)) + [] + (trail + tail)
  {
    assert [] + ([] + tail) == tail;
  }

  lemma SpliceParts(front: seq<Byte>, old_: seq<Byte>, tail: seq<Byte>, value: seq<Byte>)
    ensures Splice(front + old_ + tail, Slice(|front|, |old_|), value) == front + value + tail
  {
    var s := front + old_ + tail;
    assert s[..|front|] == front && s[|front| + |old_|..] == tail;
  }

  /** The lines with the value of line `k` replaced. */
  function WithValueAt(lines: seq<Line>, k: nat, value: seq<Byte>): seq<Line>
    requires k < |lines| && lines[k].Named?
  {
    lines[..k] + ([WithValue(lines[k], value)] + lines[k + 1..])
  }

  lemma {:induction false} PrintLinesAppend(a: seq<Line>, b: seq<Line>, rest: seq<Byte>)
    ensures |PrintLines(a, [])| == LinesSize(a)
    ensures PrintLines(a + b, rest) == PrintLines(a, []) + PrintLines(b, rest)
    ensures LinesSize(a + b) == LinesSize(a) + LinesSize(b)
    decreases |a|
  {
    if a == [] {
      assert a + b == b;
      assert [] + PrintLines(b, rest) == PrintLines(b, rest);
    } else {
      assert (a + b)[0] == a[0] && (a + b)[1..] == a[1..] + b;
      PrintLinesAppend(a[1..], b, rest);
      PrintLineAppend(a[0], PrintLines(a[1..] + b, rest));
      PrintLineAppend(a[0], PrintLines(a[1..], []));
      Associate(PrintLine(a[0], []), PrintLines(a[1..], []), PrintLines(b, rest));
    }
  }

  lemma Associate(a: seq<Byte>, b: seq<Byte>, c: seq<Byte>)
    ensures a + (b + c) == (a + b) + c
  {
  }

  lemma PrintLineAppend(l: Line, t: seq<Byte>)
    ensures |PrintLine(l, [])| == LineSize(l) && PrintLine(l, t) == PrintLine(l, []) + t
  {
    var e, e' := Eol(l.crlf) + [], Eol(l.crlf) + t;
    assert e' == e + t;
    assert l.trail + e' == (l.trail + e) + t;
    var v := PrintValue(l.value, l.trail, l.crlf, []);
    assert PrintValue(l.value, l.trail, l.crlf, t) == v + t;
    if l.Named? {
      assert l.name + ([COLON] + (l.lead + (v + t))) == (l.name + ([COLON] + (l.lead + v))) + t;
    }
  }

  /** Replacing the value of a line is a splice of the printed text. */
  lemma SpliceLines(lines: seq<Line>, k: nat, value: seq<Byte>, rest: seq<Byte>)
    requires k < |lines| && lines[k].Named?
    ensures var v := Slice(LinesSize(lines[..k]) + ValueOffset(lines[k]), |lines[k].value|);
            && v.End() <= |PrintLines(lines, rest)|
            && PrintLines(WithValueAt(lines, k, value), rest) == Splice(PrintLines(lines, rest), v, value)
  {
    hide PrintLine, WithValue, PrintLines, Splice, LinesSize, ValueOffset;
    var a, l, b := lines[..k], lines[k], lines[k + 1..];
    var front, back := PrintLines(a, []), PrintLines(b, rest);
    var v := Slice(ValueOffset(l), |l.value|);
    PrintAround(lines, k, l, rest);
    PrintAround(lines, k, WithValue(l, value), rest);
    assert lines[..k] + ([l] + lines[k + 1..]) == lines;
    SpliceLine(l, value, back);
    SpliceBehind(front, PrintLine(l, back), v, value);
  }

  /** The printed text around one line. */
  lemma PrintAround(lines: seq<Line>, k: nat, l: Line, rest: seq<Byte>)
    requires k < |lines|
    ensures PrintLines(lines[..k] + ([l] + lines[k + 1..]), rest) == PrintLines(lines[..k], []) + PrintLine(l, PrintLines(lines[k + 1..], rest))
    ensures |PrintLines(lines[..k], [])| == LinesSize(lines[..k])
  {
    hide PrintLine, LinesSize;
    var a, b := lines[..k], lines[k + 1..];
    assert ([l] + b)[1..] == b;
    PrintLinesAppend(a, [l] + b, rest);
  }

  lemma SpliceBehind(front: seq<Byte>, t: seq<Byte>, v: Slice, value: seq<Byte>)
    requires v.End() <= |t|
    ensures front + Splice(t, v, value) == Splice(front + t, Moved(v, |front|), value)
  {
    var n := |front|;
    assert (front + t)[..v.off + n] == front + t[..v.off];
    assert (front + t)[v.End() + n..] == t[v.End()..];
  }

  // ----- the edit on the parsed form -----

  ghost predicate MovedAll(hs: seq<Header>, hs': seq<Header>, delta: int) {
    && |hs'| == |hs|
    && forall j :: 0 <= j < |hs| ==>
         && hs[j].value.off + delta >= 0 && (hs[j].name.Some? ==> hs[j].name.value.off + delta >= 0)
         && hs'[j] == MovedHeader(hs[j], delta)
  }

  /**
    `hs'` is `hs` with the value of header `k` replaced by one of `len` bytes: the headers
    before stay, those behind move along with the text.
   */
  ghost predicate Edited(hs: seq<Header>, hs': seq<Header>, k: nat, len: nat, gap: nat)
    requires k < |hs|
  {
    && |hs'| == |hs|
    && hs'[..k] == hs[..k]
    && hs'[k] == Header(hs[k].name, Slice(hs[k].value.off + gap, len))
    && MovedAll(hs[k + 1..], hs'[k + 1..], len - hs[k].value.len)
  }

  lemma {:induction false} HeadersMoved(lines: seq<Line>, i: nat, delta: int)
    requires i + delta >= 0
    ensures MovedAll(HeadersAt(lines, i), HeadersAt(lines, i + delta), delta)
    decreases |lines|
  {
    hide MovedAll, LineSize, HeaderAt;
    if lines == [] {
      MovedNone(delta);
    } else {
      var n := LineSize(lines[0]);
      HeadersMoved(lines[1..], i + n, delta);
      assert i + delta + n == i + n + delta;
      MovedMore(lines[0], i, delta, HeadersAt(lines[1..], i + n), HeadersAt(lines[1..], i + delta + n));
    }
  }

  lemma MovedNone(delta: int)
    ensures MovedAll([], [], delta)
  {
  }

  lemma MovedMore(l: Line, i: nat, delta: int, hs: seq<Header>, hs': seq<Header>)
    requires i + delta >= 0 && MovedAll(hs, hs', delta)
    ensures MovedAll([HeaderAt(l, i)] + hs, [HeaderAt(l, i + delta)] + hs', delta)
  {
    hide LineSize;
    var all, all' := [HeaderAt(l, i)] + hs, [HeaderAt(l, i + delta)] + hs';
    assert forall j :: 1 <= j < |all| ==> all[j] == hs[j - 1];
    assert forall j :: 1 <= j < |all'| ==> all'[j] == hs'[j - 1];
  }

  lemma {:induction false} HeadersAppend(a: seq<Line>, b: seq<Line>, i: nat)
    ensures HeadersAt(a + b, i) == HeadersAt(a, i) + HeadersAt(b, i + LinesSize(a))
    decreases |a|
  {
    if a == [] {
      assert a + b == b;
    } else {
      assert (a + b)[0] == a[0] && (a + b)[1..] == a[1..] + b;
      HeadersAppend(a[1..], b, i + LineSize(a[0]));
    }
  }

  /** The header of line `k` between those before and those behind it. */
  lemma HeadersAround(a: seq<Line>, l: Line, b: seq<Line>, i: nat)
    ensures var j := i + LinesSize(a);
            HeadersAt(a + ([l] + b), i) == HeadersAt(a, i) + ([HeaderAt(l, j)] + HeadersAt(b, j + LineSize(l)))
  {
    HeadersAppend(a, [l] + b, i);
    assert ([l] + b)[1..] == b;
  }

  lemma HeadersEdited(lines: seq<Line>, i: nat, k: nat, value: seq<Byte>)
    requires k < |lines| && lines[k].Named? && LegalLine(lines[k]) && LegalFieldValue(value)
    ensures var lines' := WithValueAt(lines, k, value);
            && Edited(HeadersAt(lines, i), HeadersAt(lines', i), k, |value|, Gap(lines[k], value))
            && LinesSize(lines') == LinesSize(lines) - |lines[k].value| + |value|
  {
    hide LegalLine, LegalFieldValue, LineSize, MovedAll, Edited, HeadersAt, PrintLines;
    var a, l, b := lines[..k], lines[k], lines[k + 1..];
    var l', delta := WithValue(l, value), |value| - |l.value|;
    var j := i + LinesSize(a);
    assert lines == a + ([l] + b);
    WithValueLegal(l, value);
    HeadersAround(a, l, b, i);
    HeadersAround(a, l', b, i);
    HeadersMoved(b, j + LineSize(l), delta);
    assert j + LineSize(l') == j + LineSize(l) + delta;
    EditedAround(HeadersAt(a, i), HeaderAt(l, j), HeaderAt(l', j),
                 HeadersAt(b, j + LineSize(l)), HeadersAt(b, j + LineSize(l')), |value|, Gap(l, value));
    SizeAround(a, l, b);
    SizeAround(a, l', b);
  }

  lemma SizeAround(a: seq<Line>, l: Line, b: seq<Line>)
    ensures LinesSize(a + ([l] + b)) == LinesSize(a) + LineSize(l) + LinesSize(b)
  {
    PrintLinesAppend(a, [l] + b, []);
    assert ([l] + b)[1..] == b;
  }

  lemma EditedAround(a: seq<Header>, h: Header, h': Header, b: seq<Header>, b': seq<Header>, len: nat, gap: nat)
    requires h' == Header(h.name, Slice(h.value.off + gap, len)) && MovedAll(b, b', len - h.value.len)
    ensures Edited(a + ([h] + b), a + ([h'] + b'), |a|, len, gap)
  {
    Around(a, h, b);
    Around(a, h', b');
  }

  lemma Around(a: seq<Header>, h: Header, b: seq<Header>)
    ensures var hs := a + ([h] + b);
            hs[..|a|] == a && hs[|a|] == h && hs[|a| + 1..] == b
  {
  }

  /**
    How much later the slice of an emptied value starts: the blanks that followed the old
    value then count as blanks before the new one.
   */
  function GapBehind(s: seq<Byte>, v: Slice, value: seq<Byte>): nat
    requires v.End() <= |s|
  {
    if value == [] then Lead(s[v.End()..], IsBlank) else 0
  }

  lemma LeadIs(t: seq<Byte>, crlf: bool, rest: seq<Byte>)
    requires AllBytes(t, IsBlank)
    ensures Lead(t + (Eol(crlf) + rest), IsBlank) == |t|
  {
    var s := t + (Eol(crlf) + rest);
    assert s[|t|] == Eol(crlf)[0] && !IsBlank(s[|t|]);
    assert forall m :: 0 <= m < |t| ==> s[m] == t[m];
  }

  lemma TrailInLine(s: seq<Byte>, j: nat, l: Line, back: seq<Byte>)
    requires At(s, j, PrintLine(l, back)) && l.Named? && AllBytes(l.trail, IsBlank)
    ensures var e := j + ValueOffset(l) + |l.value|;
            e <= |s| && Lead(s[e..], IsBlank) == |l.trail|
  {
    hide At, Eol;
    var tail := l.trail + (Eol(l.crlf) + back);
    AtPart(s, j, l.name, [COLON] + (l.lead + (l.value + tail)));
    AtPart(s, j + |l.name|, [COLON], l.lead + (l.value + tail));
    AtPart(s, j + |l.name| + 1, l.lead, l.value + tail);
    AtPart(s, j + |l.name| + 1 + |l.lead|, l.value, tail);
    AtRest(s, j + ValueOffset(l) + |l.value|, tail);
    LeadIs(l.trail, l.crlf, back);
  }

  /** The blanks behind the value of a named line in the printed text. */
  lemma TrailAt(s: seq<Byte>, i: nat, lines: seq<Line>, k: nat, rest: seq<Byte>)
    requires At(s, i, PrintLines(lines, rest))
    requires k < |lines| && lines[k].Named? && AllBytes(lines[k].trail, IsBlank)
    ensures var v := HeadersAt(lines, i)[k].value;
            v.End() <= |s| && Lead(s[v.End()..], IsBlank) == |lines[k].trail|
  {
    hide At, HeadersAt, PrintLines, PrintLine, LinesSize, AllBytes, Lead;
    var l, back := lines[k], PrintLines(lines[k + 1..], rest);
    assert lines == lines[..k] + ([l] + lines[k + 1..]);
    PrintAround(lines, k, l, rest);
    HeaderOffset(lines, i, k);
    AtPart(s, i, PrintLines(lines[..k], []), PrintLine(l, back));
    TrailInLine(s, i + LinesSize(lines[..k]), l, back);
  }

  lemma GapIs(s: seq<Byte>, i: nat, lines: seq<Line>, k: nat, rest: seq<Byte>, value: seq<Byte>)
    requires At(s, i, PrintLines(lines, rest))
    requires k < |lines| && lines[k].Named? && LegalLine(lines[k])
    ensures var v := HeadersAt(lines, i)[k].value;
            && v.End() <= |s| && GapBehind(s, v, value) == Gap(lines[k], value)
            && v.len == |lines[k].value| && (v.len == 0 ==> GapBehind(s, v, value) == 0)
  {
    hide At, HeadersAt;
    TrailAt(s, i, lines, k, rest);
    HeaderOffset(lines, i, k);
  }

  /**
    Editing commutes with parsing a header block: the spliced text parses to the original
    headers with that one value changed, and ends where the original did, moved along.
   */
  lemma EditBlock(s: seq<Byte>, i: nat, n: nat, max: nat, k: nat, value: seq<Byte>)
    requires i <= |s| && n <= max && Headers(s, i, n, max).Ok?
    requires k < |Headers(s, i, n, max).val| && Headers(s, i, n, max).val[k].name.Some? && LegalFieldValue(value)
    ensures var r := Headers(s, i, n, max);
            var v := r.val[k].value;
            i <= v.off && v.End() <= r.pos
    ensures var r := Headers(s, i, n, max);
            var v := r.val[k].value;
            var r' := Headers(Splice(s, v, value), i, n, max);
            && r'.Ok? && r'.pos == r.pos - v.len + |value|
            && Edited(r.val, r'.val, k, |value|, GapBehind(s, v, value))
            && SameTextBut(s, r.val, Splice(s, v, value), r'.val, k, value)
    ensures var v := Headers(s, i, n, max).val[k].value;
            v.len == 0 ==> GapBehind(s, v, value) == 0
  {
    hide Headers, LegalLine, LegalFieldValue, PrintLines, HeadersAt, WithValueAt, WithValue, Edited, At, Splice, GapBehind, Gap, SameTextBut, Reads;
    var r := Headers(s, i, n, max);
    var b := BlockRead(s, i, n, max);
    var rest := s[r.pos..];
    var tail := Eol(b.crlf) + rest;
    var l := b.lines[k];
    LegalAt(b.lines, n == 0, k);
    HeaderOffset(b.lines, i, k);
    var v := r.val[k].value;
    GapIs(s, i, b.lines, k, tail, value);
    var b' := Block(WithValueAt(b.lines, k, value), b.crlf);
    SpliceLines(b.lines, k, value, tail);
    HeadersEdited(b.lines, i, k, value);
    WithValueLines(b.lines, n == 0, k, value);
    AtRest(s, i, PrintBlock(b, rest));
    SpliceInside(s, i, v, value);
    BlockAt(Splice(s, v, value), i, b', rest, n, max);
    LinesRead(s, i, b.lines, tail);
    LinesRead(Splice(s, v, value), i, b'.lines, tail);
    WithValueIndex(b.lines, k, value);
    SameLines(s, r.val, b.lines, Splice(s, v, value), HeadersAt(b'.lines, i), b'.lines, k, value);
  }

  /** Every name and every other value reads as before, and header `k` has the new value. */
  ghost predicate SameTextBut(s: seq<Byte>, hs: seq<Header>, x: seq<Byte>, hs': seq<Header>, k: nat, value: seq<Byte>) {
    && |hs'| == |hs|
    && forall j :: 0 <= j < |hs| ==>
         && hs[j].value.End() <= |s| && hs'[j].value.End() <= |x|
         && x[hs'[j].value.off..hs'[j].value.End()] == (if j == k then value else s[hs[j].value.off..hs[j].value.End()])
         && (hs'[j].name.Some? <==> hs[j].name.Some?)
         && (hs[j].name.Some? ==>
               && hs[j].name.value.End() <= |s| && hs'[j].name.value.End() <= |x|
               && x[hs'[j].name.value.off..hs'[j].name.value.End()] == s[hs[j].name.value.off..hs[j].name.value.End()])
  }

  lemma SameLines(s: seq<Byte>, hs: seq<Header>, lines: seq<Line>, x: seq<Byte>, hs': seq<Header>, lines': seq<Line>, k: nat, value: seq<Byte>)
    requires |hs| == |lines| == |lines'| == |hs'|
    requires forall j :: 0 <= j < |hs| ==> Reads(s, hs[j], lines[j]) && Reads(x, hs'[j], lines'[j])
    requires forall j :: 0 <= j < |hs| ==> lines'[j].value == if j == k then value else lines[j].value
    requires forall j :: 0 <= j < |hs| ==>
               (lines'[j].Named? <==> lines[j].Named?) && (lines[j].Named? ==> lines'[j].name == lines[j].name)
    ensures SameTextBut(s, hs, x, hs', k, value)
  {
    forall j | 0 <= j < |hs| ensures Reads(s, hs[j], lines[j]) && Reads(x, hs'[j], lines'[j]) {}
  }

  lemma WithValueIndex(lines: seq<Line>, k: nat, value: seq<Byte>)
    requires k < |lines| && lines[k].Named?
    ensures var lines' := WithValueAt(lines, k, value);
            |lines'| == |lines| && forall m :: 0 <= m < |lines| ==>
              && lines'[m].value == (if m == k then value else lines[m].value)
              && (lines'[m].Named? <==> lines[m].Named?)
              && (lines[m].Named? ==> lines'[m].name == lines[m].name)
  {
  }

  lemma LegalAt(lines: seq<Line>, first: bool, k: nat)
    requires LegalLines(lines, first) && k < |lines|
    ensures LegalLine(lines[k])
  {
  }

  lemma WithValueLines(lines: seq<Line>, first: bool, k: nat, value: seq<Byte>)
    requires LegalLines(lines, first) && k < |lines| && lines[k].Named? && LegalFieldValue(value)
    ensures LegalLines(WithValueAt(lines, k, value), first) && |WithValueAt(lines, k, value)| == |lines|
  {
    hide LegalLine, LegalFieldValue;
    WithValueLegal(lines[k], value);
    var lines' := WithValueAt(lines, k, value);
    assert forall m :: 0 <= m < |lines| ==> lines'[m] == if m == k then WithValue(lines[k], value) else lines[m];
  }

  /** The offset of a header in the printed block. */
  lemma HeaderOffset(lines: seq<Line>, i: nat, k: nat)
    requires k < |lines|
    ensures HeadersAt(lines, i)[k] == HeaderAt(lines[k], i + LinesSize(lines[..k]))
    ensures LinesSize(lines[..k]) + LineSize(lines[k]) <= LinesSize(lines)
  {
    hide HeadersAt, LineSize;
    var a, l, b := lines[..k], lines[k], lines[k + 1..];
    assert lines == a + ([l] + b);
    HeadersAround(a, l, b, i);
    SizeAround(a, l, b);
    Around(HeadersAt(a, i), HeaderAt(l, i + LinesSize(a)), HeadersAt(b, i + LinesSize(a) + LineSize(l)));
  }

  lemma SpliceInside(s: seq<Byte>, i: nat, v: Slice, value: seq<Byte>)
    requires i <= v.off && v.End() <= |s|
    ensures At(Splice(s, v, value), i, Splice(s[i..], Slice(v.off - i, v.len), value))
  {
  }

  /** What an edit of header `k` of a head must come to, given the two parses. */
  ghost predicate EditedHead(s: seq<Byte>, p: nat, hs: seq<Header>, x: seq<Byte>, p': nat, hs': seq<Header>, k: nat, value: seq<Byte>)
    requires k < |hs| && hs[k].value.End() <= |s|
  {
    && p' == p - hs[k].value.len + |value|
    && SameTextBut(s, hs, x, hs', k, value)
    && Edited(hs, hs', k, |value|, GapBehind(s, hs[k].value, value))
    && (hs[k].value.len == 0 ==> GapBehind(s, hs[k].value, value) == 0)
  }

  lemma SplicePrefix(s: seq<Byte>, v: Slice, value: seq<Byte>, h: nat)
    requires h <= v.off && v.End() <= |s|
    ensures s[..h] <= s && s[..h] <= Splice(s, v, value)
  {
  }

  /** Editing a header of a request: same method, path and version, same other headers. */
  lemma EditRequest(s: seq<Byte>, max: nat, k: nat, value: seq<Byte>)
    requires ParseRequest(s, max).Ok? && k < |ParseRequest(s, max).val.headers|
    requires ParseRequest(s, max).val.headers[k].name.Some? && LegalFieldValue(value)
    ensures ParseRequest(s, max).val.headers[k].value.End() <= |s|
    ensures var r := ParseRequest(s, max);
            var x := Splice(s, r.val.headers[k].value, value);
            var r' := ParseRequest(x, max);
            && r'.Ok?
            && r'.val.(headers := []) == r.val.(headers := [])
            && EditedHead(s, r.pos, r.val.headers, x, r'.pos, r'.val.headers, k, value)
  {
    hide MethodAndPath, VersionLine, Headers, Edited, SameTextBut, LegalFieldValue, GapBehind;
    var v := MethodAndPath(s).pos;
    var h := VersionLine(s, v).pos;
    EditBlock(s, h, 0, max, k, value);
    var slice := ParseRequest(s, max).val.headers[k].value;
    var x, p := Splice(s, slice, value), s[..h];
    SplicePrefix(s, slice, value, h);
    MethodAndPathStable(p, s);
    MethodAndPathStable(p, x);
    VersionLineStable(p, s, v);
    VersionLineStable(p, x, v);
  }

  lemma EditResponse(s: seq<Byte>, max: nat, k: nat, value: seq<Byte>)
    requires ParseResponse(s, max).Ok? && k < |ParseResponse(s, max).val.headers|
    requires ParseResponse(s, max).val.headers[k].name.Some? && LegalFieldValue(value)
    ensures ParseResponse(s, max).val.headers[k].value.End() <= |s|
    ensures var r := ParseResponse(s, max);
            var x := Splice(s, r.val.headers[k].value, value);
            var r' := ParseResponse(x, max);
            && r'.Ok?
            && r'.val.(headers := []) == r.val.(headers := [])
            && EditedHead(s, r.pos, r.val.headers, x, r'.pos, r'.val.headers, k, value)
  {
    hide VersionAndStatus, Message, Headers, Edited, SameTextBut, LegalFieldValue, GapBehind;
    var m := VersionAndStatus(s).pos;
    var h := Message(s, m).pos;
    EditBlock(s, h, 0, max, k, value);
    var slice := ParseResponse(s, max).val.headers[k].value;
    var x, p := Splice(s, slice, value), s[..h];
    SplicePrefix(s, slice, value, h);
    VersionAndStatusStable(p, s);
    VersionAndStatusStable(p, x);
    MessageStable(p, s, m);
    MessageStable(p, x, m);
  }

  // ----- the edit in the buffer -----

  /** `s` with `data` written over it from `dst` on. */
  function Put(s: seq<Byte>, dst: nat, data: seq<Byte>): (x: seq<Byte>)
    requires dst + |data| <= |s|
    ensures |x| == |s|
  {
    s[..dst] + data + s[dst + |data|..]
  }

  method Memmove(buf: array<Byte>, dst: nat, src: nat, n: nat)
    requires dst + n <= buf.Length && src + n <= buf.Length
    modifies buf
    ensures buf[..] == Put(old(buf[..]), dst, old(buf[..])[src..src + n])
  {
    forall k | 0 <= k < n {
      buf[dst + k] := buf[src + k];
    }
  }

  method Memcpy(buf: array<Byte>, dst: nat, data: seq<Byte>)
    requires dst + |data| <= buf.Length
    modifies buf
    ensures buf[..] == Put(old(buf[..]), dst, data)
  {
    forall k | 0 <= k < |data| {
      buf[dst + k] := data[k];
    }
  }

  /** The whole buffer after an edit: the bytes behind the edited text are not touched. */
  function EditedBuffer(all: seq<Byte>, size: nat, v: Slice, value: seq<Byte>): (x: seq<Byte>)
    requires v.End() <= size <= |all| && size - v.len + |value| <= |all|
    ensures |x| == |all| && x[..size - v.len + |value|] == Splice(all[..size], v, value)
  {
    Splice(all[..size], v, value) + all[size - v.len + |value|..]
  }

  lemma ShrinkPut(all: seq<Byte>, size: nat, v: Slice, value: seq<Byte>)
    requires v.End() <= size <= |all| && |value| < v.len
    ensures var a, d := Put(all, v.off, value), v.off + |value|;
            Put(a, d, a[v.End()..size]) == EditedBuffer(all, size, v, value)
  {
    var a, d := Put(all, v.off, value), v.off + |value|;
    assert a[v.End()..size] == all[v.End()..size];
    assert a[..d] == all[..v.off] + value;
    assert a[d + (size - v.End())..] == all[d + (size - v.End())..];
    SpliceOfPrefix(all, size, v, value);
  }

  lemma GrowPut(all: seq<Byte>, size: nat, v: Slice, value: seq<Byte>)
    requires v.End() <= size <= |all| && size - v.len + |value| <= |all| && |value| > v.len
    ensures var d := v.off + |value|;
            Put(Put(all, d, all[v.End()..size]), v.off, value) == EditedBuffer(all, size, v, value)
  {
    var d, tail := v.off + |value|, all[v.End()..size];
    var b := Put(all, d, tail);
    assert b[..v.off] == all[..v.off];
    assert b[d..] == tail + all[d + |tail|..];
    SpliceOfPrefix(all, size, v, value);
  }

  lemma EqualPut(all: seq<Byte>, size: nat, v: Slice, value: seq<Byte>)
    requires v.End() <= size <= |all| && |value| == v.len
    ensures Put(all, v.off, value) == EditedBuffer(all, size, v, value)
  {
    assert all[v.End()..] == all[v.End()..size] + all[size..];
    SpliceOfPrefix(all, size, v, value);
  }

  lemma SpliceOfPrefix(all: seq<Byte>, size: nat, v: Slice, value: seq<Byte>)
    requires v.End() <= size <= |all|
    ensures Splice(all[..size], v, value) == all[..v.off] + value + all[v.End()..size]
  {
    assert all[..size][..v.off] == all[..v.off] && all[..size][v.End()..] == all[v.End()..size];
  }

  /**
    Replaces the value in the first `size` bytes of the buffer.  The order of the two moves
    depends on which of the values is longer; the buffer must have room for the result.
   */
  method ReplaceValue(buf: array<Byte>, size: nat, v: Slice, value: seq<Byte>)
    requires v.End() <= size <= buf.Length && size - v.len + |value| <= buf.Length
    modifies buf
    ensures buf[..] == EditedBuffer(old(buf[..]), size, v, value)
  {
    hide EditedBuffer, Put;
    var moveSize := size - v.End();
    ghost var all := buf[..];
    if v.len > |value| {
      Memcpy(buf, v.off, value);
      Memmove(buf, v.off + |value|, v.End(), moveSize);
      ShrinkPut(all, size, v, value);
    } else if v.len < |value| {
      Memmove(buf, v.off + |value|, v.End(), moveSize);
      Memcpy(buf, v.off, value);
      GrowPut(all, size, v, value);
    } else {
      Memcpy(buf, v.off, value);
      EqualPut(all, size, v, value);
    }
  }
}
