/**
  The parsers on the bytes, in numbers: what blanks do, and exactly when the answer is that
  more input is needed.  Nothing here is stated by means of the parsers' own character
  classes, or of the steps they take.
 */
module HttpBytes {
  import opened Bytes
  import opened HttpGrammar
  import opened HttpStability
  import opened HttpPrint

  // ----- blanks -----

  predicate Blank(b: Byte) { b == 9 || b == 32 }

  predicate Blanks(s: seq<Byte>) {
    forall k :: 0 <= k < |s| ==> Blank(s[k])
  }

  predicate TextByte(b: Byte) { b == 9 || 32 <= b <= 126 || 128 <= b }

  predicate Texts(s: seq<Byte>) {
    forall k :: 0 <= k < |s| ==> TextByte(s[k])
  }

  /** Nothing to trim, in front or behind. */
  predicate Trimmed(s: seq<Byte>) {
    s != [] ==> !Blank(s[0]) && !Blank(s[|s| - 1])
  }

  function Eols(crlf: bool): seq<Byte> {
    if crlf then [13, 10] else [10]
  }

  /** A named line with any blanks around its value is legal. */
  lemma NamedIsLegal(name: seq<Byte>, lead: seq<Byte>, value: seq<Byte>, trail: seq<Byte>, crlf: bool)
    requires name != [] && AllBytes(name, IsTchar) && Blanks(lead) && Blanks(trail)
    requires Texts(value) && Trimmed(value) && (value == [] ==> trail == [])
    ensures LegalLine(Named(name, lead, value, trail, crlf))
  {
    forall k | 0 <= k < |value| ensures IsText(value[k]) { ClassesOnNumbers(value[k]); }
  }

  /** So is a line that begins with a space or a tab, as the continuation of another. */
  lemma FoldIsLegal(value: seq<Byte>, trail: seq<Byte>, crlf: bool)
    requires Texts(value) && (value != [] ==> !Blank(value[|value| - 1])) && Blanks(trail)
    requires value + trail != [] && Blank((value + trail)[0])
    ensures LegalLine(Fold(value, trail, crlf))
  {
    forall k | 0 <= k < |value| ensures IsText(value[k]) { ClassesOnNumbers(value[k]); }
  }

  function NamedText(name: seq<Byte>, lead: seq<Byte>, value: seq<Byte>, trail: seq<Byte>, crlf: bool): seq<Byte> {
    name + [58] + lead + value + trail + Eols(crlf)
  }

  /**
    A header whose value stands between any strings of spaces and tabs parses to exactly that
    value, whatever follows the block.
   */
  lemma NamedLineParses(name: seq<Byte>, lead: seq<Byte>, value: seq<Byte>, trail: seq<Byte>, crlf: bool, last: bool, rest: seq<Byte>, max: nat)
    requires name != [] && AllBytes(name, IsTchar) && Blanks(lead) && Blanks(trail) && max >= 1
    requires Texts(value) && Trimmed(value) && (value == [] ==> trail == [])
    ensures var line := NamedText(name, lead, value, trail, crlf);
            ParseHeaders(line + Eols(last) + rest, max) ==
              Ok(|line| + |Eols(last)|, [Header(Some(Slice(0, |name|)), Slice(|name| + 1 + |lead|, |value|))])
  {
    hide Headers, LegalLine, Texts, Trimmed, Blanks;
    NamedIsLegal(name, lead, value, trail, crlf);
    var l := Named(name, lead, value, trail, crlf);
    var b := Block([l], last);
    OneLine(l, Eol(last) + rest);
    NamedPrints(name, lead, value, trail, crlf, Eol(last) + rest);
    var s := NamedText(name, lead, value, trail, crlf) + Eols(last) + rest;
    assert s == NamedText(name, lead, value, trail, crlf) + (Eol(last) + rest);
    assert s[0..] == s;
    BlockAt(s, 0, b, rest, 0, max);
  }

  lemma OneLine(l: Line, rest: seq<Byte>)
    ensures PrintLines([l], rest) == PrintLine(l, rest) && LinesSize([l]) == LineSize(l)
    ensures forall i: nat :: HeadersAt([l], i) == [HeaderAt(l, i)]
    ensures LegalLine(l) && l.Named? ==> LegalLines([l], true)
  {
    hide PrintLine, LineSize, HeaderAt, LegalLine;
    assert [l][1..] == [];
  }

  lemma NamedPrints(name: seq<Byte>, lead: seq<Byte>, value: seq<Byte>, trail: seq<Byte>, crlf: bool, rest: seq<Byte>)
    ensures PrintLine(Named(name, lead, value, trail, crlf), rest) == NamedText(name, lead, value, trail, crlf) + rest
  {
    var e := Eols(crlf);
    assert trail + (e + rest) == (trail + e) + rest;
    assert lead + (value + ((trail + e) + rest)) == (lead + value + trail + e) + rest;
    assert name + ([COLON] + ((lead + value + trail + e) + rest)) == (name + [58] + lead + value + trail + e) + rest;
  }

  /**
    A second line that begins with a space or a tab is a record without a name; its value
    begins with that blank and ends before the last blanks of the line.
   */
  lemma FoldParses(name: seq<Byte>, first: seq<Byte>, value: seq<Byte>, trail: seq<Byte>, rest: seq<Byte>, max: nat)
    requires name != [] && AllBytes(name, IsTchar) && Texts(first) && Trimmed(first) && max >= 2
    requires Texts(value) && (value != [] ==> !Blank(value[|value| - 1])) && Blanks(trail)
    requires value + trail != [] && Blank((value + trail)[0])
    ensures var line := NamedText(name, [], first, [], false);
            var s := line + value + trail + [10, 10] + rest;
            ParseHeaders(s, max) ==
              Ok(|s| - |rest|, [Header(Some(Slice(0, |name|)), Slice(|name| + 1, |first|)), Header(None, Slice(|line|, |value|))])
  {
    hide Headers, LegalLine, Texts, Trimmed, Blanks, Blank, PrintLine, NamedText, LineSize, HeaderAt;
    NothingIsBlank();
    NamedIsLegal(name, [], first, [], false);
    FoldIsLegal(value, trail, false);
    var l0, l1 := Named(name, [], first, [], false), Fold(value, trail, false);
    var b := Block([l0, l1], false);
    var end := Eol(false) + rest;
    var line := NamedText(name, [], first, [], false);
    var s := line + value + trail + [10, 10] + rest;
    TwoLines(l0, l1, end);
    NamedPrints(name, [], first, [], false, PrintLine(l1, end));
    FoldPrints(line, value, trail, rest);
    FoldSizes(name, first, value, trail);
    assert s[0..] == s;
    BlockAt(s, 0, b, rest, 0, max);
  }

  lemma FoldPrints(line: seq<Byte>, value: seq<Byte>, trail: seq<Byte>, rest: seq<Byte>)
    ensures line + PrintLine(Fold(value, trail, false), Eol(false) + rest) == line + value + trail + [10, 10] + rest
  {
    assert [10] + ([10] + rest) == [10, 10] + rest;
    assert value + (trail + ([10, 10] + rest)) == value + trail + [10, 10] + rest;
  }

  lemma FoldSizes(name: seq<Byte>, first: seq<Byte>, value: seq<Byte>, trail: seq<Byte>)
    ensures var l := Named(name, [], first, [], false);
            && LineSize(l) == |NamedText(name, [], first, [], false)|
            && HeaderAt(l, 0) == Header(Some(Slice(0, |name|)), Slice(|name| + 1, |first|))
    ensures LineSize(Fold(value, trail, false)) == |value| + |trail| + 1
    ensures forall i: nat :: HeaderAt(Fold(value, trail, false), i) == Header(None, Slice(i, |value|))
  {
  }

  lemma NothingIsBlank()
    ensures Blanks([])
  {
  }

  lemma TwoLines(a: Line, b: Line, rest: seq<Byte>)
    ensures PrintLines([a, b], rest) == PrintLine(a, PrintLine(b, rest)) && LinesSize([a, b]) == LineSize(a) + LineSize(b)
    ensures forall i: nat :: HeadersAt([a, b], i) == [HeaderAt(a, i), HeaderAt(b, i + LineSize(a))]
    ensures LegalLine(a) && LegalLine(b) && a.Named? ==> LegalLines([a, b], true)
  {
    hide PrintLine, LineSize, HeaderAt, LegalLine;
    assert [a, b][1..] == [b];
    OneLine(b, rest);
    forall i: nat ensures HeadersAt([a, b], i) == [HeaderAt(a, i), HeaderAt(b, i + LineSize(a))] {
      assert HeadersAt([b], i + LineSize(a)) == [HeaderAt(b, i + LineSize(a))];
    }
  }

  // ----- what is accepted -----

  /** From `i` to `j` there are only blanks. */
  ghost predicate BlanksFrom(s: seq<Byte>, i: nat, j: nat) {
    i <= j <= |s| && forall k :: i <= k < j ==> Blank(s[k])
  }

  /** What the bytes are around the parts of a header whose line starts at `start`. */
  ghost predicate RecordOnBytes(s: seq<Byte>, start: nat, h: Header, foldable: bool) {
    && start < |s| && h.value.End() <= |s|
    && (h.name.None? <==> foldable && Blank(s[start]))
    && (h.value.len > 0 ==> !Blank(s[h.value.End() - 1]))
    && match h.name
       case None => h.value.off == start
       case Some(n) =>
         && n.off == start && n.len > 0 && n.End() < |s| && s[n.End()] == 58
         && BlanksFrom(s, n.End() + 1, h.value.off)
         && (h.value.len > 0 ==> !Blank(s[h.value.off]))
  }

  /** Behind a value there are only blanks up to the line end. */
  ghost predicate LineBehind(s: seq<Byte>, v: Slice) {
    exists e :: v.End() <= e < |s| && BlanksFrom(s, v.End(), e) && (s[e] == 10 || s[e] == 13)
  }

  lemma LineOnBytes(s: seq<Byte>, i: nat, foldable: bool)
    requires i < |s| && HeaderLine(s, i, foldable).Ok?
    ensures RecordOnBytes(s, i, HeaderLine(s, i, foldable).val, foldable)
    ensures LineBehind(s, HeaderLine(s, i, foldable).val.value)
  {
    hide At, HeaderLine, PrintLine, RecordOnBytes, LineBehind, LegalLine, HeaderAt, LineSize;
    var r := HeaderLine(s, i, foldable);
    var l := LineRead(s, i, foldable);
    if l.Named? {
      NamedOnBytes(s, i, l, s[r.pos..], foldable);
    } else {
      FoldOnBytes(s, i, l, s[r.pos..], foldable);
    }
  }

  lemma NamedOnBytes(s: seq<Byte>, i: nat, l: Line, rest: seq<Byte>, foldable: bool)
    requires At(s, i, PrintLine(l, rest)) && LegalLine(l) && l.Named?
    ensures i < |s| && RecordOnBytes(s, i, HeaderAt(l, i), foldable) && LineBehind(s, HeaderAt(l, i).value)
  {
    hide At, LineBehind, Eol, AllBytes, RecordOnBytes;
    var tail := l.trail + (Eol(l.crlf) + rest);
    var v := i + |l.name| + 1 + |l.lead|;
    NameOnBytes(s, i, l.name, l.lead, l.value + tail);
    ValueOnBytes(s, v, l.value, tail);
    BehindOnBytes(s, v + |l.value|, l.trail, l.crlf, rest, Slice(v, |l.value|));
    assert RecordOnBytes(s, i, HeaderAt(l, i), foldable) by { NamedRecord(s, i, |l.name|, |l.lead|, l.value, foldable); }
  }

  lemma NameOnBytes(s: seq<Byte>, i: nat, name: seq<Byte>, lead: seq<Byte>, text: seq<Byte>)
    requires At(s, i, name + ([COLON] + (lead + text))) && name != [] && AllBytes(name, IsTchar) && AllBytes(lead, IsBlank)
    ensures var j := i + |name|;
            && j < |s| && !Blank(s[i]) && s[j] == 58 && BlanksFrom(s, j + 1, j + 1 + |lead|)
            && At(s, j + 1 + |lead|, text)
  {
    hide At;
    var j := i + |name|;
    AtPart(s, i, name, [COLON] + (lead + text));
    AtPart(s, j, [COLON], lead + text);
    AtPart(s, j + 1, lead, text);
    assert IsTchar(name[0]) && s[i] == name[0];
    BlanksAre(s, j + 1, lead);
  }

  lemma ValueOnBytes(s: seq<Byte>, v: nat, value: seq<Byte>, tail: seq<Byte>)
    requires At(s, v, value + tail) && LegalFieldValue(value)
    ensures v + |value| <= |s| && At(s, v + |value|, tail)
    ensures value != [] ==> !Blank(s[v]) && !Blank(s[v + |value| - 1])
  {
    hide At;
    AtPart(s, v, value, tail);
    if value != [] {
      assert s[v] == value[0] && s[v + |value| - 1] == value[|value| - 1];
    }
  }

  lemma NamedRecord(s: seq<Byte>, i: nat, n: nat, lead: nat, value: seq<Byte>, foldable: bool)
    requires n > 0 && i + n < |s| && !Blank(s[i]) && s[i + n] == 58 && BlanksFrom(s, i + n + 1, i + n + 1 + lead)
    requires i + n + 1 + lead + |value| <= |s|
    requires value != [] ==> !Blank(s[i + n + 1 + lead]) && !Blank(s[i + n + 1 + lead + |value| - 1])
    ensures RecordOnBytes(s, i, Header(Some(Slice(i, n)), Slice(i + n + 1 + lead, |value|)), foldable)
  {
    hide BlanksFrom;
  }

  lemma BlanksAre(s: seq<Byte>, i: nat, t: seq<Byte>)
    requires i + |t| <= |s| && AllBytes(t, IsBlank) && forall k :: i <= k < i + |t| ==> s[k] == t[k - i]
    ensures BlanksFrom(s, i, i + |t|)
  {
    forall k | i <= k < i + |t| ensures Blank(s[k]) { assert IsBlank(t[k - i]); }
  }

  lemma FoldOnBytes(s: seq<Byte>, i: nat, l: Line, rest: seq<Byte>, foldable: bool)
    requires At(s, i, PrintLine(l, rest)) && LegalLine(l) && l.Fold? && foldable
    ensures i < |s| && RecordOnBytes(s, i, HeaderAt(l, i), foldable) && LineBehind(s, HeaderAt(l, i).value)
  {
    hide At, LineBehind, Eol, RecordOnBytes;
    var end := Eol(l.crlf) + rest;
    AtPart(s, i, l.value, l.trail + end);
    BehindOnBytes(s, i + |l.value|, l.trail, l.crlf, rest, Slice(i, |l.value|));
    FoldStart(s, i, l.value, l.trail, end);
    FoldRecord(s, i, l.value, l.trail);
  }

  lemma FoldRecord(s: seq<Byte>, i: nat, value: seq<Byte>, trail: seq<Byte>)
    requires LegalValue(value) && value + trail != [] && IsBlank((value + trail)[0])
    requires i < |s| && i + |value| <= |s| && s[i] == (value + trail)[0]
    requires forall k :: i <= k < i + |value| ==> s[k] == value[k - i]
    ensures RecordOnBytes(s, i, Header(None, Slice(i, |value|)), true)
  {
    if value != [] { assert s[i + |value| - 1] == value[|value| - 1]; }
  }

  lemma BehindOnBytes(s: seq<Byte>, i: nat, trail: seq<Byte>, crlf: bool, rest: seq<Byte>, v: Slice)
    requires At(s, i, trail + (Eol(crlf) + rest)) && AllBytes(trail, IsBlank) && v.End() == i
    ensures LineBehind(s, v)
  {
    hide At, Eol;
    AtPart(s, i, trail, Eol(crlf) + rest);
    BlanksAre(s, i, trail);
    AtFirstByte(s, i + |trail|, crlf, rest);
  }

  lemma FoldStart(s: seq<Byte>, i: nat, value: seq<Byte>, trail: seq<Byte>, end: seq<Byte>)
    requires At(s, i, value + (trail + end)) && value + trail != []
    ensures i < |s| && s[i] == (value + trail)[0]
  {
    assert s[i..][0] == (value + (trail + end))[0];
  }

  lemma AtFirstByte(s: seq<Byte>, e: nat, crlf: bool, rest: seq<Byte>)
    requires At(s, e, Eol(crlf) + rest)
    ensures e < |s| && (s[e] == 10 || s[e] == 13)
  {
    assert s[e..][0] == Eol(crlf)[0];
  }

  /** Records of lines of which the first starts at `i`, and each other behind a line feed. */
  ghost predicate RecordsOnBytes(s: seq<Byte>, hs: seq<Header>, i: nat, n: nat) {
    forall j :: 0 <= j < |hs| ==>
      && RecordOnBytes(s, HeaderStart(hs[j]), hs[j], n + j > 0) && LineBehind(s, hs[j].value)
      && if j == 0 then HeaderStart(hs[j]) == i
         else 0 < HeaderStart(hs[j]) <= |s| && s[HeaderStart(hs[j]) - 1] == 10
  }

  lemma RecordsJoin(s: seq<Byte>, h: Header, hs: seq<Header>, i: nat, n: nat, p: nat)
    requires i < |s| && RecordOnBytes(s, i, h, n > 0) && LineBehind(s, h.value)
    requires 0 < p <= |s| && s[p - 1] == 10 && RecordsOnBytes(s, hs, p, n + 1)
    ensures RecordsOnBytes(s, [h] + hs, i, n)
  {
    hide RecordOnBytes, LineBehind;
    RecordStarts(s, i, h, n > 0);
    var all := [h] + hs;
    forall j | 0 <= j < |all|
      ensures RecordOnBytes(s, HeaderStart(all[j]), all[j], n + j > 0) && LineBehind(s, all[j].value)
      ensures if j == 0 then HeaderStart(all[j]) == i
              else 0 < HeaderStart(all[j]) <= |s| && s[HeaderStart(all[j]) - 1] == 10
    {
      if j > 0 { assert all[j] == hs[j - 1]; }
    }
  }

  /** Each record of an accepted block, on the bytes: from the second on, a blank in front means no name. */
  lemma {:induction false} HeadersOnBytes(s: seq<Byte>, i: nat, n: nat, max: nat)
    requires i <= |s| && n <= max && Headers(s, i, n, max).Ok?
    ensures RecordsOnBytes(s, Headers(s, i, n, max).val, i, n)
    decreases |s| - i
  {
    hide HeaderLine, RecordOnBytes, LineBehind;
    if !LineEnd(s, i).val {
      hide RecordsOnBytes;
      var r := HeaderLine(s, i, n > 0);
      LineOnBytes(s, i, n > 0);
      HeaderLineShape(s, i, n > 0);
      HeadersOnBytes(s, r.pos, n + 1, max);
      RecordsJoin(s, r.val, Headers(s, r.pos, n + 1, max).val, i, n, r.pos);
    }
  }

  lemma RecordStarts(s: seq<Byte>, i: nat, h: Header, foldable: bool)
    requires RecordOnBytes(s, i, h, foldable)
    ensures HeaderStart(h) == i
  {
  }

  // ----- when more input is needed -----

  predicate Space(b: Byte) { b == 32 }

  predicate TargetByte(b: Byte) { 33 <= b && b != 127 }

  /** The first index from `i` on whose byte is not of the kind `p`; the end, if there is none. */
  function First(s: seq<Byte>, i: nat, p: Byte -> bool): (k: nat)
    requires i <= |s|
    ensures i <= k <= |s| && (forall j :: i <= j < k ==> p(s[j])) && (k < |s| ==> !p(s[k]))
    decreases |s| - i
  {
    if i == |s| || !p(s[i]) then i else First(s, i + 1, p)
  }

  /** The eight bytes of a version. */
  predicate VersionOnBytes(s: seq<Byte>, v: nat) {
    && v + 8 <= |s| && s[v] == 72 && s[v + 1] == 84 && s[v + 2] == 84 && s[v + 3] == 80 && s[v + 4] == 47
    && s[v + 5] == 49 && s[v + 6] == 46 && 48 <= s[v + 7] <= 57
  }

  predicate ThreeDigits(s: seq<Byte>, c: nat) {
    c + 3 <= |s| && 48 <= s[c] <= 57 && 48 <= s[c + 1] <= 57 && 48 <= s[c + 2] <= 57
  }

  /** The line ends at `e`, and the next one begins at `h`. */
  predicate NextLine(s: seq<Byte>, e: nat, h: nat) {
    e < h <= |s| && ((s[e] == 10 && h == e + 1) || (s[e] == 13 && h == e + 2 && s[e + 1] == 10))
  }

  /** A carriage return is the last byte that has arrived. */
  predicate CrLast(s: seq<Byte>, e: nat) {
    e + 1 == |s| && s[e] == 13
  }

  /** The header lines from `h` on are not finished. */
  predicate HeadersWait(s: seq<Byte>, h: nat, max: nat)
    requires h <= |s|
  {
    Headers(s, h, 0, max) == Partial
  }

  /**
    When a response needs more input: before its ninth byte; when version and spaces are there
    but not four more bytes; when three digits are there but not the end of their line; and
    when the header lines behind that are not finished.
   */
  ghost predicate ResponseWaits(s: seq<Byte>, max: nat) {
    || |s| < 9
    || (&& VersionOnBytes(s, 0) && s[8] == 32
        && var c := First(s, 9, Space);
           || |s| - c < 4
           || (&& ThreeDigits(s, c)
               && var e := First(s, c + 3, TextByte);
                  || e == |s| || CrLast(s, e)
                  || ((e == c + 3 || s[c + 3] == 32) && exists h :: NextLine(s, e, h) && HeadersWait(s, h, max))))
  }

  /** From the version of a request on. */
  ghost predicate VersionWaits(s: seq<Byte>, v: nat, max: nat)
    requires v <= |s|
  {
    || |s| - v < 9
    || (&& VersionOnBytes(s, v)
        && (CrLast(s, v + 8) || exists h :: NextLine(s, v + 8, h) && HeadersWait(s, h, max)))
  }

  /** Where the method begins: behind the line end that may come first. */
  function MethodStart(s: seq<Byte>): (m: nat)
    requires s != []
  {
    if s[0] == 10 then 1 else if s[0] == 13 then 2 else 0
  }

  /**
    When a request needs more input.  That the method is missing counts only once the target,
    the spaces behind it and one more byte are there; the version once nine bytes of it are.
   */
  ghost predicate RequestWaits(s: seq<Byte>, max: nat) {
    || s == [] || s == [13]
    || (&& (s[0] == 13 ==> s[1] == 10)
        && var m := MethodStart(s);
           var me := First(s, m, IsTchar);
           || me == |s|
           || (&& s[me] == 32
               && var te := First(s, First(s, me + 1, Space), TargetByte);
                  || te == |s|
                  || (&& s[te] == 32
                      && var v := First(s, te + 1, Space);
                         || v == |s|
                         || (me > m && VersionWaits(s, v, max)))))
  }

  lemma {:induction false} TokenIs(s: seq<Byte>, i: nat)
    requires i <= |s|
    ensures var e := First(s, i, IsTchar);
            ScanToken(s, i, SP) == if e == |s| then Partial else if s[e] == 32 then Ok(e, ()) else Failed
    decreases |s| - i
  {
    if i < |s| && IsTchar(s[i]) { TokenIs(s, i + 1); }
  }

  lemma {:induction false} TargetIs(s: seq<Byte>, i: nat)
    requires i <= |s|
    ensures var e := First(s, i, TargetByte);
            ScanTarget(s, i) == if e == |s| then Partial else if s[e] == 32 then Ok(e, ()) else Failed
    decreases |s| - i
  {
    if i < |s| {
      ClassesOnNumbers(s[i]);
      if TargetByte(s[i]) { TargetIs(s, i + 1); }
    }
  }

  lemma {:induction false} SpacesAre(s: seq<Byte>, i: nat)
    requires i <= |s|
    ensures var k := First(s, i, Space);
            SkipSpaces(s, i) == if k == |s| then Partial else Ok(k, ())
    decreases |s| - i
  {
    if i < |s| && Space(s[i]) { SpacesAre(s, i + 1); }
  }

  lemma LineEndIs(s: seq<Byte>, e: nat)
    requires e <= |s|
    ensures LineEnd(s, e) == Partial <==> e == |s| || CrLast(s, e)
    ensures LineEnd(s, e).Ok? && LineEnd(s, e).val ==> NextLine(s, e, LineEnd(s, e).pos)
    ensures forall h :: NextLine(s, e, h) ==> LineEnd(s, e) == Ok(h, true)
  {
  }

  lemma {:induction false} TextIs(s: seq<Byte>, i: nat)
    requires i <= |s|
    ensures var e := First(s, i, TextByte);
            && (ScanEol(s, i) == Partial <==> e == |s| || CrLast(s, e))
            && (ScanEol(s, i).Ok? ==> ScanEol(s, i).val == e && NextLine(s, e, ScanEol(s, i).pos))
            && forall h :: NextLine(s, e, h) ==> ScanEol(s, i) == Ok(h, e)
    decreases |s| - i
  {
    if i < |s| {
      ClassesOnNumbers(s[i]);
      if TextByte(s[i]) { TextIs(s, i + 1); } else { LineEndIs(s, i); }
    }
  }

  lemma VersionIs(s: seq<Byte>, v: nat)
    requires v <= |s|
    ensures Version(s, v) == Partial <==> |s| - v < 9
    ensures Version(s, v).Ok? <==> |s| - v >= 9 && VersionOnBytes(s, v)
  {
    if |s| - v >= 9 {
      var p := s[v..v + 7];
      assert forall k :: 0 <= k < |p| ==> p[k] == s[v + k];
      if p == HTTP1 {
        assert p[0] == 72 && p[1] == 84 && p[2] == 84 && p[3] == 80 && p[4] == 47 && p[5] == 49 && p[6] == 46;
      }
    }
  }

  lemma StatusIs(s: seq<Byte>, c: nat)
    requires c <= |s|
    ensures Status(s, c) == Partial <==> |s| - c < 4
    ensures Status(s, c).Ok? <==> |s| - c >= 4 && ThreeDigits(s, c)
  {
  }

  lemma MessageIs(s: seq<Byte>, m: nat)
    requires m <= |s|
    ensures var e := First(s, m, TextByte);
            && (Message(s, m) == Partial <==> e == |s| || CrLast(s, e))
            && (Message(s, m).Ok? ==> NextLine(s, e, Message(s, m).pos) && (e == m || s[m] == 32))
            && forall h :: NextLine(s, e, h) && (e == m || s[m] == 32) ==> Message(s, m).Ok? && Message(s, m).pos == h
  {
    hide ScanEol, First, NextLine, CrLast;
    TextIs(s, m);
  }

  /** The answer for a response is -2 in exactly these cases. */
  lemma ResponsePartialExactly(s: seq<Byte>, max: nat)
    ensures ParseResponse(s, max) == Partial <==> ResponseWaits(s, max)
  {
    hide Version, Status, Message, SkipSpaces, Headers, First, NextLine, CrLast, ThreeDigits, VersionOnBytes;
    VersionIs(s, 0);
    if Version(s, 0).Ok? && s[8] == 32 {
      SpacesAre(s, 9);
      var c := First(s, 9, Space);
      StatusIs(s, c);
      if Status(s, c).Ok? { MessageIs(s, c + 3); }
    }
  }

  lemma VersionWaitsExactly(s: seq<Byte>, v: nat, max: nat)
    requires v <= |s|
    ensures var l := VersionLine(s, v);
            (l == Partial || (l.Ok? && HeadersWait(s, l.pos, max))) <==> VersionWaits(s, v, max)
  {
    hide Version, HeadersWait, NextLine, CrLast, VersionOnBytes, LineEnd;
    VersionIs(s, v);
    if Version(s, v).Ok? {
      LineEndIs(s, v + 8);
      OnlyOneNextLine(s, v + 8);
    }
  }

  lemma OnlyOneNextLine(s: seq<Byte>, e: nat)
    ensures forall h, h' :: NextLine(s, e, h) && NextLine(s, e, h') ==> h == h'
    ensures CrLast(s, e) ==> forall h :: !NextLine(s, e, h)
  {
  }

  /** Method and target, up to the version at `v`. */
  lemma MethodAndPathIs(s: seq<Byte>)
    requires LineEnd(s, 0).Ok?
    ensures s != [] && MethodStart(s) <= |s|
    ensures var m := MethodStart(s);
            var me := First(s, m, IsTchar);
            var r := MethodAndPath(s);
            if me == |s| then r == Partial
            else if s[me] != 32 then r == Failed
            else
              var te := First(s, First(s, me + 1, Space), TargetByte);
              if te == |s| then r == Partial
              else if s[te] != 32 then r == Failed
              else
                var v := First(s, te + 1, Space);
                if v == |s| then r == Partial
                else if me == m then r == Failed
                else r.Ok? && r.pos == v
  {
    hide ScanToken, ScanTarget, SkipSpaces, First, MethodAndPath, LineEnd, MethodStart, Space, TargetByte;
    LineEndAtStart(s);
    var m := MethodStart(s);
    TokenIs(s, m);
    MethodEnds(s);
    var me := First(s, m, IsTchar);
    if me < |s| && s[me] == 32 { TargetIsBehind(s, me); }
  }

  /** From the space behind the method on. */
  lemma TargetIsBehind(s: seq<Byte>, me: nat)
    requires LineEnd(s, 0).Ok? && ScanToken(s, LineEnd(s, 0).pos, SP) == Ok(me, ()) && me < |s|
    ensures var r := MethodAndPath(s);
            var te := First(s, First(s, me + 1, Space), TargetByte);
            if te == |s| then r == Partial
            else if s[te] != 32 then r == Failed
            else
              var v := First(s, te + 1, Space);
              if v == |s| then r == Partial
              else if me == LineEnd(s, 0).pos then r == Failed
              else r.Ok? && r.pos == v
  {
    hide ScanToken, ScanTarget, SkipSpaces, First, MethodAndPath, LineEnd, Space, TargetByte;
    SpacesAre(s, me + 1);
    var t := First(s, me + 1, Space);
    var te := First(s, t, TargetByte);
    if t == |s| {
      SpacesEnd(s, me);
    } else {
      TargetIs(s, t);
      TargetEnds(s, me, t);
      if te < |s| && s[te] == 32 {
        SpacesAre(s, te + 1);
        VersionBegins(s, me, t, te);
      }
    }
  }

  lemma MethodEnds(s: seq<Byte>)
    requires LineEnd(s, 0).Ok?
    ensures var r := ScanToken(s, LineEnd(s, 0).pos, SP);
            !r.Ok? ==> MethodAndPath(s) == if r == Partial then Partial else Failed
  {
    hide ScanToken;
  }

  lemma SpacesEnd(s: seq<Byte>, me: nat)
    requires LineEnd(s, 0).Ok? && ScanToken(s, LineEnd(s, 0).pos, SP) == Ok(me, ())
    requires me < |s| && SkipSpaces(s, me + 1) == Partial
    ensures MethodAndPath(s) == Partial
  {
    hide ScanToken, SkipSpaces;
  }

  lemma TargetEnds(s: seq<Byte>, me: nat, t: nat)
    requires LineEnd(s, 0).Ok? && ScanToken(s, LineEnd(s, 0).pos, SP) == Ok(me, ())
    requires me < |s| && SkipSpaces(s, me + 1) == Ok(t, ()) && t < |s|
    ensures !ScanTarget(s, t).Ok? ==> MethodAndPath(s) == if ScanTarget(s, t) == Partial then Partial else Failed
  {
    hide ScanToken, SkipSpaces, ScanTarget;
  }

  lemma VersionBegins(s: seq<Byte>, me: nat, t: nat, te: nat)
    requires LineEnd(s, 0).Ok? && ScanToken(s, LineEnd(s, 0).pos, SP) == Ok(me, ())
    requires me < |s| && SkipSpaces(s, me + 1) == Ok(t, ()) && t < |s| && ScanTarget(s, t) == Ok(te, ()) && te < |s|
    ensures var v := SkipSpaces(s, te + 1);
            && (!v.Ok? ==> MethodAndPath(s) == Partial)
            && (v.Ok? ==> if me == LineEnd(s, 0).pos then MethodAndPath(s) == Failed
                          else MethodAndPath(s).Ok? && MethodAndPath(s).pos == v.pos)
  {
    hide ScanToken, ScanTarget, SkipSpaces, LineEnd;
    TargetIsNotEmpty(s, t);
  }

  lemma TargetIsNotEmpty(s: seq<Byte>, t: nat)
    requires t < |s| && s[t] != SP
    ensures ScanTarget(s, t) != Ok(t, ())
  {
  }

  lemma LineEndAtStart(s: seq<Byte>)
    ensures LineEnd(s, 0) == Partial <==> s == [] || s == [13]
    ensures LineEnd(s, 0).Ok? <==> s != [] && s != [13] && (s[0] == 13 ==> s[1] == 10)
    ensures LineEnd(s, 0).Ok? ==> LineEnd(s, 0).pos == MethodStart(s)
  {
  }

  /** The answer for a request is -2 in exactly these cases. */
  lemma RequestPartialExactly(s: seq<Byte>, max: nat)
    ensures ParseRequest(s, max) == Partial <==> RequestWaits(s, max)
  {
    hide MethodAndPath, VersionLine, Headers, First, LineEnd, VersionOnBytes, NextLine, CrLast, MethodStart, Space, TargetByte;
    LineEndAtStart(s);
    if LineEnd(s, 0).Ok? {
      MethodAndPathIs(s);
      if MethodAndPath(s).Ok? { VersionWaitsExactly(s, MethodAndPath(s).pos, max); }
    } else {
      NoMethodAndPath(s);
    }
  }

  lemma NoMethodAndPath(s: seq<Byte>)
    requires !LineEnd(s, 0).Ok?
    ensures MethodAndPath(s) == if LineEnd(s, 0) == Partial then Partial else Failed
  {
  }

  /** Hopeless, and reported as partial: a space alone, and a response whose status is `x`. */
  lemma StillPartial(max: nat)
    ensures ParseRequest([32], max) == Partial
    ensures ParseResponse([72, 84, 84, 80, 47, 49, 46, 49, 32, 120], max) == Partial
  {
    hide ParseRequest, ParseResponse;
    RequestPartialExactly([32], max);
    ResponsePartialExactly([72, 84, 84, 80, 47, 49, 46, 49, 32, 120], max);
  }
}
