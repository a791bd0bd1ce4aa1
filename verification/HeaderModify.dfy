/**
  The routine that replaces a header value in the buffer of a parsed message.  It scans the
  records, compares names by machine words, and edits every match where its record says the
  value is.  Records are not moved along with the text they describe, so what it does to the
  message depends on what the records behind an edited one then point at: the exact condition
  under which it does the one edit that was asked for is proved, with an input that fails it.
 */
module HeaderModify {
  import opened Bytes
  import opened HttpGrammar
  import opened HttpPrint
  import opened HttpStability
  import opened HttpHeads
  import opened WordCompare
  import opened HeaderEdit
  import opened HttpParser

  const MAX_NUM_HEADERS: nat := 20

  /** The bytes a name comparison reads from; a continuation line has no name. */
  function NameText(all: seq<Byte>, h: Header): seq<Byte> {
    if h.name.Some? && h.name.value.off <= |all| then all[h.name.value.off..] else []
  }

  /** The comparison reads nothing it may not read, and in particular not through a missing name. */
  predicate Comparable(all: seq<Byte>, h: Header, name: seq<Byte>, nameLen: nat) {
    Padded(nameLen) <= |NameText(all, h)| && Padded(nameLen) <= |name|
  }

  /** Whether the name at a record compares equal: only as many bytes as the wanted name has count. */
  ghost predicate Matches(all: seq<Byte>, h: Header, name: seq<Byte>, nameLen: nat) {
    Comparable(all, h, name, nameLen) && Computed(NameText(all, h), name, nameLen) == 0
  }

  /** The value is in the text, and there is room for the edited text. */
  predicate Fits(all: seq<Byte>, size: nat, h: Header, value: seq<Byte>) {
    h.value.End() <= size <= |all| && size - h.value.len + |value| <= |all|
  }

  /** The record of an edited header: only the length of its value is updated. */
  function Resized(h: Header, len: nat): Header {
    Header(h.name, Slice(h.value.off, len))
  }

  /** What the routine relies on, for every record that it reaches from record `i` on. */
  ghost predicate Editable(all: seq<Byte>, size: nat, hs: seq<Header>, i: nat, name: seq<Byte>, nameLen: nat, value: seq<Byte>)
    decreases |hs| - i
  {
    i < |hs| ==>
      && Comparable(all, hs[i], name, nameLen)
      && if !Matches(all, hs[i], name, nameLen) then Editable(all, size, hs, i + 1, name, nameLen, value)
         else
           && Fits(all, size, hs[i], value)
           && (hs[i].value.len == |value| ||
               Editable(EditedBuffer(all, size, hs[i].value, value), size, hs[i := Resized(hs[i], |value|)],
                        i + 1, name, nameLen, value))
  }

  /**
    What the scan does to the buffer and the records from record `i` on: every match is edited
    where its record says its value is, and the scan stops at one whose length stays.
   */
  ghost function Scan(all: seq<Byte>, size: nat, hs: seq<Header>, i: nat, name: seq<Byte>, nameLen: nat, value: seq<Byte>)
    : (r: (seq<Byte>, seq<Header>))
    requires i <= |hs| && Editable(all, size, hs, i, name, nameLen, value)
    ensures |r.0| == |all| && |r.1| == |hs|
    decreases |hs| - i
  {
    if i == |hs| then (all, hs)
    else if !Matches(all, hs[i], name, nameLen) then Scan(all, size, hs, i + 1, name, nameLen, value)
    else
      var all', hs' := EditedBuffer(all, size, hs[i].value, value), hs[i := Resized(hs[i], |value|)];
      if hs[i].value.len == |value| then (all', hs')
      else Scan(all', size, hs', i + 1, name, nameLen, value)
  }

  /** No record from `lo` to `hi` matches. */
  ghost predicate NoMatch(all: seq<Byte>, hs: seq<Header>, lo: nat, hi: nat, name: seq<Byte>, nameLen: nat)
    requires hi <= |hs|
  {
    forall j :: lo <= j < hi ==> !Matches(all, hs[j], name, nameLen)
  }

  /** Record `k` is the only one to match. */
  ghost predicate OnlyMatch(all: seq<Byte>, hs: seq<Header>, k: nat, name: seq<Byte>, nameLen: nat) {
    && k < |hs| && Matches(all, hs[k], name, nameLen)
    && NoMatch(all, hs, 0, k, name, nameLen) && NoMatch(all, hs, k + 1, |hs|, name, nameLen)
  }

  // ----- what the scan relies on -----

  /** It is enough that all headers are named, and that any of them may be read and edited. */
  lemma {:induction false} EditableWhen(all: seq<Byte>, size: nat, hs: seq<Header>, i: nat, name: seq<Byte>, nameLen: nat, value: seq<Byte>)
    requires Padded(nameLen) <= |name|
    requires forall j :: i <= j < |hs| ==>
               hs[j].name.Some? && hs[j].name.value.off + Padded(nameLen) <= |all| && Fits(all, size, hs[j], value)
    ensures Editable(all, size, hs, i, name, nameLen, value)
    decreases |hs| - i
  {
    hide Matches, Padded, EditedBuffer;
    if i < |hs| {
      if !Matches(all, hs[i], name, nameLen) {
        EditableWhen(all, size, hs, i + 1, name, nameLen, value);
      } else if hs[i].value.len != |value| {
        var all', hs' := EditedBuffer(all, size, hs[i].value, value), hs[i := Resized(hs[i], |value|)];
        assert forall j :: i < j < |hs| ==> hs'[j] == hs[j];
        EditableWhen(all', size, hs', i + 1, name, nameLen, value);
      }
    }
  }

  /** A continuation line reached by the scan makes it compare through a null pointer. */
  lemma {:induction false} FoldReached(all: seq<Byte>, size: nat, hs: seq<Header>, i: nat, f: nat, name: seq<Byte>, nameLen: nat, value: seq<Byte>)
    requires i <= f < |hs| && hs[f].name.None? && NoMatch(all, hs, i, f, name, nameLen)
    requires nameLen != 0 && nameLen != WORD
    ensures !Editable(all, size, hs, i, name, nameLen, value)
    decreases f - i
  {
    hide Matches, EditedBuffer, Padded;
    assert Padded(nameLen) > 0;
    if i < f { FoldReached(all, size, hs, i + 1, f, name, nameLen, value); }
  }

  /** From record `i` on every value may be edited, and every name there is may be compared. */
  ghost predicate RoomyFrom(all: seq<Byte>, size: nat, hs: seq<Header>, i: nat, name: seq<Byte>, nameLen: nat, value: seq<Byte>) {
    && Padded(nameLen) <= |name|
    && forall j :: i <= j < |hs| ==>
         && Fits(all, size, hs[j], value)
         && (hs[j].name.Some? ==> hs[j].name.value.off + Padded(nameLen) <= |all|)
  }

  /** Where a scan from record `i` on stops: at the match whose length stays, or behind all records. */
  ghost function Stop(all: seq<Byte>, size: nat, hs: seq<Header>, i: nat, name: seq<Byte>, nameLen: nat, value: seq<Byte>): (k: nat)
    requires i <= |hs| && RoomyFrom(all, size, hs, i, name, nameLen, value)
    ensures i <= k <= |hs|
    decreases |hs| - i
  {
    if i == |hs| then i
    else if !Matches(all, hs[i], name, nameLen) then Stop(all, size, hs, i + 1, name, nameLen, value)
    else if hs[i].value.len == |value| then i
    else
      Stop(EditedBuffer(all, size, hs[i].value, value), size, hs[i := Resized(hs[i], |value|)], i + 1, name, nameLen, value)
  }

  /**
    Given room, the routine is defined if and only if the scan stops before it reaches a
    continuation line; a wanted name of 0 or 8 bytes is never read at all.
   */
  lemma {:induction false} EditableExactly(all: seq<Byte>, size: nat, hs: seq<Header>, i: nat, name: seq<Byte>, nameLen: nat, value: seq<Byte>)
    requires i <= |hs| && RoomyFrom(all, size, hs, i, name, nameLen, value)
    ensures Editable(all, size, hs, i, name, nameLen, value) <==>
            nameLen == 0 || nameLen == WORD ||
            forall j :: i <= j < Stop(all, size, hs, i, name, nameLen, value) ==> hs[j].name.Some?
    decreases |hs| - i
  {
    hide Matches, EditedBuffer, Padded, Comparable;
    if i < |hs| {
      ComparableExactly(all, hs[i], name, nameLen);
      var k := Stop(all, size, hs, i, name, nameLen, value);
      if !Matches(all, hs[i], name, nameLen) {
        EditableExactly(all, size, hs, i + 1, name, nameLen, value);
        assert k > i;
      } else if hs[i].value.len != |value| {
        var all', hs' := EditedBuffer(all, size, hs[i].value, value), hs[i := Resized(hs[i], |value|)];
        assert forall j :: i < j < |hs| ==> hs'[j] == hs[j];
        EditableExactly(all', size, hs', i + 1, name, nameLen, value);
        assert k == Stop(all', size, hs', i + 1, name, nameLen, value);
      }
    }
  }

  /** Where there is room, what keeps a record from being compared is that it has no name. */
  lemma ComparableExactly(all: seq<Byte>, h: Header, name: seq<Byte>, nameLen: nat)
    requires Padded(nameLen) <= |name| && (h.name.Some? ==> h.name.value.off + Padded(nameLen) <= |all|)
    ensures Comparable(all, h, name, nameLen) <==> nameLen == 0 || nameLen == WORD || h.name.Some?
    ensures Matches(all, h, name, nameLen) ==> nameLen == 0 || nameLen == WORD || h.name.Some?
  {
    hide Computed;
    assert Padded(nameLen) == 0 <==> nameLen == 0 || nameLen == WORD;
  }

  /** Where the scan stops, seen before the call. */
  lemma {:induction false} StopWhen(all: seq<Byte>, size: nat, hs: seq<Header>, i: nat, name: seq<Byte>, nameLen: nat, value: seq<Byte>)
    requires i <= |hs| && RoomyFrom(all, size, hs, i, name, nameLen, value)
    ensures NoMatch(all, hs, i, |hs|, name, nameLen) ==> Stop(all, size, hs, i, name, nameLen, value) == |hs|
    ensures (forall j :: i <= j < |hs| ==> hs[j].value.len != |value|) ==>
              Stop(all, size, hs, i, name, nameLen, value) == |hs|
    ensures forall k :: FirstMatch(all, hs, i, k, name, nameLen) && hs[k].value.len == |value| ==>
              Stop(all, size, hs, i, name, nameLen, value) == k
    decreases |hs| - i
  {
    hide Matches, EditedBuffer, Padded;
    if i < |hs| {
      if !Matches(all, hs[i], name, nameLen) {
        StopWhen(all, size, hs, i + 1, name, nameLen, value);
        var next := i + 1;
        assert forall k :: FirstMatch(all, hs, i, k, name, nameLen) ==> FirstMatch(all, hs, next, k, name, nameLen);
      } else {
        assert forall k :: FirstMatch(all, hs, i, k, name, nameLen) ==> k == i;
        if hs[i].value.len != |value| {
          var all', hs' := EditedBuffer(all, size, hs[i].value, value), hs[i := Resized(hs[i], |value|)];
          assert forall j :: i < j < |hs| ==> hs'[j] == hs[j];
          StopWhen(all', size, hs', i + 1, name, nameLen, value);
        }
      }
    }
  }

  /**
    What a caller can check before the call: if no name matches, or no value has the new length,
    there must be no continuation line at all; if the first match keeps its length, there must
    be none before it.
   */
  lemma EditableBeforeCall(all: seq<Byte>, size: nat, hs: seq<Header>, name: seq<Byte>, nameLen: nat, value: seq<Byte>)
    requires RoomyFrom(all, size, hs, 0, name, nameLen, value) && nameLen != 0 && nameLen != WORD
    ensures NoMatch(all, hs, 0, |hs|, name, nameLen) || (forall j :: 0 <= j < |hs| ==> hs[j].value.len != |value|) ==>
              (Editable(all, size, hs, 0, name, nameLen, value) <==> forall j :: 0 <= j < |hs| ==> hs[j].name.Some?)
    ensures forall k :: FirstMatch(all, hs, 0, k, name, nameLen) && hs[k].value.len == |value| ==>
              (Editable(all, size, hs, 0, name, nameLen, value) <==> forall j :: 0 <= j < k ==> hs[j].name.Some?)
  {
    hide Matches, EditedBuffer, Padded, Editable, NoMatch, FirstMatch;
    EditableExactly(all, size, hs, 0, name, nameLen, value);
    StopWhen(all, size, hs, 0, name, nameLen, value);
  }

  /** A wanted name of eight bytes matches every header, and none at all matches as well. */
  lemma EightByteNames(all: seq<Byte>, h: Header, name: seq<Byte>)
    ensures Matches(all, h, name, WORD) && Matches(all, h, name, 0)
  {
  }

  /**
    At any other length a record matches just when the wanted name is what its own name begins
    with: how long that is does not count.
   */
  lemma MatchesExactly(all: seq<Byte>, h: Header, name: seq<Byte>, nameLen: nat)
    requires Comparable(all, h, name, nameLen) && nameLen != WORD && nameLen <= |name|
    requires forall k :: 0 <= k < nameLen ==> name[k] != 0
    ensures nameLen > 0 ==> h.name.Some? && h.name.value.off + nameLen <= |all|
    ensures Matches(all, h, name, nameLen) <==>
            nameLen == 0 || all[h.name.value.off..h.name.value.off + nameLen] == name[..nameLen]
  {
    var text := NameText(all, h);
    if nameLen > 0 {
      assert text[..nameLen] == all[h.name.value.off..h.name.value.off + nameLen];
    }
    CompareMeans(text, name, nameLen);
    var m := Mismatch(text, name, nameLen);
    assert forall k :: 0 <= k < m ==> text[k] == name[k];
    assert !NulBefore(text, m);
  }

  // ----- what the scan does -----

  /** The scan passes over records that do not match. */
  lemma {:induction false} ScanSkips(all: seq<Byte>, size: nat, hs: seq<Header>, i: nat, k: nat, name: seq<Byte>, nameLen: nat, value: seq<Byte>)
    requires i <= k <= |hs| && Editable(all, size, hs, i, name, nameLen, value)
    requires NoMatch(all, hs, i, k, name, nameLen)
    ensures Editable(all, size, hs, k, name, nameLen, value)
    ensures Scan(all, size, hs, i, name, nameLen, value) == Scan(all, size, hs, k, name, nameLen, value)
    decreases k - i
  {
    hide Matches, EditedBuffer, Comparable;
    if i < k { ScanSkips(all, size, hs, i + 1, k, name, nameLen, value); }
  }

  /** The scan leaves the records before it alone. */
  lemma {:induction false} ScanKeeps(all: seq<Byte>, size: nat, hs: seq<Header>, i: nat, name: seq<Byte>, nameLen: nat, value: seq<Byte>)
    requires i <= |hs| && Editable(all, size, hs, i, name, nameLen, value)
    ensures Scan(all, size, hs, i, name, nameLen, value).1[..i] == hs[..i]
    decreases |hs| - i
  {
    hide Matches, EditedBuffer, Comparable;
    if i < |hs| {
      ScanStep(all, size, hs, i, name, nameLen, value);
      if !Matches(all, hs[i], name, nameLen) {
        ScanKeeps(all, size, hs, i + 1, name, nameLen, value);
        assert hs[..i] == hs[..i + 1][..i];
        assert Scan(all, size, hs, i + 1, name, nameLen, value).1[..i] == Scan(all, size, hs, i + 1, name, nameLen, value).1[..i + 1][..i];
      } else if hs[i].value.len != |value| {
        var all', hs' := EditedBuffer(all, size, hs[i].value, value), hs[i := Resized(hs[i], |value|)];
        ScanKeeps(all', size, hs', i + 1, name, nameLen, value);
        var r := Scan(all', size, hs', i + 1, name, nameLen, value).1;
        assert r[..i] == r[..i + 1][..i] == hs'[..i + 1][..i] == hs[..i];
      }
    }
  }

  /** Without a match nothing changes. */
  lemma ScanNoMatch(all: seq<Byte>, size: nat, hs: seq<Header>, name: seq<Byte>, nameLen: nat, value: seq<Byte>)
    requires Editable(all, size, hs, 0, name, nameLen, value) && NoMatch(all, hs, 0, |hs|, name, nameLen)
    ensures Scan(all, size, hs, 0, name, nameLen, value) == (all, hs)
  {
    ScanSkips(all, size, hs, 0, |hs|, name, nameLen, value);
  }

  /** Record `j` is the first from `lo` on to match. */
  ghost predicate FirstMatch(all: seq<Byte>, hs: seq<Header>, lo: nat, j: int, name: seq<Byte>, nameLen: nat) {
    lo <= j < |hs| && Matches(all, hs[j], name, nameLen) && NoMatch(all, hs, lo, j, name, nameLen)
  }

  /** The value at a record is the new one. */
  predicate HoldsValue(all: seq<Byte>, h: Header, value: seq<Byte>) {
    h.value.len == |value| && h.value.End() <= |all| && all[h.value.off..h.value.End()] == value
  }

  /**
    Nothing disturbs the edit of record `k`: its length stays, or in the edited text no later
    record matches where it then points, or the first that does holds the new value already.
   */
  ghost predicate Undisturbed(edited: seq<Byte>, hs: seq<Header>, k: nat, name: seq<Byte>, nameLen: nat, value: seq<Byte>)
    requires k < |hs|
  {
    || hs[k].value.len == |value|
    || NoMatch(edited, hs, k + 1, |hs|, name, nameLen)
    || exists j :: FirstMatch(edited, hs, k + 1, j, name, nameLen) && HoldsValue(edited, hs[j], value)
  }

  /** Before the call it is enough to see that the length stays or that no header follows. */
  lemma UndisturbedWhen(edited: seq<Byte>, hs: seq<Header>, k: nat, name: seq<Byte>, nameLen: nat, value: seq<Byte>)
    requires k < |hs| && (hs[k].value.len == |value| || k == |hs| - 1)
    ensures Undisturbed(edited, hs, k, name, nameLen, value)
  {
  }

  lemma {:induction false} FindMatch(all: seq<Byte>, hs: seq<Header>, lo: nat, name: seq<Byte>, nameLen: nat) returns (j: nat)
    requires lo <= |hs| && !NoMatch(all, hs, lo, |hs|, name, nameLen)
    ensures FirstMatch(all, hs, lo, j, name, nameLen)
    decreases |hs| - lo
  {
    hide Matches;
    if Matches(all, hs[lo], name, nameLen) {
      j := lo;
    } else {
      j := FindMatch(all, hs, lo + 1, name, nameLen);
    }
  }

  /** Editing a value of the same length changes nothing just if it is there already. */
  lemma SameEdit(all: seq<Byte>, size: nat, h: Header, value: seq<Byte>)
    requires Fits(all, size, h, value) && h.value.len == |value|
    ensures EditedBuffer(all, size, h.value, value) == all <==> HoldsValue(all, h, value)
  {
    var v := h.value;
    var x := EditedBuffer(all, size, v, value);
    SpliceOfPrefix(all, size, v, value);
    assert x == all[..v.off] + value + all[v.End()..size] + all[size..];
    assert x[v.off..v.End()] == value;
    assert all == all[..v.off] + all[v.off..v.End()] + all[v.End()..size] + all[size..];
  }

  /**
    With a single match, the routine does the one edit asked for, in the text and in the
    record, if and only if nothing disturbs it.
   */
  lemma ScanOnlyMatch(all: seq<Byte>, size: nat, hs: seq<Header>, k: nat, name: seq<Byte>, nameLen: nat, value: seq<Byte>)
    requires Editable(all, size, hs, 0, name, nameLen, value) && OnlyMatch(all, hs, k, name, nameLen)
    ensures Fits(all, size, hs[k], value)
    ensures var edited := EditedBuffer(all, size, hs[k].value, value);
            Scan(all, size, hs, 0, name, nameLen, value) == (edited, hs[k := Resized(hs[k], |value|)])
            <==> Undisturbed(edited, hs, k, name, nameLen, value)
  {
    hide Matches, EditedBuffer, Comparable, Editable, Scan, Padded, HoldsValue;
    ScanSkips(all, size, hs, 0, k, name, nameLen, value);
    ScanStep(all, size, hs, k, name, nameLen, value);
    var x, hs' := EditedBuffer(all, size, hs[k].value, value), hs[k := Resized(hs[k], |value|)];
    if hs[k].value.len != |value| {
      AfterTheEdit(x, size, hs, hs', k, name, nameLen, value);
    }
  }

  /** How the scan goes on behind an edit that changed the length. */
  lemma AfterTheEdit(x: seq<Byte>, size: nat, hs: seq<Header>, hs': seq<Header>, k: nat, name: seq<Byte>, nameLen: nat, value: seq<Byte>)
    requires k < |hs| == |hs'| && hs[k].value.len != |value| && forall j :: k < j < |hs| ==> hs'[j] == hs[j]
    requires Editable(x, size, hs', k + 1, name, nameLen, value)
    ensures Scan(x, size, hs', k + 1, name, nameLen, value) == (x, hs') <==> Undisturbed(x, hs, k, name, nameLen, value)
  {
    hide Matches, EditedBuffer, Comparable, Editable, Scan, Padded, HoldsValue;
    assert NoMatch(x, hs, k + 1, |hs|, name, nameLen) <==> NoMatch(x, hs', k + 1, |hs|, name, nameLen);
    if NoMatch(x, hs, k + 1, |hs|, name, nameLen) {
      ScanSkips(x, size, hs', k + 1, |hs|, name, nameLen, value);
      ScanEnd(x, size, hs', name, nameLen, value);
    } else {
      var j := FindMatch(x, hs, k + 1, name, nameLen);
      var lo := k + 1;
      assert forall m :: FirstMatch(x, hs, lo, m, name, nameLen) ==> m == j;
      ScanSkips(x, size, hs', k + 1, j, name, nameLen, value);
      ScanStep(x, size, hs', j, name, nameLen, value);
      if hs[j].value.len == |value| {
        SameEdit(x, size, hs'[j], value);
        assert hs'[j := Resized(hs'[j], |value|)] == hs';
      } else {
        SecondEditShows(x, size, hs', j, name, nameLen, value);
        assert !HoldsValue(x, hs[j], value) by { LengthDiffers(x, hs[j], value); }
      }
    }
  }

  lemma LengthDiffers(all: seq<Byte>, h: Header, value: seq<Byte>)
    requires h.value.len != |value|
    ensures !HoldsValue(all, h, value)
  {
  }

  /** A second edit of another length stays visible in its record. */
  lemma SecondEditShows(x: seq<Byte>, size: nat, hs: seq<Header>, j: nat, name: seq<Byte>, nameLen: nat, value: seq<Byte>)
    requires j < |hs| && Editable(x, size, hs, j, name, nameLen, value)
    requires Matches(x, hs[j], name, nameLen) && hs[j].value.len != |value|
    ensures Scan(x, size, hs, j, name, nameLen, value).1 != hs
  {
    hide Matches, EditedBuffer, Comparable, Editable, Scan, Padded;
    ScanStep(x, size, hs, j, name, nameLen, value);
    var x', hs' := EditedBuffer(x, size, hs[j].value, value), hs[j := Resized(hs[j], |value|)];
    ScanKeeps(x', size, hs', j + 1, name, nameLen, value);
    var r := Scan(x', size, hs', j + 1, name, nameLen, value).1;
    assert r[j] == r[..j + 1][j] == hs'[..j + 1][j];
  }

  /** A first match whose length stays is edited, and nothing after it, whatever else matches. */
  lemma ScanFirstSame(all: seq<Byte>, size: nat, hs: seq<Header>, k: nat, name: seq<Byte>, nameLen: nat, value: seq<Byte>)
    requires Editable(all, size, hs, 0, name, nameLen, value) && FirstMatch(all, hs, 0, k, name, nameLen)
    requires hs[k].value.len == |value|
    ensures Fits(all, size, hs[k], value)
    ensures Scan(all, size, hs, 0, name, nameLen, value) == (EditedBuffer(all, size, hs[k].value, value), hs)
  {
    hide Matches, EditedBuffer, Comparable, Editable, Scan, Padded;
    ScanSkips(all, size, hs, 0, k, name, nameLen, value);
    ScanStep(all, size, hs, k, name, nameLen, value);
    SameRecord(hs, k, value);
  }

  /** A first match whose length changes is edited, and the scan goes on behind it. */
  lemma ScanFirstOther(all: seq<Byte>, size: nat, hs: seq<Header>, k: nat, name: seq<Byte>, nameLen: nat, value: seq<Byte>)
    requires Editable(all, size, hs, 0, name, nameLen, value) && FirstMatch(all, hs, 0, k, name, nameLen)
    requires hs[k].value.len != |value|
    ensures Fits(all, size, hs[k], value)
    ensures var all', hs' := EditedBuffer(all, size, hs[k].value, value), hs[k := Resized(hs[k], |value|)];
            && Editable(all', size, hs', k + 1, name, nameLen, value)
            && Scan(all, size, hs, 0, name, nameLen, value) == Scan(all', size, hs', k + 1, name, nameLen, value)
  {
    hide Matches, EditedBuffer, Comparable, Editable, Scan, Padded;
    ScanSkips(all, size, hs, 0, k, name, nameLen, value);
    ScanStep(all, size, hs, k, name, nameLen, value);
  }

  // ----- the routine -----

  class HttpDetail {
    var buffer: array<Byte>
    var size: nat
    const headers: array<Header>
    var count: nat

    constructor (buffer: array<Byte>, size: nat, headers: array<Header>, count: nat)
      requires headers.Length == 20
      ensures this.buffer == buffer && this.size == size && this.headers == headers && this.count == count
    {
      this.buffer, this.size, this.headers, this.count := buffer, size, headers, count;
    }

    /**
      The edit of record `i` by a value of another length: buffer, record, and the shifts by a
      difference that is always 0.
     */
    method EditRecord(i: nat, n: nat, value: seq<Byte>) returns (difference: int)
      requires i < n <= headers.Length && Fits(buffer[..], size, headers[i], value)
      modifies buffer, headers
      ensures difference == 0
      ensures buffer[..] == EditedBuffer(old(buffer[..]), size, old(headers[i].value), value)
      ensures headers[..] == old(headers[..])[i := Resized(old(headers[i]), |value|)]
    {
      ReplaceValue(buffer, size, headers[i].value, value);
      headers[i] := Resized(headers[i], |value|);
      difference := headers[i].value.len - |value|;
      ghost var edited, text := headers[..], buffer[..];
      for j := i + 1 to n
        invariant headers[..] == edited && buffer[..] == text
      {
        assert headers[j] == edited[j] && headers[i] == edited[i];
        if headers[j].name.Some? {
          headers[j] := headers[j].(name := Some(Moved(headers[j].name.value, difference)));
        }
        headers[i] := headers[i].(value := Moved(headers[i].value, difference));
      }
    }

    /**
      Replaces the value of the header called `name`, among the first `count` records or the
      first 20.  The difference it returns is 0 whatever happened, and of the records only the
      lengths of edited values are updated.
     */
    method ModifyHeaders(name: seq<Byte>, nameLen: nat, value: seq<Byte>) returns (difference: int)
      requires headers.Length == 20
      requires count <= 20 ==> Editable(buffer[..], size, headers[..count], 0, name, nameLen, value)
      requires count > 20 ==> Editable(buffer[..], size, headers[..], 0, name, nameLen, value)
      modifies buffer, headers
      ensures difference == 0
      ensures count <= 20 ==>
                && (buffer[..], headers[..count]) == old(Scan(buffer[..], size, headers[..count], 0, name, nameLen, value))
                && headers[count..] == old(headers[count..])
      ensures count > 20 ==>
                (buffer[..], headers[..]) == old(Scan(buffer[..], size, headers[..], 0, name, nameLen, value))
    {
      hide Matches, EditedBuffer, Padded, Resized, Scan, Editable;
      difference := 0;
      var n := if count > MAX_NUM_HEADERS then MAX_NUM_HEADERS else count;
      assert headers[..20] == headers[..];
      ghost var behind := headers[n..];
      ghost var goal := Scan(buffer[..], size, headers[..n], 0, name, nameLen, value);
      var i := 0;
      while i < n
        invariant 0 <= i <= n && difference == 0 && headers[n..] == behind
        invariant Editable(buffer[..], size, headers[..n], i, name, nameLen, value)
        invariant Scan(buffer[..], size, headers[..n], i, name, nameLen, value) == goal
      {
        var h := headers[i];
        ghost var all, hs, recs := buffer[..], headers[..n], headers[..];
        assert hs[i] == h;
        ScanStep(all, size, hs, i, name, nameLen, value);
        MatchesMeans(all, h, name, nameLen);
        var differ := FastCompare(NameText(buffer[..], h), name, nameLen);
        if differ == 0 {
          if h.value.len == |value| {
            ReplaceValue(buffer, size, h.value, value);
            SameRecord(hs, i, value);
            assert headers[..20] == headers[..];
            return 0;
          }
          difference := EditRecord(i, n, value);
          SplitRecords(recs, i, n, Resized(h, |value|));
        }
        i := i + 1;
      }
      ScanEnd(buffer[..], size, headers[..n], name, nameLen, value);
      assert headers[..20] == headers[..];
    }

    /** Parses the text in the buffer as a request and keeps its headers. */
    method ParseRequestText(sse: bool) returns (ret: int)
      requires headers.Length == 20 && size <= buffer.Length
      modifies this`count, headers
      ensures var r := ParseRequest(buffer[..size], 20);
              && (ret >= 0 <==> r.Ok?)
              && (r.Ok? ==> ret == r.pos && count <= 20 && headers[..count] == r.val.headers)
    {
      var meth, path, minorVersion;
      ret, meth, path, minorVersion, count := PhrParseRequest(sse, buffer[..size], headers, MAX_NUM_HEADERS, 0);
    }

    method ParseResponseText(sse: bool) returns (ret: int)
      requires headers.Length == 20 && size <= buffer.Length
      modifies this`count, headers
      ensures var r := ParseResponse(buffer[..size], 20);
              && (ret >= 0 <==> r.Ok?)
              && (r.Ok? ==> ret == r.pos && count <= 20 && headers[..count] == r.val.headers)
    {
      var minorVersion, status, msg;
      ret, minorVersion, status, msg, count := PhrParseResponse(sse, buffer[..size], headers, MAX_NUM_HEADERS, 0);
    }

    /**
      What is done to a request before it is sent: it is parsed, and the value of a header is
      replaced.  The result is the scan of ModifyRequest.  `send` is the number of bytes then
      sent: the old size, whatever became of the lengths.
     */
    method RewriteRequest(sse: bool, name: seq<Byte>, nameLen: nat, value: seq<Byte>) returns (ret: int, send: int)
      requires headers.Length == 20 && size <= buffer.Length
      requires var r := ParseRequest(buffer[..size], 20);
               r.Ok? ==> Editable(buffer[..], size, r.val.headers, 0, name, nameLen, value)
      modifies this`count, buffer, headers
      ensures send == size
      ensures var r := old(ParseRequest(buffer[..size], 20));
              && (ret >= 0 <==> r.Ok?)
              && (!r.Ok? ==> buffer[..] == old(buffer[..]))
              && (r.Ok? ==>
                    && ret == r.pos && count <= 20
                    && (buffer[..], headers[..count]) == Scan(old(buffer[..]), size, r.val.headers, 0, name, nameLen, value))
    {
      hide Scan, Editable, ParseRequest;
      send := size;
      ret := ParseRequestText(sse);
      RequestIsNotEmpty(buffer[..size], 20);
      if ret > 0 {
        var difference := ModifyHeaders(name, nameLen, value);
        send := send + difference;
      }
    }

    /** The same for a response. */
    method RewriteResponse(sse: bool, name: seq<Byte>, nameLen: nat, value: seq<Byte>) returns (ret: int, send: int)
      requires headers.Length == 20 && size <= buffer.Length
      requires var r := ParseResponse(buffer[..size], 20);
               r.Ok? ==> Editable(buffer[..], size, r.val.headers, 0, name, nameLen, value)
      modifies this`count, buffer, headers
      ensures send == size
      ensures var r := old(ParseResponse(buffer[..size], 20));
              && (ret >= 0 <==> r.Ok?)
              && (!r.Ok? ==> buffer[..] == old(buffer[..]))
              && (r.Ok? ==>
                    && ret == r.pos && count <= 20
                    && (buffer[..], headers[..count]) == Scan(old(buffer[..]), size, r.val.headers, 0, name, nameLen, value))
    {
      hide Scan, Editable, ParseResponse;
      send := size;
      ret := ParseResponseText(sse);
      ResponseIsNotEmpty(buffer[..size], 20);
      if ret > 0 {
        var difference := ModifyHeaders(name, nameLen, value);
        send := send + difference;
      }
    }
  }

  lemma RequestIsNotEmpty(s: seq<Byte>, max: nat)
    ensures ParseRequest(s, max).Ok? ==> ParseRequest(s, max).pos > 0
  {
  }

  lemma ResponseIsNotEmpty(s: seq<Byte>, max: nat)
    ensures ParseResponse(s, max).Ok? ==> ParseResponse(s, max).pos > 0
  {
  }

  lemma SameRecord(hs: seq<Header>, i: nat, value: seq<Byte>)
    requires i < |hs| && hs[i].value.len == |value|
    ensures hs[i := Resized(hs[i], |value|)] == hs
  {
  }

  lemma MatchesMeans(all: seq<Byte>, h: Header, name: seq<Byte>, nameLen: nat)
    requires Comparable(all, h, name, nameLen)
    ensures Matches(all, h, name, nameLen) <==> Computed(NameText(all, h), name, nameLen) == 0
  {
  }

  lemma SplitRecords(recs: seq<Header>, i: nat, n: nat, h: Header)
    requires i < n <= |recs|
    ensures recs[i := h][..n] == recs[..n][i := h] && recs[i := h][n..] == recs[n..]
  {
  }

  /** One record of the scan. */
  lemma ScanStep(all: seq<Byte>, size: nat, hs: seq<Header>, i: nat, name: seq<Byte>, nameLen: nat, value: seq<Byte>)
    requires i < |hs| && Editable(all, size, hs, i, name, nameLen, value)
    ensures Comparable(all, hs[i], name, nameLen)
    ensures !Matches(all, hs[i], name, nameLen) ==>
              && Editable(all, size, hs, i + 1, name, nameLen, value)
              && Scan(all, size, hs, i, name, nameLen, value) == Scan(all, size, hs, i + 1, name, nameLen, value)
    ensures Matches(all, hs[i], name, nameLen) ==> Fits(all, size, hs[i], value)
    ensures Matches(all, hs[i], name, nameLen) ==>
              var all', hs' := EditedBuffer(all, size, hs[i].value, value), hs[i := Resized(hs[i], |value|)];
              if hs[i].value.len == |value| then Scan(all, size, hs, i, name, nameLen, value) == (all', hs')
              else
                && Editable(all', size, hs', i + 1, name, nameLen, value)
                && Scan(all, size, hs, i, name, nameLen, value) == Scan(all', size, hs', i + 1, name, nameLen, value)
  {
    hide Matches, EditedBuffer, Padded, Comparable;
  }

  lemma ScanEnd(all: seq<Byte>, size: nat, hs: seq<Header>, name: seq<Byte>, nameLen: nat, value: seq<Byte>)
    requires Editable(all, size, hs, |hs|, name, nameLen, value)
    ensures Scan(all, size, hs, |hs|, name, nameLen, value) == (all, hs)
  {
  }

  /** Edits of values that start at `e` or later leave the text before it alone. */
  lemma {:induction false} ScanBehind(all: seq<Byte>, size: nat, hs: seq<Header>, i: nat, name: seq<Byte>, nameLen: nat, value: seq<Byte>, e: nat)
    requires i <= |hs| && Editable(all, size, hs, i, name, nameLen, value) && e <= |all|
    requires forall j :: i <= j < |hs| ==> e <= hs[j].value.off
    ensures Scan(all, size, hs, i, name, nameLen, value).0[..e] == all[..e]
    decreases |hs| - i
  {
    hide Matches, EditedBuffer, Comparable, Editable, Scan, Padded;
    if i == |hs| {
      ScanEnd(all, size, hs, name, nameLen, value);
    } else {
      ScanStep(all, size, hs, i, name, nameLen, value);
      if !Matches(all, hs[i], name, nameLen) {
        ScanBehind(all, size, hs, i + 1, name, nameLen, value, e);
      } else {
        EditBehind(all, size, hs[i], value, e);
        if hs[i].value.len != |value| {
          var all', hs' := EditedBuffer(all, size, hs[i].value, value), hs[i := Resized(hs[i], |value|)];
          ScanBehind(all', size, hs', i + 1, name, nameLen, value, e);
        }
      }
    }
  }

  lemma EditBehind(all: seq<Byte>, size: nat, h: Header, value: seq<Byte>, e: nat)
    requires Fits(all, size, h, value) && e <= h.value.off
    ensures EditedBuffer(all, size, h.value, value)[..e] == all[..e]
  {
    SpliceOfPrefix(all, size, h.value, value);
  }

  /**
    For the text alone less is needed: it is the one edit, too, when all later records point
    behind its end, whether they match there or not.
   */
  lemma TextUndisturbed(all: seq<Byte>, size: nat, hs: seq<Header>, k: nat, name: seq<Byte>, nameLen: nat, value: seq<Byte>)
    requires Editable(all, size, hs, 0, name, nameLen, value) && OnlyMatch(all, hs, k, name, nameLen)
    requires forall j :: k < j < |hs| ==> size - hs[k].value.len + |value| <= hs[j].value.off
    ensures Fits(all, size, hs[k], value)
    ensures var end := size - hs[k].value.len + |value|;
            Scan(all, size, hs, 0, name, nameLen, value).0[..end] == EditedBuffer(all, size, hs[k].value, value)[..end]
  {
    hide Matches, EditedBuffer, Comparable, Editable, Scan, Padded;
    ScanSkips(all, size, hs, 0, k, name, nameLen, value);
    ScanStep(all, size, hs, k, name, nameLen, value);
    if hs[k].value.len != |value| {
      var all', hs' := EditedBuffer(all, size, hs[k].value, value), hs[k := Resized(hs[k], |value|)];
      ScanBehind(all', size, hs', k + 1, name, nameLen, value, size - hs[k].value.len + |value|);
    }
  }

  // ----- the routine on a parsed message -----

  /** A header that alone matches has a name: else every record matches, and the first is named. */
  lemma OnlyMatchIsNamed(all: seq<Byte>, hs: seq<Header>, k: nat, name: seq<Byte>, nameLen: nat)
    requires OnlyMatch(all, hs, k, name, nameLen) && (hs != [] ==> hs[0].name.Some?)
    ensures k < |hs| && hs[k].name.Some?
  {
    if hs[k].name.None? {
      assert Matches(all, hs[0], name, nameLen);
    }
  }

  /**
    The whole routine on a parsed request with a single match.  What it leaves is the one edit
    asked for if and only if nothing disturbs that edit; and then the text parses to the
    original request with that one value changed, and nothing behind the text moved.
   */
  lemma ModifyRequest(all: seq<Byte>, size: nat, max: nat, k: nat, name: seq<Byte>, nameLen: nat, value: seq<Byte>)
    requires size <= |all| && ParseRequest(all[..size], max).Ok? && LegalFieldValue(value)
    requires var hs := ParseRequest(all[..size], max).val.headers;
             Editable(all, size, hs, 0, name, nameLen, value) && OnlyMatch(all, hs, k, name, nameLen)
    ensures Fits(all, size, ParseRequest(all[..size], max).val.headers[k], value)
    ensures var r := ParseRequest(all[..size], max);
            var hs := r.val.headers;
            var end := size - hs[k].value.len + |value|;
            var edited := EditedBuffer(all, size, hs[k].value, value);
            var after := Scan(all, size, hs, 0, name, nameLen, value);
            var r' := ParseRequest(after.0[..end], max);
            && (after == (edited, hs[k := Resized(hs[k], |value|)])
                <==> Undisturbed(edited, hs, k, name, nameLen, value))
            && (Undisturbed(edited, hs, k, name, nameLen, value) ==>
                  && after.0[end..] == all[end..]
                  && r'.Ok? && r'.val.(headers := []) == r.val.(headers := [])
                  && EditedHead(all[..size], r.pos, hs, after.0[..end], r'.pos, r'.val.headers, k, value))
  {
    hide ParseRequest, LegalFieldValue, EditedHead, Matches, NoMatch, Splice, Scan, Editable, Undisturbed, OnlyMatch;
    var hs := ParseRequest(all[..size], max).val.headers;
    ScanOnlyMatch(all, size, hs, k, name, nameLen, value);
    RequestWellFormed(all[..size], max);
    OnlyMatchIsNamed(all, hs, k, name, nameLen);
    EditRequest(all[..size], max, k, value);
  }

  lemma ModifyResponse(all: seq<Byte>, size: nat, max: nat, k: nat, name: seq<Byte>, nameLen: nat, value: seq<Byte>)
    requires size <= |all| && ParseResponse(all[..size], max).Ok? && LegalFieldValue(value)
    requires var hs := ParseResponse(all[..size], max).val.headers;
             Editable(all, size, hs, 0, name, nameLen, value) && OnlyMatch(all, hs, k, name, nameLen)
    ensures Fits(all, size, ParseResponse(all[..size], max).val.headers[k], value)
    ensures var r := ParseResponse(all[..size], max);
            var hs := r.val.headers;
            var end := size - hs[k].value.len + |value|;
            var edited := EditedBuffer(all, size, hs[k].value, value);
            var after := Scan(all, size, hs, 0, name, nameLen, value);
            var r' := ParseResponse(after.0[..end], max);
            && (after == (edited, hs[k := Resized(hs[k], |value|)])
                <==> Undisturbed(edited, hs, k, name, nameLen, value))
            && (Undisturbed(edited, hs, k, name, nameLen, value) ==>
                  && after.0[end..] == all[end..]
                  && r'.Ok? && r'.val.(headers := []) == r.val.(headers := [])
                  && EditedHead(all[..size], r.pos, hs, after.0[..end], r'.pos, r'.val.headers, k, value))
  {
    hide ParseResponse, LegalFieldValue, EditedHead, Matches, NoMatch, Splice, Scan, Editable, Undisturbed, OnlyMatch;
    var hs := ParseResponse(all[..size], max).val.headers;
    ScanOnlyMatch(all, size, hs, k, name, nameLen, value);
    ResponseWellFormed(all[..size], max);
    OnlyMatchIsNamed(all, hs, k, name, nameLen);
    EditResponse(all[..size], max, k, value);
  }

  // ----- what the routine reports -----

  /** Whether blanks followed a value that is now empty: its slice then starts behind them. */
  predicate BlanksLeft(s: seq<Byte>, v: Slice, value: seq<Byte>) {
    value == [] && v.len > 0 && v.End() < |s| && IsBlank(s[v.End()])
  }

  /**
    The routine reports no difference and leaves the records behind an edited header where
    they were.  The report is right just when the length did not change.  The records describe
    the edited message just when the length did not change or no header follows, and no blanks
    are left behind an emptied value.
   */
  lemma ReportedDifference(s: seq<Byte>, max: nat, k: nat, value: seq<Byte>)
    requires ParseRequest(s, max).Ok? && k < |ParseRequest(s, max).val.headers|
    requires ParseRequest(s, max).val.headers[k].name.Some? && LegalFieldValue(value)
    ensures ParseRequest(s, max).val.headers[k].value.End() <= |s|
    ensures var r := ParseRequest(s, max);
            var h := r.val.headers[k];
            var r' := ParseRequest(Splice(s, h.value, value), max);
            && r'.Ok?
            && (0 == r'.pos - r.pos <==> |value| == h.value.len)
            && (r.val.headers[k := Resized(h, |value|)] == r'.val.headers <==>
                  (|value| == h.value.len || k == |r.val.headers| - 1) && !BlanksLeft(s, h.value, value))
  {
    hide ParseRequest, SameTextBut, Edited, LegalFieldValue, Splice;
    EditRequest(s, max, k, value);
    var r := ParseRequest(s, max);
    var hs := r.val.headers;
    var v := hs[k].value;
    var hs' := ParseRequest(Splice(s, v, value), max).val.headers;
    RecordsStale(hs, hs', k, |value|, GapBehind(s, v, value));
  }

  lemma RecordsStale(hs: seq<Header>, hs': seq<Header>, k: nat, len: nat, gap: nat)
    requires k < |hs| && Edited(hs, hs', k, len, gap)
    ensures hs[k := Resized(hs[k], len)] == hs' <==> gap == 0 && (len == hs[k].value.len || k == |hs| - 1)
  {
    var recs := hs[k := Resized(hs[k], len)];
    var behind, behind' := hs[k + 1..], hs'[k + 1..];
    assert hs' == hs'[..k] + ([hs'[k]] + behind');
    assert recs == hs[..k] + ([Resized(hs[k], len)] + behind);
    if len == hs[k].value.len {
      assert behind == behind';
    } else if k < |hs| - 1 {
      assert behind'[0] != behind[0];
    }
  }

  // ----- an input that shows the failures -----

  /** `G / HTTP/1.1`, then `A:xx` and `BA:` followed by `last`; all lines end in LF. */
  function Sample(first: seq<Byte>, last: seq<Byte>): RequestText {
    RequestText(None, [71], 0, [47], 0, 1, false,
                Block([Named([65], [], first, [], false), Named([66, 65], [], last, [], false)], false))
  }

  const SAMPLE: seq<Byte> :=
    [71, 32, 47, 32, 72, 84, 84, 80, 47, 49, 46, 49, 10, 65, 58, 120, 120, 10, 66, 65, 58, 121, 10, 10]

  const SAMPLE_HEADERS: seq<Header> :=
    [Header(Some(Slice(13, 1)), Slice(15, 2)), Header(Some(Slice(18, 2)), Slice(21, 1))]

  /** The sample with its first value replaced by `z`, and one byte of the old text behind it. */
  const EDITED: seq<Byte> :=
    [71, 32, 47, 32, 72, 84, 84, 80, 47, 49, 46, 49, 10, 65, 58, 122, 10, 66, 65, 58, 121, 10, 10, 10]

  /** What the routine makes of it. */
  const CORRUPTED: seq<Byte> :=
    [71, 32, 47, 32, 72, 84, 84, 80, 47, 49, 46, 49, 10, 65, 58, 122, 10, 66, 65, 58, 121, 122, 10, 10]

  const CORRUPTED_HEADERS: seq<Header> :=
    [Header(Some(Slice(13, 1)), Slice(15, 1)), Header(Some(Slice(17, 2)), Slice(20, 2))]

  lemma SampleParses()
    ensures ParseRequest(SAMPLE, MAX_NUM_HEADERS) ==
              Ok(24, Request(Slice(0, 1), Slice(2, 1), 1, SAMPLE_HEADERS))
  {
    hide ParseRequest, PrintRequest, LegalRequest, LegalFieldValue, RequestAt;
    SampleValues();
    SampleText([120, 120], [121]);
    SampleFlat();
    ParsePrintRequest(Sample([120, 120], [121]), MAX_NUM_HEADERS, []);
    SampleHeaders();
  }

  lemma SampleFlat()
    ensures START + ([65] + ([COLON] + ([120, 120] + ([LF] + ([66, 65] + ([COLON] + ([121] + ([LF] + [LF])))))))) == SAMPLE
  {
    var t := [65, 58, 120, 120, 10, 66, 65, 58, 121, 10, 10];
    var b := [LF] + ([66, 65] + ([COLON] + ([121] + ([LF] + [LF]))));
    assert b == [10, 66, 65, 58, 121, 10, 10];
    assert [65] + ([COLON] + ([120, 120] + b)) == t;
    assert START + t == SAMPLE;
  }

  lemma CorruptedFlat()
    ensures START + ([65] + ([COLON] + ([122] + ([LF] + ([66, 65] + ([COLON] + ([121, 122] + ([LF] + [LF])))))))) == CORRUPTED
  {
    var t := [65, 58, 122, 10, 66, 65, 58, 121, 122, 10, 10];
    var b := [LF] + ([66, 65] + ([COLON] + ([121, 122] + ([LF] + [LF]))));
    assert b == [10, 66, 65, 58, 121, 122, 10, 10];
    assert [65] + ([COLON] + ([122] + b)) == t;
    assert START + t == CORRUPTED;
  }

  lemma SampleValues()
    ensures LegalFieldValue([120, 120]) && LegalFieldValue([121]) && LegalFieldValue([122]) && LegalFieldValue([121, 122])
  {
  }

  lemma SampleHeaders()
    ensures RequestAt(Sample([120, 120], [121])) == Request(Slice(0, 1), Slice(2, 1), 1, SAMPLE_HEADERS)
  {
    var lines := Sample([120, 120], [121]).block.lines;
    assert lines[1..] == [lines[1]];
    assert HeadersAt([lines[1]], 18) == [HeaderAt(lines[1], 18)];
  }

  /** The request line of the samples. */
  const START: seq<Byte> := [71, 32, 47, 32, 72, 84, 84, 80, 47, 49, 46, 49, 10]

  lemma StartText(m: RequestText, text: seq<Byte>)
    requires m == RequestText(None, [71], 0, [47], 0, 1, false, m.block)
    ensures PrintMethodAndPath(m, PrintVersionLine(1, false, text)) == START + text
  {
    var t := PrintVersionLine(1, false, text);
    assert t == [72, 84, 84, 80, 47, 49, 46, 49, 10] + text;
    assert Spaces(0) == [];
    assert PrintWord([47], 0, t) == [47, 32] + t;
    assert PrintWord([71], 0, [47, 32] + t) == [71, 32, 47, 32] + t;
    assert PrintMethodAndPath(m, t) == [71, 32, 47, 32] + t;
  }

  lemma LineText(name: seq<Byte>, value: seq<Byte>, rest: seq<Byte>)
    ensures PrintLine(Named(name, [], value, [], false), rest) == name + ([COLON] + (value + ([LF] + rest)))
  {
    assert [] + ([LF] + rest) == [LF] + rest;
    assert [] + (value + ([LF] + rest)) == value + ([LF] + rest);
  }

  /** The text of a sample. */
  lemma SampleText(first: seq<Byte>, last: seq<Byte>)
    requires LegalFieldValue(first) && LegalFieldValue(last)
    ensures PrintRequest(Sample(first, last), []) ==
              START + ([65] + ([COLON] + (first + ([LF] + ([66, 65] + ([COLON] + (last + ([LF] + [LF]))))))))
    ensures LegalRequest(Sample(first, last), MAX_NUM_HEADERS)
  {
    hide PrintLine, PrintMethodAndPath, PrintVersionLine, LegalFieldValue;
    var m := Sample(first, last);
    var lines := m.block.lines;
    LineText([66, 65], last, [LF]);
    LineText([65], first, PrintLine(lines[1], [LF]));
    assert Eol(false) + [] == [LF];
    PrintTwo(lines[0], lines[1], [LF]);
    StartText(m, PrintBlock(m.block, []));
    SampleLegal(m, first, last);
  }

  lemma PrintTwo(a: Line, b: Line, rest: seq<Byte>)
    ensures PrintLines([a, b], rest) == PrintLine(a, PrintLine(b, rest))
  {
    hide PrintLine;
    assert [a, b][1..] == [b] && [b][1..] == [];
    assert PrintLines([b], rest) == PrintLine(b, PrintLines([], rest));
  }

  lemma SampleLegal(m: RequestText, first: seq<Byte>, last: seq<Byte>)
    requires m == Sample(first, last) && LegalFieldValue(first) && LegalFieldValue(last)
    ensures LegalRequest(m, MAX_NUM_HEADERS)
  {
    hide LegalFieldValue;
    assert forall l <- m.block.lines :: l == m.block.lines[0] || l == m.block.lines[1];
  }

  /**
    Replacing the value of `A` by `z` in the sample: one header matches, and yet the routine
    edits twice.  It leaves a text that is not the one edit.  The bytes up to the end of the
    edited text are no request any more; and the bytes a caller takes for the message, who adds
    the reported difference of 0 to its length, are a request whose second value is `yz`.
   */
  lemma SecondEdit()
    ensures ParseRequest(SAMPLE, MAX_NUM_HEADERS).Ok?
    ensures ParseRequest(SAMPLE, MAX_NUM_HEADERS).val.headers == SAMPLE_HEADERS
    ensures Editable(SAMPLE, 24, SAMPLE_HEADERS, 0, [65], 1, [122])
    ensures OnlyMatch(SAMPLE, SAMPLE_HEADERS, 0, [65], 1)
    ensures EditedBuffer(SAMPLE, 24, SAMPLE_HEADERS[0].value, [122]) == EDITED
    ensures Scan(SAMPLE, 24, SAMPLE_HEADERS, 0, [65], 1, [122]).0 == CORRUPTED != EDITED
    ensures ParseRequest(CORRUPTED[..23], MAX_NUM_HEADERS) == Partial
    ensures ParseRequest(CORRUPTED, MAX_NUM_HEADERS) == Ok(24, Request(Slice(0, 1), Slice(2, 1), 1, CORRUPTED_HEADERS))
    ensures CORRUPTED[20..22] == [121, 122]
  {
    hide ParseRequest, Matches, EditedBuffer, Editable, Scan, Padded;
    var hs, name, value := SAMPLE_HEADERS, [65 as Byte], [122 as Byte];
    SampleParses();
    OneByteMatches(SAMPLE, hs[0], name);
    OneByteMatches(SAMPLE, hs[1], name);
    OneByteMatches(EDITED, hs[1], name);
    SampleEdits();
    SampleEditable();
    ScanStep(SAMPLE, 24, hs, 0, name, 1, value);
    var hs' := hs[0 := Resized(hs[0], 1)];
    assert hs'[1] == hs[1];
    ScanStep(EDITED, 24, hs', 1, name, 1, value);
    CorruptedIsPartial();
    assert CORRUPTED[21] != EDITED[21];
  }

  lemma OneByteMatches(all: seq<Byte>, h: Header, name: seq<Byte>)
    requires |name| == 1 && h.name.Some? && h.name.value.off < |all|
    ensures Matches(all, h, name, 1) <==> all[h.name.value.off] == name[0]
  {
    var text := NameText(all, h);
    assert text[0] == all[h.name.value.off];
    MismatchIs(text, name, 1, if text[0] == name[0] then 1 else 0);
  }

  lemma SampleEdits()
    ensures EditedBuffer(SAMPLE, 24, Slice(15, 2), [122]) == EDITED
    ensures EditedBuffer(EDITED, 24, Slice(21, 1), [122]) == CORRUPTED
  {
  }

  lemma SampleEditable()
    ensures Editable(SAMPLE, 24, SAMPLE_HEADERS, 0, [65], 1, [122])
  {
    EditableWhen(SAMPLE, 24, SAMPLE_HEADERS, 0, [65], 1, [122]);
  }

  lemma CorruptedIsPartial()
    ensures ParseRequest(CORRUPTED[..23], MAX_NUM_HEADERS) == Partial
    ensures ParseRequest(CORRUPTED, MAX_NUM_HEADERS) == Ok(24, Request(Slice(0, 1), Slice(2, 1), 1, CORRUPTED_HEADERS))
  {
    hide ParseRequest, PrintRequest, LegalRequest, LegalFieldValue, RequestAt;
    SampleValues();
    SampleText([122], [121, 122]);
    CorruptedFlat();
    ParsePrintRequest(Sample([122], [121, 122]), MAX_NUM_HEADERS, []);
    CorruptedHeaders();
    RequestPrefix(CORRUPTED, MAX_NUM_HEADERS, 23);
  }

  lemma CorruptedHeaders()
    ensures RequestAt(Sample([122], [121, 122])) == Request(Slice(0, 1), Slice(2, 1), 1, CORRUPTED_HEADERS)
  {
    var lines := Sample([122], [121, 122]).block.lines;
    assert lines[1..] == [lines[1]];
    assert HeadersAt([lines[1]], 17) == [HeaderAt(lines[1], 17)];
  }

  /** For the same request the reported difference is wrong by one, and so is the second record. */
  lemma WrongReport()
    ensures ParseRequest(SAMPLE, MAX_NUM_HEADERS).Ok?
    ensures ParseRequest(SAMPLE, MAX_NUM_HEADERS).val.headers == SAMPLE_HEADERS
    ensures var x := Splice(SAMPLE, SAMPLE_HEADERS[0].value, [122]);
            var r' := ParseRequest(x, MAX_NUM_HEADERS);
            && r'.Ok? && r'.pos - ParseRequest(SAMPLE, MAX_NUM_HEADERS).pos == -1
            && SAMPLE_HEADERS[0 := Resized(SAMPLE_HEADERS[0], 1)] != r'.val.headers
  {
    hide ParseRequest, Splice;
    SampleParses();
    var value := [122 as Byte];
    EditRequest(SAMPLE, MAX_NUM_HEADERS, 0, value);
    ReportedDifference(SAMPLE, MAX_NUM_HEADERS, 0, value);
  }

  /** `G / HTTP/1.1` and a header `B:x` that a second line continues. */
  function FoldSample(): RequestText {
    RequestText(None, [71], 0, [47], 0, 1, false,
                Block([Named([66], [], [120], [], false), Fold([32, 121], [], false)], false))
  }

  /** For that request, looking for `A` is undefined: the scan compares through a null pointer. */
  lemma NullName()
    ensures var s := PrintRequest(FoldSample(), []);
            var r := ParseRequest(s, MAX_NUM_HEADERS);
            && r.Ok? && |r.val.headers| == 2
            && RoomyFrom(s, |s|, r.val.headers, 0, [65], 1, [122])
            && !Editable(s, |s|, r.val.headers, 0, [65], 1, [122])
  {
    hide ParseRequest, PrintRequest, Matches, Editable, RequestAt, LegalRequest;
    FoldSampleLegal();
    ParsePrintRequest(FoldSample(), MAX_NUM_HEADERS, []);
    FoldSampleHeaders();
    FoldSampleText();
    var s := PrintRequest(FoldSample(), []);
    var hs := ParseRequest(s, MAX_NUM_HEADERS).val.headers;
    RequestWellFormed(s, MAX_NUM_HEADERS);
    OneByteMatches(s, hs[0], [65]);
    FoldReached(s, |s|, hs, 0, 1, [65], 1, [122]);
  }

  lemma FoldSampleLegal()
    ensures LegalRequest(FoldSample(), MAX_NUM_HEADERS)
  {
    var lines := FoldSample().block.lines;
    assert forall l <- lines :: l == lines[0] || l == lines[1];
    assert LegalLine(lines[0]) && LegalLine(lines[1]);
  }

  lemma FoldSampleHeaders()
    ensures var hs := RequestAt(FoldSample()).headers;
            |hs| == 2 && hs[0] == Header(Some(Slice(13, 1)), Slice(15, 1)) && hs[1] == Header(None, Slice(17, 2))
  {
    var lines := FoldSample().block.lines;
    assert lines[1..] == [lines[1]];
    assert HeadersAt([lines[1]], 17) == [HeaderAt(lines[1], 17)];
  }

  lemma FoldSampleText()
    ensures var s := PrintRequest(FoldSample(), []); |s| > 13 && s[13] == 66
  {
    hide PrintMethodAndPath, PrintVersionLine;
    var m := FoldSample();
    StartText(m, PrintBlock(m.block, []));
  }
}
