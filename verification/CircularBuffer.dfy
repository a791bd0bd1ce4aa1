/**
  The overwriting ring buffer.  Its content is a queue bounded to the last N bytes: writing
  drops the oldest bytes when there is no room, reading takes from the front.
 */
module CircularBuffer {
  import opened Bytes

  /** The last `n` elements. */
  function LastN(s: seq<Byte>, n: nat): (r: seq<Byte>)
    ensures |r| == if |s| <= n then |s| else n
  {
    if |s| <= n then s else s[|s| - n..]
  }

  lemma LastNFits(s: seq<Byte>, n: nat)
    requires |s| <= n
    ensures LastN(s, n) == s
  {
  }

  lemma LastNAppend(s: seq<Byte>, t: seq<Byte>, n: nat)
    ensures LastN(LastN(s, n) + t, n) == LastN(s + t, n)
  {
  }

  /** The bound held while data is appended byte by byte. */
  lemma LastNOneMore(before: seq<Byte>, data: seq<Byte>, i: nat, n: nat)
    requires i < |data|
    ensures LastN(LastN(before + data[..i], n) + [data[i]], n) == LastN(before + data[..i + 1], n)
  {
    LastNAppend(before + data[..i], [data[i]], n);
    assert before + data[..i] + [data[i]] == before + data[..i + 1];
  }

  /** What the indices `tail` and `head` delimit in the array, oldest byte first. */
  function Live(all: seq<Byte>, tail: nat, head: nat, isFull: bool): (c: seq<Byte>)
    requires tail < |all| && head < |all| && (isFull ==> head == tail)
    ensures |c| == if isFull then |all| else if head >= tail then head - tail else |all| + head - tail
  {
    if isFull || head < tail then all[tail..] + all[..head] else all[tail..head]
  }

  function Next(i: nat, n: nat): (j: nat)
    requires i < n
    ensures j < n
  {
    if i + 1 == n then 0 else i + 1
  }

  /** Storing a byte at the head appends it; in a full buffer it replaces the oldest one. */
  lemma LivePut(all: seq<Byte>, tail: nat, head: nat, isFull: bool, b: Byte)
    requires tail < |all| && head < |all| && (isFull ==> head == tail)
    ensures var tail' := if isFull then Next(tail, |all|) else tail;
            var head' := Next(head, |all|);
            Live(all[head := b], tail', head', tail' == head') == LastN(Live(all, tail, head, isFull) + [b], |all|)
  {
    hide LastN;
    if isFull {
      PutFull(all, head, b);
    } else if head < tail {
      PutWrapped(all, tail, head, b);
    } else {
      PutStraight(all, tail, head, b);
    }
  }

  lemma PutFull(all: seq<Byte>, head: nat, b: Byte)
    requires head < |all|
    ensures Live(all[head := b], Next(head, |all|), Next(head, |all|), true) == LastN(Live(all, head, head, true) + [b], |all|)
  {
    var x := all[head := b];
    assert LastN(Live(all, head, head, true) + [b], |all|) == all[head + 1..] + (all[..head] + [b]);
    assert x[head + 1..] == all[head + 1..];
    if head + 1 == |all| {
      assert x[0..] + x[..0] == all[..head] + [b];
    } else {
      assert x[..head + 1] == all[..head] + [b];
    }
  }

  lemma PutWrapped(all: seq<Byte>, tail: nat, head: nat, b: Byte)
    requires head < tail < |all|
    ensures Live(all[head := b], tail, head + 1, tail == head + 1) == LastN(Live(all, tail, head, false) + [b], |all|)
  {
    var x := all[head := b];
    assert x[tail..] == all[tail..];
    assert x[..head + 1] == all[..head] + [b];
  }

  lemma PutStraight(all: seq<Byte>, tail: nat, head: nat, b: Byte)
    requires tail <= head < |all|
    ensures var h := Next(head, |all|);
            Live(all[head := b], tail, h, tail == h) == LastN(Live(all, tail, head, false) + [b], |all|)
  {
    var x := all[head := b];
    assert x[tail..head + 1] == all[tail..head] + [b];
    if head + 1 == |all| { assert x[tail..] + x[..0] == x[tail..head + 1]; }
  }

  /** Moving the tail on takes the oldest byte, if there is any. */
  lemma LiveTake(all: seq<Byte>, tail: nat, head: nat, isFull: bool)
    requires tail < |all| && head < |all| && (isFull ==> head == tail)
    ensures var before := Live(all, tail, head, isFull);
            var after := Live(all, Next(tail, |all|), head, false);
            if before != [] then before == [all[tail]] + after else |after| == |all| - 1
  {
    if isFull || head < tail {
      assert all[tail..] == [all[tail]] + all[tail + 1..];
      if tail + 1 == |all| { assert all[0..head] == all[..head]; }
    } else if head > tail {
      assert all[tail..head] == [all[tail]] + all[tail + 1..head];
    }
  }

  /** The size after `len` bytes were taken: from an empty buffer it wraps around. */
  function SizeAfter(size: nat, len: nat, n: nat): nat
    requires n > 0
  {
    if len == 0 then size
    else
      var s := SizeAfter(size, len - 1, n);
      if s == 0 then n - 1 else s - 1
  }

  /** The size after a read is what it should be just when the read stays within the content. */
  lemma {:induction false} ReadKeepsSize(size: nat, len: nat, n: nat)
    requires n > 0
    ensures SizeAfter(size, len, n) == size - len <==> len <= size
    decreases len
  {
    if len > 0 { ReadKeepsSize(size, len - 1, n); }
  }

  class Ring {
    const buf: array<Byte>
    var tail: nat
    var head: nat
    var isFull: bool

    ghost predicate Valid()
      reads this
    {
      head < buf.Length && tail < buf.Length && (isFull ==> head == tail)
    }

    /** What is in the buffer, oldest byte first. */
    function Contents(): (c: seq<Byte>)
      requires Valid()
      reads this, buf
      ensures |c| <= buf.Length && (|c| == buf.Length <==> isFull)
    {
      Live(buf[..], tail, head, isFull)
    }

    constructor (size: nat)
      requires size >= 1
      ensures Valid() && fresh(buf) && buf.Length == size && Contents() == []
    {
      buf := new Byte[size](_ => 0);
      tail, head, isFull := 0, 0, false;
    }

    method AdvancePointer()
      requires Valid()
      modifies this
      ensures Valid()
      ensures head == Next(old(head), buf.Length)
      ensures tail == if old(isFull) then Next(old(tail), buf.Length) else old(tail)
      ensures isFull <==> tail == head
    {
      if isFull {
        tail := tail + 1;
        if tail == buf.Length { tail := 0; }
      }
      head := head + 1;
      if head == buf.Length { head := 0; }
      isFull := tail == head;
    }

    method RetreatPointer()
      requires Valid()
      modifies this
      ensures Valid() && !isFull && head == old(head)
      ensures tail == Next(old(tail), buf.Length)
    {
      isFull := false;
      tail := tail + 1;
      if tail == buf.Length { tail := 0; }
    }

    /** One byte written: it becomes the newest, and in a full buffer replaces the oldest. */
    method PutByte(b: Byte)
      requires Valid()
      modifies this, buf
      ensures Valid() && Contents() == LastN(old(Contents()) + [b], buf.Length)
    {
      hide Live, LastN;
      LivePut(buf[..], tail, head, isFull, b);
      ghost var all, h := buf[..], head;
      buf[head] := b;
      assert buf[..] == all[h := b];
      AdvancePointer();
    }

    method Write(data: seq<Byte>) returns (n: nat)
      requires Valid()
      modifies this, buf
      ensures Valid() && n == |data|
      ensures Contents() == LastN(old(Contents()) + data, buf.Length)
    {
      hide Live, LastN;
      ghost var before := Contents();
      LastNFits(before, buf.Length);
      assert before + data[..0] == before;
      for i := 0 to |data|
        invariant Valid() && Contents() == LastN(before + data[..i], buf.Length)
      {
        PutByte(data[i]);
        LastNOneMore(before, data, i, buf.Length);
      }
      assert data[..|data|] == data;
      n := |data|;
    }

    /** One byte read: the oldest, if there is any; the size wraps around if there is none. */
    method TakeByte() returns (b: Byte)
      requires Valid()
      modifies this
      ensures Valid() && !isFull
      ensures if old(Contents()) != [] then old(Contents()) == [b] + Contents() else |Contents()| == buf.Length - 1
    {
      LiveTake(buf[..], tail, head, isFull);
      b := buf[tail];
      RetreatPointer();
    }

    /**
      Reads `len` bytes into `data`.  Within the content they come out in order; every byte
      past it makes the size wrap around.
     */
    method Get(data: array<Byte>, len: nat)
      requires Valid() && len <= data.Length && data != buf
      modifies this, data
      ensures Valid()
      ensures len <= |old(Contents())| ==> data[..len] + Contents() == old(Contents())
      ensures |Contents()| == SizeAfter(|old(Contents())|, len, buf.Length)
      ensures data[len..] == old(data[len..])
    {
      hide Live;
      ghost var before, rest := Contents(), data[len..];
      assert data[..0] + before == before;
      for i := 0 to len
        invariant Valid()
        invariant i <= |before| ==> data[..i] + Contents() == before
        invariant |Contents()| == SizeAfter(|before|, i, buf.Length)
        invariant data[len..] == rest
      {
        ghost var taken := data[..i];
        var b := TakeByte();
        data[i] := b;
        assert data[..i + 1] == taken + [b];
        Shift(taken, b, Contents());
      }
    }

    method Clear()
      requires Valid()
      modifies this, buf
      ensures Valid() && Contents() == []
    {
      forall k | 0 <= k < buf.Length {
        buf[k] := 0;
      }
      head, tail, isFull := 0, 0, false;
    }

    method CurrentSize() returns (size: nat)
      requires Valid()
      ensures size == |Contents()|
    {
      size := buf.Length;
      if !isFull {
        size := if head >= tail then head - tail else buf.Length + head - tail;
      }
    }
  }

  lemma Shift(a: seq<Byte>, b: Byte, c: seq<Byte>)
    ensures a + ([b] + c) == (a + [b]) + c
  {
  }

  // ----- any sequence of writes and reads -----

  datatype Op = Write(data: seq<Byte>) | Read(len: nat)

  /** The bytes a read delivered, and where in the written stream they were. */
  datatype Piece = Piece(at: int, data: seq<Byte>)

  /**
    The queue after some operations: all that was ever written, the content, and for each
    read the place in the written stream where the bytes delivered were.
   */
  datatype History = History(written: seq<Byte>, content: seq<Byte>, pieces: seq<Piece>)

  /** What the operations of the ring buffer do, with reads that stay within the content. */
  function Apply(h: History, op: Op, n: nat): History {
    match op
    case Write(data) => h.(written := h.written + data, content := LastN(h.content + data, n))
    case Read(len) =>
      if len > |h.content| then h
      else h.(content := h.content[len..],
              pieces := h.pieces + [Piece(|h.written| - |h.content|, h.content[..len])])
  }

  function ApplyAll(ops: seq<Op>, n: nat): History {
    if ops == [] then History([], [], [])
    else Apply(ApplyAll(ops[..|ops| - 1], n), ops[|ops| - 1], n)
  }

  /** Where the next byte to be delivered is in the written stream. */
  function Position(h: History): int {
    |h.written| - |h.content|
  }

  /**
    The content is the end of the written stream, at most its last `n` bytes; every read
    delivered a piece of the stream; and the pieces follow each other without overlap.
   */
  ghost predicate InOrder(h: History, n: nat) {
    && |h.content| <= n && |h.content| <= |h.written|
    && h.content == h.written[Position(h)..]
    && (forall i :: 0 <= i < |h.pieces| ==>
          && 0 <= h.pieces[i].at && h.pieces[i].at + |h.pieces[i].data| <= Position(h)
          && h.written[h.pieces[i].at..h.pieces[i].at + |h.pieces[i].data|] == h.pieces[i].data)
    && (forall i, j :: 0 <= i < j < |h.pieces| ==> h.pieces[i].at + |h.pieces[i].data| <= h.pieces[j].at)
  }

  lemma WriteInOrder(h: History, data: seq<Byte>, n: nat)
    requires InOrder(h, n)
    ensures InOrder(Apply(h, Write(data), n), n)
  {
    var h' := Apply(h, Write(data), n);
    forall i | 0 <= i < |h.pieces|
      ensures h'.written[h.pieces[i].at..h.pieces[i].at + |h.pieces[i].data|] == h.pieces[i].data
    {
      var lo, hi := h.pieces[i].at, h.pieces[i].at + |h.pieces[i].data|;
      assert h'.written[lo..hi] == h.written[lo..hi];
    }
    assert h.content + data == h'.written[Position(h)..];
  }

  lemma ReadInOrder(h: History, len: nat, n: nat)
    requires InOrder(h, n)
    ensures InOrder(Apply(h, Read(len), n), n)
  {
    if len <= |h.content| {
      assert h.content[..len] == h.written[Position(h)..Position(h) + len];
      assert h.content[len..] == h.written[Position(h) + len..];
    }
  }

  lemma {:induction false} AllInOrder(ops: seq<Op>, n: nat)
    ensures InOrder(ApplyAll(ops, n), n)
    decreases |ops|
  {
    if ops != [] {
      var h, op := ApplyAll(ops[..|ops| - 1], n), ops[|ops| - 1];
      AllInOrder(ops[..|ops| - 1], n);
      match op
      case Write(data) => WriteInOrder(h, data, n);
      case Read(len) => ReadInOrder(h, len, n);
    }
  }

  // ----- what is lost -----

  /** The bytes all reads delivered, one read after the other. */
  function Delivered(pieces: seq<Piece>): seq<Byte> {
    if pieces == [] then [] else Delivered(pieces[..|pieces| - 1]) + pieces[|pieces| - 1].data
  }

  /** How many bytes one operation overwrites. */
  function Excess(h: History, op: Op, n: nat): nat {
    if op.Write? && |h.content| + |op.data| > n then |h.content| + |op.data| - n else 0
  }

  /** How many bytes the writes found no room for, so that as many older ones were overwritten. */
  function Overwritten(ops: seq<Op>, n: nat): nat {
    if ops == [] then 0
    else
      var before, op := ops[..|ops| - 1], ops[|ops| - 1];
      Overwritten(before, n) + Excess(ApplyAll(before, n), op, n)
  }

  /** The account after one operation, and whether it still is a faithful queue. */
  lemma OneOperation(h: History, op: Op, n: nat)
    ensures var h' := Apply(h, op, n);
            |h'.written| - |Delivered(h'.pieces)| - |h'.content|
            == |h.written| - |Delivered(h.pieces)| - |h.content| + Excess(h, op, n)
    ensures var h' := Apply(h, op, n);
            Delivered(h.pieces) + h.content == h.written && Excess(h, op, n) == 0 ==>
              Delivered(h'.pieces) + h'.content == h'.written
  {
    hide LastN;
    var h' := Apply(h, op, n);
    match op
    case Write(data) =>
      if Excess(h, op, n) == 0 {
        LastNFits(h.content + data, n);
        assert Delivered(h.pieces) + (h.content + data) == (Delivered(h.pieces) + h.content) + data;
      }
    case Read(len) =>
      if len <= |h.content| {
        var piece := h'.pieces[|h.pieces|];
        assert h'.pieces[..|h.pieces|] == h.pieces;
        assert Delivered(h'.pieces) == Delivered(h.pieces) + piece.data;
        assert piece.data + h'.content == h.content;
        assert (Delivered(h.pieces) + piece.data) + h'.content == Delivered(h.pieces) + (piece.data + h'.content);
      }
  }

  /** `lost` is what is missing from the bytes delivered and held. */
  ghost predicate Balanced(h: History, lost: nat) {
    |h.written| == |Delivered(h.pieces)| + |h.content| + lost
  }

  /** As many bytes as were written were delivered, are still in the buffer, or were overwritten. */
  lemma {:induction false} Conservation(ops: seq<Op>, n: nat)
    ensures Balanced(ApplyAll(ops, n), Overwritten(ops, n))
    decreases |ops|
  {
    hide Apply, Delivered, Excess;
    if ops == [] {
      NothingDelivered();
    } else {
      var before, op := ops[..|ops| - 1], ops[|ops| - 1];
      Conservation(before, n);
      OneOperation(ApplyAll(before, n), op, n);
    }
  }

  lemma NothingDelivered()
    ensures Delivered([]) == []
  {
  }

  /** The buffer is a faithful queue just if no write ever found too little room. */
  lemma {:induction false} NothingLost(ops: seq<Op>, n: nat)
    ensures var h := ApplyAll(ops, n);
            Delivered(h.pieces) + h.content == h.written <==> Overwritten(ops, n) == 0
    decreases |ops|
  {
    hide Apply, Delivered, Excess;
    Conservation(ops, n);
    NothingDelivered();
    if ops != [] && Overwritten(ops, n) == 0 {
      var before, op := ops[..|ops| - 1], ops[|ops| - 1];
      NothingLost(before, n);
      OneOperation(ApplyAll(before, n), op, n);
    }
  }

  /** A run of bytes that left the buffer, by being read or by being overwritten. */
  datatype Segment = Segment(data: seq<Byte>, read: bool)

  /** What left the buffer, in the order in which it left. */
  function Left(ops: seq<Op>, n: nat): seq<Segment> {
    if ops == [] then []
    else
      var before, op := ops[..|ops| - 1], ops[|ops| - 1];
      Left(before, n) + LeftBy(ApplyAll(before, n), op, n)
  }

  /** A write that finds too little room overwrites the oldest bytes, a read takes the oldest. */
  function LeftBy(h: History, op: Op, n: nat): seq<Segment> {
    match op
    case Write(data) => if Excess(h, op, n) == 0 then [] else [Segment((h.content + data)[..Excess(h, op, n)], false)]
    case Read(len) => if len > |h.content| then [] else [Segment(h.content[..len], true)]
  }

  function Joined(segments: seq<Segment>): seq<Byte> {
    if segments == [] then [] else Joined(segments[..|segments| - 1]) + segments[|segments| - 1].data
  }

  /** The bytes of the segments that were read, or of those that were overwritten. */
  function JoinedIf(segments: seq<Segment>, read: bool): seq<Byte> {
    if segments == [] then []
    else
      var front, last := segments[..|segments| - 1], segments[|segments| - 1];
      JoinedIf(front, read) + if last.read == read then last.data else []
  }

  /**
    Every byte written is accounted for, in place: the segments that left the buffer and then
    the content are the written stream.  The segments read are what was delivered.
   */
  lemma {:induction false} Reassembly(ops: seq<Op>, n: nat)
    ensures var h := ApplyAll(ops, n);
            && Joined(Left(ops, n)) + h.content == h.written
            && JoinedIf(Left(ops, n), true) == Delivered(h.pieces)
            && |JoinedIf(Left(ops, n), false)| == Overwritten(ops, n)
    decreases |ops|
  {
    hide Apply, Delivered, Excess, LeftBy, Joined, JoinedIf;
    if ops == [] {
      NothingDelivered();
      NothingJoined();
    } else {
      var before, op := ops[..|ops| - 1], ops[|ops| - 1];
      Reassembly(before, n);
      OneMoreSegment(ApplyAll(before, n), op, n, Left(before, n));
    }
  }

  lemma NothingJoined()
    ensures Joined([]) == [] && JoinedIf([], true) == [] && JoinedIf([], false) == []
  {
  }

  lemma JoinOne(segments: seq<Segment>, last: Segment)
    ensures Joined(segments + [last]) == Joined(segments) + last.data
    ensures forall b :: JoinedIf(segments + [last], b) == JoinedIf(segments, b) + if last.read == b then last.data else []
  {
    assert (segments + [last])[..|segments|] == segments;
  }

  lemma OneMoreSegment(h: History, op: Op, n: nat, left: seq<Segment>)
    requires Joined(left) + h.content == h.written && JoinedIf(left, true) == Delivered(h.pieces)
    ensures var h', left' := Apply(h, op, n), left + LeftBy(h, op, n);
            && Joined(left') + h'.content == h'.written
            && JoinedIf(left', true) == Delivered(h'.pieces)
            && |JoinedIf(left', false)| == |JoinedIf(left, false)| + Excess(h, op, n)
  {
    hide Joined, JoinedIf, Delivered, LastN;
    match op
    case Write(data) => SegmentOfWrite(h, data, n, left);
    case Read(len) =>
      if len <= |h.content| {
        SegmentOfRead(h, len, n, left);
      } else {
        assert left + [] == left;
      }
  }

  lemma SegmentOfWrite(h: History, data: seq<Byte>, n: nat, left: seq<Segment>)
    requires Joined(left) + h.content == h.written
    ensures var op := Write(data);
            var content, left' := Apply(h, op, n).content, left + LeftBy(h, op, n);
            && Joined(left') + content == h.written + data
            && JoinedIf(left', true) == JoinedIf(left, true)
            && |JoinedIf(left', false)| == |JoinedIf(left, false)| + Excess(h, op, n)
  {
    hide Joined, JoinedIf, LastN;
    var e, all := Excess(h, Write(data), n), h.content + data;
    LastNIs(all, n);
    Cut(Joined(left), all, e);
    assert Joined(left) + all == h.written + data;
    if e == 0 {
      assert left + [] == left;
    } else {
      JoinOne(left, Segment(all[..e], false));
    }
  }

  lemma SegmentOfRead(h: History, len: nat, n: nat, left: seq<Segment>)
    requires len <= |h.content| && Joined(left) + h.content == h.written && JoinedIf(left, true) == Delivered(h.pieces)
    ensures var h', left' := Apply(h, Read(len), n), left + LeftBy(h, Read(len), n);
            && Joined(left') + h'.content == h.written
            && JoinedIf(left', true) == Delivered(h'.pieces)
            && |JoinedIf(left', false)| == |JoinedIf(left, false)|
  {
    hide Joined, JoinedIf;
    var h' := Apply(h, Read(len), n);
    JoinOne(left, Segment(h.content[..len], true));
    Cut(Joined(left), h.content, len);
    assert h'.pieces[..|h.pieces|] == h.pieces;
  }

  lemma Cut(front: seq<Byte>, s: seq<Byte>, e: nat)
    requires e <= |s|
    ensures (front + s[..e]) + s[e..] == front + s
  {
  }

  lemma LastNIs(s: seq<Byte>, n: nat)
    ensures LastN(s, n) == s[if |s| > n then |s| - n else 0..]
  {
  }

  lemma OneMore(ops: seq<Op>, i: nat, n: nat)
    requires i < |ops|
    ensures ApplyAll(ops[..i + 1], n) == Apply(ApplyAll(ops[..i], n), ops[i], n)
  {
    assert ops[..i + 1][..i] == ops[..i];
  }

  /** One operation on a buffer; `data` is what a read delivered that stays within the content. */
  method ExecuteOne(ring: Ring, op: Op) returns (delivered: bool, data: seq<Byte>)
    requires ring.Valid()
    modifies ring, ring.buf
    ensures ring.Valid()
    ensures op.Write? ==> !delivered && ring.Contents() == LastN(old(ring.Contents()) + op.data, ring.buf.Length)
    ensures op.Read? ==>
              && (delivered <==> op.len <= |old(ring.Contents())|)
              && if delivered then |data| == op.len && data + ring.Contents() == old(ring.Contents())
                 else ring.Contents() == old(ring.Contents())
  {
    hide Live, LastN;
    delivered, data := false, [];
    match op {
      case Write(bytes) =>
        var _ := ring.Write(bytes);
      case Read(len) =>
        var size := ring.CurrentSize();
        if len <= size {
          var a := new Byte[len](_ => 0);
          ring.Get(a, len);
          delivered, data := true, a[..len];
        }
    }
  }

  /** What `pieces` holds are the bytes of the reads recorded. */
  ghost predicate Collected(pieces: seq<seq<Byte>>, h: History) {
    |pieces| == |h.pieces| && forall i :: 0 <= i < |pieces| ==> pieces[i] == h.pieces[i].data
  }

  lemma CollectOne(pieces: seq<seq<Byte>>, h: History, len: nat, n: nat, data: seq<Byte>, content: seq<Byte>)
    requires Collected(pieces, h) && len <= |h.content| && |data| == len && data + content == h.content
    ensures Collected(pieces + [data], Apply(h, Read(len), n)) && Apply(h, Read(len), n).content == content
  {
    assert h.content[..len] == data && h.content[len..] == content;
  }

  /**
    Any sequence of operations on an empty buffer, by a caller that reads no more than there
    is: the content, and in `pieces` what each read delivered, are those of the history.
   */
  method Execute(ring: Ring, ops: seq<Op>) returns (pieces: seq<seq<Byte>>)
    requires ring.Valid() && ring.Contents() == []
    modifies ring, ring.buf
    ensures ring.Valid() && ring.Contents() == ApplyAll(ops, ring.buf.Length).content
    ensures Collected(pieces, ApplyAll(ops, ring.buf.Length))
  {
    hide Live, LastN, Collected, ApplyAll;
    var n := ring.buf.Length;
    pieces := [];
    NothingYet(n);
    assert ops[..0] == [];
    for i := 0 to |ops|
      invariant ring.Valid() && ring.Contents() == ApplyAll(ops[..i], n).content
      invariant Collected(pieces, ApplyAll(ops[..i], n))
    {
      ghost var h := ApplyAll(ops[..i], n);
      OneMore(ops, i, n);
      var delivered, data := ExecuteOne(ring, ops[i]);
      if delivered {
        CollectOne(pieces, h, ops[i].len, n, data, ring.Contents());
        pieces := pieces + [data];
      } else {
        assert Apply(h, ops[i], n).pieces == h.pieces;
        SamePieces(pieces, h, Apply(h, ops[i], n));
      }
    }
    assert ops[..|ops|] == ops;
  }

  lemma NothingYet(n: nat)
    ensures ApplyAll([], n).content == [] && Collected([], ApplyAll([], n))
  {
  }

  lemma SamePieces(pieces: seq<seq<Byte>>, h: History, h': History)
    requires Collected(pieces, h) && h'.pieces == h.pieces
    ensures Collected(pieces, h')
  {
  }

  /** A read of one byte from an empty buffer leaves it, by its size, full but for one byte. */
  method ReadFromEmpty(capacity: nat) returns (size: nat)
    requires capacity >= 1
    ensures size == capacity - 1
  {
    var ring := new Ring(capacity);
    var data := new Byte[1](_ => 0);
    ring.Get(data, 1);
    size := ring.CurrentSize();
  }
}
