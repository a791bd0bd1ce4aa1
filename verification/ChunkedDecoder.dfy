/**
  The resumable in-place decoder: it overwrites the buffer it is given, moving data in bulk,
  and keeps its state between calls.  Each call is proved to do what feeding the bytes of the
  buffer to the automaton one at a time does.
 */
module ChunkedDecoder {
  import opened Bytes
  import opened ChunkedAutomaton

  /** What has been read so far, `out` and `src`, is a prefix of the run on the whole input. */
  ghost predicate Reached(c0: Config, input: seq<Byte>, c: Config, out: seq<Byte>, src: nat) {
    && src <= |input|
    && |out| <= src
    && Valid(c)
    && Feed(c0, input) == Feed(c, input[src..]).After(out, src)
  }

  lemma ReachStart(c0: Config, input: seq<Byte>)
    requires Valid(c0)
    ensures Reached(c0, input, c0, [], 0)
  {
    assert input[0..] == input;
    AfterNothing(Feed(c0, input));
  }

  lemma ReachNext(c0: Config, input: seq<Byte>, c: Config, out: seq<Byte>, src: nat)
    requires Reached(c0, input, c, out, src) && src < |input| && Step(c, input[src]).Next?
    ensures Reached(c0, input, Step(c, input[src]).c, out + Step(c, input[src]).out, src + 1)
  {
    var m := Step(c, input[src]);
    StepKeepsValid(c, input[src]);
    assert input[src..][1..] == input[src + 1..];
    AfterAfter(Feed(m.c, input[src + 1..]), out, src, m.out, 1);
  }

  lemma NoWrap(c: Config, v: int)
    requires Valid(c) && c.state == ChunkSize && c.hexCount < MAX_HEX_DIGITS && 0 <= v < 16
    ensures (c.left * 16 + v) % SIZE_T_VALUES == c.left * 16 + v
  {
    Pow16Fits(c.hexCount + 1);
  }

  /** The end of the size digits is decided without consuming the byte that ends them. */
  lemma ReachExt(c0: Config, input: seq<Byte>, c: Config, out: seq<Byte>, src: nat)
    requires Reached(c0, input, c, out, src) && src < |input|
    requires c.state == ChunkSize && c.hexCount > 0 && !IsHex(input[src])
    ensures Reached(c0, input, c.(state := ChunkExt, hexCount := 0), out, src)
  {
    Pow16Fits(c.hexCount);
    var t := input[src..];
    assert Step(c, t[0]) == Step(c.(state := ChunkExt, hexCount := 0), t[0]);
  }

  /** A run of `n` data bytes is consumed and emitted as a whole. */
  lemma ReachData(c0: Config, input: seq<Byte>, c: Config, out: seq<Byte>, src: nat, n: nat)
    requires Reached(c0, input, c, out, src) && c.state == ChunkData
    requires n <= c.left && src + n <= |input|
    ensures Reached(c0, input, AfterData(c, n), out + input[src..src + n], src + n)
  {
    var t := input[src..];
    FeedData(c, t, n);
    assert t[..n] == input[src..src + n] && t[n..] == input[src + n..];
    AfterAfter(Feed(AfterData(c, n), t[n..]), out, src, t[..n], n);
  }

  lemma SplitSlice(buf: array<Byte>, lo: nat, mid: nat, hi: nat)
    requires lo <= mid <= hi <= buf.Length
    ensures buf[lo..mid] == buf[lo..hi][..mid - lo]
    ensures buf[mid..hi] == buf[lo..hi][mid - lo..]
  {
  }

  /** What is left of a run when no more input is available, or when it is decided. */
  lemma ReachEnd(c0: Config, input: seq<Byte>, c: Config, out: seq<Byte>, src: nat)
    requires Reached(c0, input, c, out, src)
    ensures Valid(c)
    ensures src == |input| ==> Feed(c0, input) == Run(c, out, src, More)
    ensures src < |input| && Step(c, input[src]).Reject? ==> Feed(c0, input) == Run(c, out, src, Failed)
    ensures src < |input| && Step(c, input[src]).Finish? ==>
              Feed(c0, input) == Run(Step(c, input[src]).c, out, src + 1, Complete)
  {
    assert out + [] == out;
  }

  /** The move of `n` bytes from `src` down to `dst`; the regions may overlap. */
  method Memmove(buf: array<Byte>, dst: nat, src: nat, n: nat)
    requires dst <= src && src + n <= buf.Length
    modifies buf
    ensures buf[..dst] == old(buf[..dst])
    ensures buf[dst..dst + n] == old(buf[src..src + n])
    ensures buf[src + n..] == old(buf[src + n..])
  {
    forall k | 0 <= k < n {
      buf[dst + k] := buf[src + k];
    }
  }

  /** Appends the `n` bytes at `src` to the `dst` bytes decoded so far; the input behind them stays. */
  method MoveData(buf: array<Byte>, dst: nat, src: nat, n: nat, bufsz: nat)
    requires dst <= src && src + n <= bufsz <= buf.Length
    modifies buf
    ensures buf[..dst + n] == old(buf[..dst]) + old(buf[src..bufsz])[..n]
    ensures buf[src + n..bufsz] == old(buf[src..bufsz])[n..]
    ensures buf[src + n..] == old(buf[src + n..])
  {
    SplitSlice(buf, src, src + n, bufsz);
    ghost var rest := buf[src + n..];
    if dst != src {
      Memmove(buf, dst, src, n);
    }
    assert buf[src + n..bufsz] == rest[..bufsz - src - n];
  }

  /** What is left unread, as it was in `all`, is moved up behind the decoded bytes. */
  method CloseUp(buf: array<Byte>, dst: nat, src: nat, bufsz: nat, ghost all: seq<Byte>)
    requires dst <= src <= bufsz <= buf.Length == |all| && buf[src..] == all[src..]
    modifies buf
    ensures buf[..dst] == old(buf[..dst])
    ensures buf[dst..dst + (bufsz - src)] == all[src..bufsz]
    ensures buf[bufsz..] == all[bufsz..]
  {
    assert buf[src..bufsz] == buf[src..][..bufsz - src] == all[src..bufsz];
    assert buf[bufsz..] == buf[src..][bufsz - src..] == all[bufsz..];
    if dst != src {
      Memmove(buf, dst, src, bufsz - src);
    }
  }

  /** How a case of the decoder's switch ends: on to the next state, or out of the loop. */
  datatype Exit = GoOn | Leave(outcome: Outcome)

  class Decoder {
    var bytesLeftInChunk: nat
    var consumeTrailer: bool
    var hexCount: nat
    var state: State

    function Conf(): Config
      reads this
    {
      Config(state, hexCount, bytesLeftInChunk, consumeTrailer)
    }

    constructor (consume: bool)
      ensures Conf() == Start(consume) && Valid(Conf())
    {
      bytesLeftInChunk, consumeTrailer, hexCount, state := 0, consume, 0, ChunkSize;
    }

    /** The rest of the input, from `src` on, is still in the buffer and still to be read. */
    ghost predicate Reading(buf: array<Byte>, c0: Config, input: seq<Byte>, out: seq<Byte>, src: nat)
      reads this, buf
    {
      && src <= |input| <= buf.Length
      && buf[src..|input|] == input[src..]
      && Reached(c0, input, Conf(), out, src)
    }

    /** Where the decoder stands when a case ends. */
    ghost predicate Ends(buf: array<Byte>, c0: Config, input: seq<Byte>, out: seq<Byte>, src: nat, exit: Exit)
      reads this, buf
    {
      match exit
      case GoOn => Reading(buf, c0, input, out, src)
      case Leave(outcome) =>
        && Valid(Conf())
        && Feed(c0, input) == Run(Conf(), out, src, outcome)
    }

    /** Facts about the next byte of the input that every scanning loop needs. */
    lemma NextByte(buf: array<Byte>, c0: Config, input: seq<Byte>, out: seq<Byte>, src: nat)
      requires Reading(buf, c0, input, out, src) && src < |input|
      ensures buf[src] == input[src]
      ensures buf[src + 1..|input|] == input[src + 1..]
      ensures var m := Step(Conf(), input[src]);
              && (m.Next? ==> Reached(c0, input, m.c, out + m.out, src + 1))
              && (m.Next? && m.out == [] ==> Reached(c0, input, m.c, out, src + 1))
              && (m.Reject? ==> Feed(c0, input) == Run(Conf(), out, src, Failed))
              && (m.Finish? ==> Valid(m.c) && Feed(c0, input) == Run(m.c, out, src + 1, Complete))
    {
      assert buf[src] == buf[src..|input|][0];
      assert buf[src + 1..|input|] == buf[src..|input|][1..];
      ReachEnd(c0, input, Conf(), out, src);
      var m := Step(Conf(), input[src]);
      StepKeepsValid(Conf(), input[src]);
      if m.Next? {
        ReachNext(c0, input, Conf(), out, src);
        if m.out == [] { assert out + [] == out; }
      }
    }

    method ReadChunkSize(buf: array<Byte>, start: nat, bufsz: nat, ghost c0: Config, ghost input: seq<Byte>, ghost out: seq<Byte>)
      returns (src: nat, exit: Exit)
      requires bufsz == |input| && Reading(buf, c0, input, out, start) && state == ChunkSize
      modifies this
      ensures start <= src <= bufsz && Ends(buf, c0, input, out, src, exit)
      ensures exit == GoOn ==> state == ChunkExt
    {
      hide Reached, Feed, Valid;
      src := start;
      while true
        invariant start <= src <= bufsz && state == ChunkSize && Reading(buf, c0, input, out, src)
        decreases bufsz - src
      {
        ReachEnd(c0, input, Conf(), out, src);
        if src == bufsz {
          return src, Leave(More);
        }
        NextByte(buf, c0, input, out, src);
        var v := DecodeHex(buf[src]);
        if v == -1 {
          if hexCount == 0 {
            return src, Leave(Failed);
          }
          break;
        }
        if hexCount == MAX_HEX_DIGITS {
          return src, Leave(Failed);
        }
        NoWrap(Conf(), v);
        bytesLeftInChunk := (bytesLeftInChunk * 16 + v) % SIZE_T_VALUES;
        hexCount := hexCount + 1;
        src := src + 1;
      }
      ReachExt(c0, input, Conf(), out, src);
      hexCount := 0;
      state := ChunkExt;
      exit := GoOn;
    }

    method ReadChunkExt(buf: array<Byte>, start: nat, bufsz: nat, ghost c0: Config, ghost input: seq<Byte>, ghost out: seq<Byte>)
      returns (src: nat, exit: Exit)
      requires bufsz == |input| && Reading(buf, c0, input, out, start) && state == ChunkExt
      modifies this
      ensures start <= src <= bufsz && Ends(buf, c0, input, out, src, exit)
      ensures exit == GoOn ==> start < src && state in {ChunkData, TrailersLineHead}
    {
      hide Reached, Feed, Valid;
      src := start;
      while true
        invariant start <= src <= bufsz && state == ChunkExt && Reading(buf, c0, input, out, src)
        decreases bufsz - src
      {
        ReachEnd(c0, input, Conf(), out, src);
        if src == bufsz {
          return src, Leave(More);
        }
        NextByte(buf, c0, input, out, src);
        if buf[src] == LF {
          break;
        }
        src := src + 1;
      }
      src := src + 1;
      if bytesLeftInChunk == 0 {
        if consumeTrailer {
          state := TrailersLineHead;
          return src, GoOn;
        }
        return src, Leave(Complete);
      }
      state := ChunkData;
      exit := GoOn;
    }

    method ReadChunkCrlf(buf: array<Byte>, start: nat, bufsz: nat, ghost c0: Config, ghost input: seq<Byte>, ghost out: seq<Byte>)
      returns (src: nat, exit: Exit)
      requires bufsz == |input| && Reading(buf, c0, input, out, start) && state == ChunkCrlf
      modifies this
      ensures start <= src <= bufsz && Ends(buf, c0, input, out, src, exit)
      ensures exit == GoOn ==> start < src && state == ChunkSize
    {
      hide Reached, Feed, Valid;
      src := start;
      while true
        invariant start <= src <= bufsz && state == ChunkCrlf && Reading(buf, c0, input, out, src)
        decreases bufsz - src
      {
        ReachEnd(c0, input, Conf(), out, src);
        if src == bufsz {
          return src, Leave(More);
        }
        NextByte(buf, c0, input, out, src);
        if buf[src] != CR {
          break;
        }
        src := src + 1;
      }
      if buf[src] != LF {
        return src, Leave(Failed);
      }
      src := src + 1;
      state := ChunkSize;
      exit := GoOn;
    }

    method ReadTrailersLineHead(buf: array<Byte>, start: nat, bufsz: nat, ghost c0: Config, ghost input: seq<Byte>, ghost out: seq<Byte>)
      returns (src: nat, exit: Exit)
      requires bufsz == |input| && Reading(buf, c0, input, out, start) && state == TrailersLineHead
      modifies this
      ensures start <= src <= bufsz && Ends(buf, c0, input, out, src, exit)
      ensures exit == GoOn ==> start < src && state == TrailersLineMiddle
    {
      hide Reached, Feed, Valid;
      src := start;
      while true
        invariant start <= src <= bufsz && state == TrailersLineHead && Reading(buf, c0, input, out, src)
        decreases bufsz - src
      {
        ReachEnd(c0, input, Conf(), out, src);
        if src == bufsz {
          return src, Leave(More);
        }
        NextByte(buf, c0, input, out, src);
        if buf[src] != CR {
          break;
        }
        src := src + 1;
      }
      var b := buf[src];
      src := src + 1;
      if b == LF {
        return src, Leave(Complete);
      }
      state := TrailersLineMiddle;
      exit := GoOn;
    }

    method ReadTrailersLineMiddle(buf: array<Byte>, start: nat, bufsz: nat, ghost c0: Config, ghost input: seq<Byte>, ghost out: seq<Byte>)
      returns (src: nat, exit: Exit)
      requires bufsz == |input| && Reading(buf, c0, input, out, start) && state == TrailersLineMiddle
      modifies this
      ensures start <= src <= bufsz && Ends(buf, c0, input, out, src, exit)
      ensures exit == GoOn ==> start < src && state == TrailersLineHead
    {
      hide Reached, Feed, Valid;
      src := start;
      while true
        invariant start <= src <= bufsz && state == TrailersLineMiddle && Reading(buf, c0, input, out, src)
        decreases bufsz - src
      {
        ReachEnd(c0, input, Conf(), out, src);
        if src == bufsz {
          return src, Leave(More);
        }
        NextByte(buf, c0, input, out, src);
        if buf[src] == LF {
          break;
        }
        src := src + 1;
      }
      src := src + 1;
      state := TrailersLineHead;
      exit := GoOn;
    }

    /** Where the decoder will be when `n` of the data bytes at hand have been moved. */
    lemma DataMoved(buf: array<Byte>, c0: Config, input: seq<Byte>, out: seq<Byte>, src: nat, n: nat)
      requires Reading(buf, c0, input, out, src) && state == ChunkData && n <= bytesLeftInChunk && src + n <= |input|
      ensures Valid(Conf()) && bytesLeftInChunk > 0
      ensures Reached(c0, input, AfterData(Conf(), n), out + buf[src..|input|][..n], src + n)
      ensures buf[src..|input|][..n] == input[src..src + n] && buf[src..|input|][n..] == input[src + n..]
    {
      hide Reached, Feed;
      ReachEnd(c0, input, Conf(), out, src);
      ReachData(c0, input, Conf(), out, src, n);
      assert input[src..][..n] == input[src..src + n];
      assert input[src..][n..] == input[src + n..];
    }

    /** Moves the data bytes at hand down to `dst`; the unread input behind them is not touched. */
    method ReadChunkData(buf: array<Byte>, dst: nat, start: nat, bufsz: nat, ghost c0: Config, ghost input: seq<Byte>)
      returns (dst': nat, src: nat, exit: Exit)
      requires dst <= start <= bufsz == |input| <= buf.Length
      requires Reading(buf, c0, input, buf[..dst], start) && state == ChunkData
      modifies this, buf
      ensures start <= src <= bufsz && dst' <= src && Ends(buf, c0, input, buf[..dst'], src, exit)
      ensures exit == GoOn ==> start < src && state == ChunkCrlf
      ensures buf[src..] == old(buf[src..])
    {
      hide Reached, Feed, Valid;
      var avail := bufsz - start;
      var n := if avail < bytesLeftInChunk then avail else bytesLeftInChunk;
      ghost var c, out := AfterData(Conf(), n), buf[..dst] + input[start..start + n];
      DataMoved(buf, c0, input, buf[..dst], start, n);
      MoveData(buf, dst, start, n, bufsz);
      dst', src := dst + n, start + n;
      assert buf[..dst'] == out && Reached(c0, input, c, out, src);
      if avail < bytesLeftInChunk {
        bytesLeftInChunk := bytesLeftInChunk - n;
        assert Conf() == c;
        ReachEnd(c0, input, c, out, src);
        return dst', src, Leave(More);
      }
      bytesLeftInChunk := 0;
      state := ChunkCrlf;
      exit := GoOn;
    }

    /** One trip around the decoder's loop: the case of the current state and what it falls through to. */
    method Turn(buf: array<Byte>, dst: nat, start: nat, bufsz: nat, ghost c0: Config, ghost input: seq<Byte>)
      returns (dst': nat, src: nat, exit: Exit)
      requires dst <= start <= bufsz == |input| <= buf.Length
      requires Reading(buf, c0, input, buf[..dst], start)
      modifies this, buf
      ensures start <= src <= bufsz && dst' <= src && Ends(buf, c0, input, buf[..dst'], src, exit)
      ensures exit == GoOn ==> start < src
      ensures buf[src..] == old(buf[src..])
    {
      hide Reached, Feed, Valid;
      dst' := dst;
      match state
      case ChunkSize =>
        src, exit := ReadChunkSize(buf, start, bufsz, c0, input, buf[..dst]);
        if exit == GoOn {
          src, exit := ReadChunkExt(buf, src, bufsz, c0, input, buf[..dst]);
        }
      case ChunkExt =>
        src, exit := ReadChunkExt(buf, start, bufsz, c0, input, buf[..dst]);
      case ChunkData =>
        dst', src, exit := ReadChunkData(buf, dst, start, bufsz, c0, input);
        if exit == GoOn {
          ghost var mid := src;
          src, exit := ReadChunkCrlf(buf, src, bufsz, c0, input, buf[..dst']);
          assert buf[src..] == buf[mid..][src - mid..] == old(buf[mid..])[src - mid..] == old(buf[src..]);
        }
      case ChunkCrlf =>
        src, exit := ReadChunkCrlf(buf, start, bufsz, c0, input, buf[..dst]);
      case TrailersLineHead =>
        src, exit := ReadTrailersLineHead(buf, start, bufsz, c0, input, buf[..dst]);
        if exit == GoOn {
          src, exit := ReadTrailersLineMiddle(buf, src, bufsz, c0, input, buf[..dst]);
        }
      case TrailersLineMiddle =>
        src, exit := ReadTrailersLineMiddle(buf, start, bufsz, c0, input, buf[..dst]);
    }

    /**
      One call of the decoder on the first `bufsz` bytes of the buffer.  `bufsz'` is the length
      of the decoded data, `ret` is -2, -1 or the number of bytes left undecoded; those bytes
      follow the decoded data, and nothing beyond `bufsz` changes.
     */
    method Decode(buf: array<Byte>, bufsz: nat) returns (ret: int, bufsz': nat)
      requires bufsz <= buf.Length && Valid(Conf())
      modifies this, buf
      ensures Valid(Conf())
      ensures var r := Feed(old(Conf()), old(buf[..bufsz]));
              && Conf() == r.c
              && bufsz' == |r.out| && buf[..bufsz'] == r.out
              && buf[bufsz'..bufsz' + (bufsz - r.used)] == old(buf[r.used..bufsz])
              && ret == (match r.outcome case More => -2 case Failed => -1 case Complete => bufsz - r.used)
      ensures buf[bufsz..] == old(buf[bufsz..])
    {
      hide Reached, Feed, Valid;
      ghost var c0, input, all := Conf(), buf[..bufsz], buf[..];
      var dst: nat, src: nat := 0, 0;
      var exit := GoOn;
      assert buf[..0] == [];
      ReachStart(c0, input);
      while exit == GoOn
        invariant dst <= src <= bufsz
        invariant Ends(buf, c0, input, buf[..dst], src, exit)
        invariant buf[src..] == all[src..]
        decreases exit == GoOn, bufsz - src
      {
        ghost var src0 := src;
        dst, src, exit := Turn(buf, dst, src, bufsz, c0, input);
        assert all[src0..][src - src0..] == all[src..];
      }
      ret := match exit.outcome case More => -2 case Failed => -1 case Complete => bufsz - src;
      CloseUp(buf, dst, src, bufsz, all);
      bufsz' := dst;
    }

    /** Whether the decoder is in the middle of chunk data. */
    predicate IsInData()
      reads this
    {
      state == ChunkData
    }

    /** It is so just when the next byte, whichever it is, will be decoded as data. */
    lemma IsInDataMeans(b: Byte)
      ensures Feed(Conf(), [b]).out == if IsInData() then [b] else []
    {
      OnlyDataIsDecoded(Conf(), b);
    }
  }
}
