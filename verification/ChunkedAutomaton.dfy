/**
  The chunked transfer decoder as a byte-at-a-time automaton: what one byte does to the
  decoder, and what a stream of bytes does.  The in-place decoder is proved against `Feed`.
 */
module ChunkedAutomaton {
  import opened Bytes

  datatype State =
    | ChunkSize
    | ChunkExt
    | ChunkData
    | ChunkCrlf
    | TrailersLineHead
    | TrailersLineMiddle

  /** The fields of the decoder structure. */
  datatype Config = Config(state: State, hexCount: nat, left: nat, consumeTrailer: bool)

  /** Number of hexadecimal digits a 64-bit size can have. */
  const MAX_HEX_DIGITS: nat := 16

  /** Number of values of the 64-bit `size_t` that holds the chunk size. */
  const SIZE_T_VALUES: int := 0x1_0000_0000_0000_0000

  function Pow16(n: nat): nat {
    if n == 0 then 1 else 16 * Pow16(n - 1)
  }

  /** The configurations a zero-filled decoder can get into. */
  predicate Valid(c: Config) {
    && c.hexCount <= MAX_HEX_DIGITS
    && (c.state != ChunkSize ==> c.hexCount == 0)
    && match c.state
       case ChunkSize => c.left < Pow16(c.hexCount)
       case ChunkExt => c.left < SIZE_T_VALUES
       case ChunkData => 0 < c.left < SIZE_T_VALUES
       case _ => c.left == 0
  }

  function Start(consumeTrailer: bool): (c: Config)
  {
    Config(ChunkSize, 0, 0, consumeTrailer)
  }

  /** Value of a hexadecimal digit, -1 for any other byte. */
  function DecodeHex(b: Byte): int {
    if 48 <= b <= 57 then b - 48
    else if 65 <= b <= 70 then b - 65 + 10
    else if 97 <= b <= 102 then b - 97 + 10
    else -1
  }

  predicate IsHex(b: Byte) { DecodeHex(b) != -1 }

  datatype Move =
    | Next(c: Config, out: seq<Byte>)   // the byte is consumed, `out` is decoded data
    | Reject                            // malformed, the byte is not consumed
    | Finish(c: Config)                 // the byte is the last one of the encoding

  /** The effect of the line feed that ends a chunk-size line. */
  function EndOfSizeLine(c: Config): Move {
    if c.left != 0 then Next(c.(state := ChunkData), [])
    else if c.consumeTrailer then Next(c.(state := TrailersLineHead), [])
    else Finish(c)
  }

  function Step(c: Config, b: Byte): Move {
    match c.state
    case ChunkSize =>
      if IsHex(b) then
        if c.hexCount == MAX_HEX_DIGITS then Reject
        else Next(c.(left := c.left * 16 + DecodeHex(b), hexCount := c.hexCount + 1), [])
      else if c.hexCount == 0 then Reject
      else if b == LF then EndOfSizeLine(c.(hexCount := 0, state := ChunkExt))
      else Next(c.(hexCount := 0, state := ChunkExt), [])
    case ChunkExt =>
      if b == LF then EndOfSizeLine(c) else Next(c, [])
    case ChunkData =>
      if c.left > 1 then Next(c.(left := c.left - 1), [b])
      else Next(c.(left := 0, state := ChunkCrlf), [b])
    case ChunkCrlf =>
      if b == CR then Next(c, [])
      else if b == LF then Next(c.(state := ChunkSize), [])
      else Reject
    case TrailersLineHead =>
      if b == CR then Next(c, [])
      else if b == LF then Finish(c)
      else Next(c.(state := TrailersLineMiddle), [])
    case TrailersLineMiddle =>
      if b == LF then Next(c.(state := TrailersLineHead), []) else Next(c, [])
  }

  /** Sixteen digits just fit. */
  lemma {:induction false} Pow16Fits(n: nat)
    requires n <= MAX_HEX_DIGITS
    ensures Pow16(n) <= SIZE_T_VALUES
    decreases MAX_HEX_DIGITS - n
  {
    if n == MAX_HEX_DIGITS {
      assert Pow16(4) == 0x1_0000;
      assert Pow16(8) == 0x1_0000_0000;
      assert Pow16(12) == 0x1_0000_0000_0000;
    } else {
      Pow16Fits(n + 1);
    }
  }

  /** Every move keeps the configuration valid: a size digit never overflows 64 bits. */
  lemma StepKeepsValid(c: Config, b: Byte)
    requires Valid(c)
    ensures !Step(c, b).Reject? ==> Valid(Step(c, b).c) && Step(c, b).c.consumeTrailer == c.consumeTrailer
  {
    Pow16Fits(c.hexCount);
  }

  datatype Outcome = More | Failed | Complete

  /** What feeding a stream led to: where the decoder is, what it decoded, how much it read. */
  datatype Run = Run(c: Config, out: seq<Byte>, used: nat, outcome: Outcome) {
    /** This run, made after `n` bytes had already been read and `before` been decoded. */
    function After(before: seq<Byte>, n: nat): Run {
      Run(c, before + out, n + used, outcome)
    }
  }

  function Feed(c: Config, s: seq<Byte>): (r: Run)
    ensures r.used <= |s| && |r.out| <= r.used
    ensures r.outcome == More ==> r.used == |s|
    decreases |s|
  {
    if s == [] then Run(c, [], 0, More)
    else match Step(c, s[0])
      case Next(c', out) => Feed(c', s[1..]).After(out, 1)
      case Reject => Run(c, [], 0, Failed)
      case Finish(c') => Run(c', [], 1, Complete)
  }

  lemma {:induction false} FeedKeepsValid(c: Config, s: seq<Byte>)
    requires Valid(c)
    ensures Valid(Feed(c, s).c) && Feed(c, s).c.consumeTrailer == c.consumeTrailer
    decreases |s|
  {
    if s != [] {
      StepKeepsValid(c, s[0]);
      var m := Step(c, s[0]);
      if m.Next? { FeedKeepsValid(m.c, s[1..]); }
    }
  }

  /** Feeding a concatenation is feeding its parts in turn, as long as the first part asks for more. */
  lemma {:induction false} FeedAppend(c: Config, a: seq<Byte>, b: seq<Byte>)
    ensures Feed(c, a).outcome == More ==> Feed(c, a + b) == Feed(Feed(c, a).c, b).After(Feed(c, a).out, |a|)
    ensures Feed(c, a).outcome != More ==> Feed(c, a + b) == Feed(c, a)
    decreases |a|
  {
    if a == [] {
      assert a + b == b;
      AfterNothing(Feed(c, b));
    } else {
      assert (a + b)[0] == a[0] && (a + b)[1..] == a[1..] + b;
      var m := Step(c, a[0]);
      if m.Next? {
        FeedAppend(m.c, a[1..], b);
        var r := Feed(m.c, a[1..]);
        AfterAfter(Feed(r.c, b), m.out, 1, r.out, |a| - 1);
      }
    }
  }

  /** The configuration after `n` bytes of chunk data. */
  function AfterData(c: Config, n: nat): Config
    requires n <= c.left
  {
    if n < c.left then c.(left := c.left - n) else c.(left := 0, state := ChunkCrlf)
  }

  /** Chunk data is decoded as it stands: `n` bytes at once do what `n` single bytes do. */
  lemma {:induction false} FeedData(c: Config, s: seq<Byte>, n: nat)
    requires c.state == ChunkData && Valid(c) && n <= c.left && n <= |s|
    ensures Feed(c, s) == Feed(AfterData(c, n), s[n..]).After(s[..n], n)
    decreases n
  {
    if n == 0 {
      assert s[0..] == s && s[..0] == [];
      AfterNothing(Feed(c, s));
    } else {
      var d, rest := AfterData(c, 1), s[1..];
      assert Feed(c, s) == Feed(d, rest).After([s[0]], 1);
      if n == 1 {
        assert s[..1] == [s[0]];
      } else {
        FeedData(d, rest, n - 1);
        assert AfterData(d, n - 1) == AfterData(c, n);
        AfterAfter(Feed(AfterData(c, n), rest[n - 1..]), [s[0]], 1, rest[..n - 1], n - 1);
        assert rest[n - 1..] == s[n..] && [s[0]] + rest[..n - 1] == s[..n];
      }
    }
  }

  lemma AfterNothing(r: Run)
    ensures r.After([], 0) == r
  {
    assert [] + r.out == r.out;
  }

  lemma AfterAfter(r: Run, a: seq<Byte>, m: nat, b: seq<Byte>, n: nat)
    ensures r.After(b, n).After(a, m) == r.After(a + b, m + n)
  {
    assert a + (b + r.out) == (a + b) + r.out;
  }

  // ----- every way of cutting a stream into calls -----

  /**
    The documented use of the decoder: call it on each piece as it arrives while it answers
    "incomplete", collecting what each call decoded.
   */
  function FeedPieces(c: Config, pieces: seq<seq<Byte>>): Run
    decreases |pieces|
  {
    if pieces == [] then Run(c, [], 0, More)
    else
      var r := Feed(c, pieces[0]);
      if r.outcome != More then r
      else FeedPieces(r.c, pieces[1..]).After(r.out, r.used)
  }

  /**
    Split invariance: however a stream is cut into successive calls, the decoded bytes, the
    outcome, the number of bytes read (hence the undecoded tail) and the decoder state are
    those of one call on the whole stream.
   */
  lemma {:induction false} SplitInvariance(c: Config, pieces: seq<seq<Byte>>)
    ensures FeedPieces(c, pieces) == Feed(c, Flatten(pieces))
    decreases |pieces|
  {
    if pieces != [] {
      var r := Feed(c, pieces[0]);
      FeedAppend(c, pieces[0], Flatten(pieces[1..]));
      SplitInvariance(r.c, pieces[1..]);
    }
  }

  // ----- the chunk-size counter -----

  /** The number a string of hexadecimal digits denotes. */
  function HexValue(s: seq<Byte>): nat
    requires AllBytes(s, IsHex)
  {
    if s == [] then 0 else HexValue(s[..|s| - 1]) * 16 + DecodeHex(s[|s| - 1])
  }

  /** What the counter fields say about the digits read so far on the current size line. */
  ghost predicate CountsDigits(c: Config, digits: seq<Byte>) {
    && AllBytes(digits, IsHex)
    && |digits| == c.hexCount
    && c.left == HexValue(digits)
  }

  lemma StepCountsDigits(c: Config, digits: seq<Byte>, b: Byte)
    requires Valid(c) && (c.state == ChunkSize ==> CountsDigits(c, digits))
    requires Step(c, b).Next? && Step(c, b).c.state == ChunkSize
    ensures CountsDigits(Step(c, b).c, if c.state == ChunkSize then digits + [b] else [])
  {
    if c.state == ChunkSize {
      assert (digits + [b])[..|digits|] == digits;
    }
  }

  /** Where a size line may begin: at the start of the stream or right behind a line feed. */
  predicate AtLineStart(p: seq<Byte>) {
    p == [] || p[|p| - 1] == LF
  }

  /** A size line whose digits are complete; the extension so far, if any, starts with no digit. */
  ghost predicate SizeLineSoFar(p: seq<Byte>, digits: seq<Byte>, ext: seq<Byte>) {
    && AtLineStart(p) && AllBytes(digits, IsHex) && 1 <= |digits| <= MAX_HEX_DIGITS
    && (ext != [] ==> !IsHex(ext[0])) && LF !in ext
  }

  /** In an extension the counter is the value of the digits of its line. */
  ghost predicate InExtension(c: Config, s: seq<Byte>, p: seq<Byte>, digits: seq<Byte>, ext: seq<Byte>) {
    SizeLineSoFar(p, digits, ext) && ext != [] && s == p + digits + ext && c.left == HexValue(digits)
  }

  /** In chunk data it is that value less the data read since. */
  ghost predicate InData(c: Config, s: seq<Byte>, p: seq<Byte>, digits: seq<Byte>, ext: seq<Byte>, data: seq<Byte>) {
    SizeLineSoFar(p, digits, ext) && s == p + digits + ext + [LF] + data && c.left + |data| == HexValue(digits)
  }

  /** What the counter stands for in the stream, in each of the states that use it. */
  ghost predicate CounterMatchesStream(c: Config, s: seq<Byte>) {
    match c.state
    case ChunkSize =>
      && c.hexCount <= |s| && AtLineStart(s[..|s| - c.hexCount])
      && CountsDigits(c, s[|s| - c.hexCount..])
    case ChunkExt => exists p, digits, ext :: InExtension(c, s, p, digits, ext)
    case ChunkData => exists p, digits, ext, data :: InData(c, s, p, digits, ext, data)
    case ChunkCrlf => true
    case TrailersLineHead => true
    case TrailersLineMiddle => true
  }

  /**
    In every reachable state the counter is the value of exactly the digits read since the
    size line began, less the data read since, however many calls delivered them; in the size
    state it stays below 16^hexCount, hence below 2^64: it never wraps.
   */
  lemma {:induction false} SizeIsDigitsRead(consumeTrailer: bool, s: seq<Byte>)
    requires Feed(Start(consumeTrailer), s).outcome == More
    ensures CounterMatchesStream(Feed(Start(consumeTrailer), s).c, s)
    ensures Valid(Feed(Start(consumeTrailer), s).c) && Pow16(Feed(Start(consumeTrailer), s).c.hexCount) <= SIZE_T_VALUES
    decreases |s|
  {
    hide CounterMatchesStream, Feed, Step, Pow16, Start;
    var c := Feed(Start(consumeTrailer), s).c;
    StartIsValid(consumeTrailer);
    FeedKeepsValid(Start(consumeTrailer), s);
    Pow16Fits(c.hexCount);
    if s == [] {
      CounterAtStart(consumeTrailer);
    } else {
      var n := |s| - 1;
      var p, b := s[..n], s[n];
      assert s == p + [b];
      FeedAppend(Start(consumeTrailer), p, [b]);
      SizeIsDigitsRead(consumeTrailer, p);
      var d := Feed(Start(consumeTrailer), p).c;
      FeedOne(d, b);
      CounterStep(d, p, b);
    }
  }

  lemma StartIsValid(consumeTrailer: bool)
    ensures Valid(Start(consumeTrailer))
  {
  }

  lemma CounterAtStart(consumeTrailer: bool)
    ensures CounterMatchesStream(Feed(Start(consumeTrailer), []).c, [])
  {
    var s: seq<Byte> := [];
    assert s[0..] == [] && s[..0] == [];
  }

  lemma CounterStep(c: Config, p: seq<Byte>, b: Byte)
    requires Valid(c) && CounterMatchesStream(c, p) && Step(c, b).Next?
    ensures CounterMatchesStream(Step(c, b).c, p + [b])
  {
    hide CounterMatchesStream;
    match c.state
    case ChunkSize => CounterStepInSize(c, p, b);
    case ChunkExt => CounterStepInExtension(c, p, b);
    case ChunkData => CounterStepInData(c, p, b);
    case _ => CounterStepElsewhere(c, p, b);
  }

  lemma CounterStepInSize(c: Config, p: seq<Byte>, b: Byte)
    requires Valid(c) && CounterMatchesStream(c, p) && c.state == ChunkSize && Step(c, b).Next?
    ensures CounterMatchesStream(Step(c, b).c, p + [b])
  {
    hide HexValue, CounterMatchesStream;
    if IsHex(b) {
      CounterDigit(c, p, b);
    } else {
      CounterDigitsEnd(c, p, b);
    }
  }

  lemma CounterDigit(c: Config, p: seq<Byte>, b: Byte)
    requires Valid(c) && CounterMatchesStream(c, p) && c.state == ChunkSize && Step(c, b).Next? && IsHex(b)
    ensures CounterMatchesStream(Step(c, b).c, p + [b])
  {
    hide HexValue, CountsDigits;
    var d := Step(c, b).c;
    var front, digits := p[..|p| - c.hexCount], p[|p| - c.hexCount..];
    StepCountsDigits(c, digits, b);
    assert (p + [b])[|p| + 1 - d.hexCount..] == digits + [b];
    assert (p + [b])[..|p| + 1 - d.hexCount] == front;
  }

  lemma CounterDigitsEnd(c: Config, p: seq<Byte>, b: Byte)
    requires Valid(c) && CounterMatchesStream(c, p) && c.state == ChunkSize && Step(c, b).Next? && !IsHex(b)
    ensures CounterMatchesStream(Step(c, b).c, p + [b])
  {
    hide HexValue;
    var d := Step(c, b).c;
    var front, digits := p[..|p| - c.hexCount], p[|p| - c.hexCount..];
    if b == LF {
      assert p + [b] == front + digits + [] + [LF] + [];
      if d.state == ChunkData {
        assert InData(d, p + [b], front, digits, [], []);
      }
    } else {
      assert p + [b] == front + digits + [b];
      assert InExtension(d, p + [b], front, digits, [b]);
    }
  }

  lemma CounterStepInExtension(c: Config, s: seq<Byte>, b: Byte)
    requires CounterMatchesStream(c, s) && c.state == ChunkExt && Step(c, b).Next?
    ensures CounterMatchesStream(Step(c, b).c, s + [b])
  {
    hide HexValue;
    var d := Step(c, b).c;
    var p, digits, ext :| InExtension(c, s, p, digits, ext);
    if b != LF {
      assert s + [b] == p + digits + (ext + [b]);
      assert InExtension(d, s + [b], p, digits, ext + [b]);
    } else if d.state == ChunkData {
      assert s + [b] == p + digits + ext + [LF] + [];
      assert InData(d, s + [b], p, digits, ext, []);
    }
  }

  lemma CounterStepInData(c: Config, s: seq<Byte>, b: Byte)
    requires Valid(c) && CounterMatchesStream(c, s) && c.state == ChunkData
    ensures CounterMatchesStream(Step(c, b).c, s + [b])
  {
    hide HexValue;
    var d := Step(c, b).c;
    var p, digits, ext, data :| InData(c, s, p, digits, ext, data);
    if d.state == ChunkData {
      assert s + [b] == p + digits + ext + [LF] + (data + [b]);
      assert InData(d, s + [b], p, digits, ext, data + [b]);
    }
  }

  lemma CounterStepElsewhere(c: Config, s: seq<Byte>, b: Byte)
    requires Valid(c) && c.state in {ChunkCrlf, TrailersLineHead, TrailersLineMiddle} && Step(c, b).Next?
    ensures CounterMatchesStream(Step(c, b).c, s + [b])
  {
    var d := Step(c, b).c;
    if d.state == ChunkSize {
      assert (s + [b])[|s| + 1..] == [] && (s + [b])[..|s| + 1] == s + [b];
    }
  }

  lemma FeedOne(c: Config, b: Byte)
    ensures Feed(c, [b]).outcome == More <==> Step(c, b).Next?
    ensures Step(c, b).Next? ==> Feed(c, [b]).c == Step(c, b).c
  {
    assert [b][1..] == [];
  }

  // ----- what is decoded, and when a stream is beyond repair -----

  /** A byte is decoded just in the data state; there every byte is. */
  lemma OnlyDataIsDecoded(c: Config, b: Byte)
    ensures Feed(c, [b]).out == if c.state == ChunkData then [b] else []
  {
    assert [b][1..] == [];
  }

  /** Some input completes the encoding the decoder is in the middle of. */
  ghost predicate Completable(c: Config) {
    exists t :: Feed(c, t).outcome == Complete
  }

  lemma Through(c: Config, b: Byte)
    requires Step(c, b).Finish? || (Step(c, b).Next? && Completable(Step(c, b).c))
    ensures Completable(c)
  {
    var u: seq<Byte> := [];
    if Step(c, b).Next? {
      u :| Feed(Step(c, b).c, u).outcome == Complete;
    }
    assert ([b] + u)[1..] == u;
    assert Feed(c, [b] + u).outcome == Complete;
  }

  lemma TrailerCompletable(c: Config)
    requires c.state in {TrailersLineHead, TrailersLineMiddle}
    ensures Completable(c)
  {
    Through(c.(state := TrailersLineHead), LF);
    Through(c, LF);
  }

  lemma SizeLineCompletable(c: Config)
    requires Valid(c) && c.left == 0 && (c.state == ChunkExt || (c.state == ChunkSize && c.hexCount > 0))
    ensures Completable(c)
  {
    TrailerCompletable(c.(hexCount := 0, state := TrailersLineHead));
    Through(c, LF);
  }

  lemma StartCompletable(consumeTrailer: bool)
    ensures Completable(Start(consumeTrailer))
  {
    var start := Start(consumeTrailer);
    assert Pow16(1) == 16;
    SizeLineCompletable(Step(start, 48).c);
    Through(start, 48);
  }

  /** The data still due, its line end and a last chunk. */
  lemma ChunkCompletable(c: Config)
    requires Valid(c) && c.state in {ChunkData, ChunkCrlf}
    ensures Completable(c)
  {
    hide Feed;
    StartCompletable(c.consumeTrailer);
    var crlf := Config(ChunkCrlf, 0, 0, c.consumeTrailer);
    Through(crlf, LF);
    if c.state == ChunkData {
      var data: seq<Byte> := seq(c.left, _ => 0);
      var u :| Feed(crlf, u).outcome == Complete;
      FeedData(c, data + u, c.left);
      assert (data + u)[c.left..] == u;
    } else {
      assert c == crlf;
    }
  }

  /** Whatever configuration the decoder is in, it can still complete. */
  lemma AlwaysCompletable(c: Config)
    requires Valid(c)
    ensures Completable(c)
  {
    if c.state in {TrailersLineHead, TrailersLineMiddle} {
      TrailerCompletable(c);
    } else if c.state in {ChunkData, ChunkCrlf} {
      ChunkCompletable(c);
    } else if c.state == ChunkSize && c.hexCount == 0 {
      StartCompletable(c.consumeTrailer);
    } else if c.left == 0 {
      SizeLineCompletable(c);
    } else {
      Pow16Fits(c.hexCount);
      ChunkCompletable(c.(hexCount := 0, state := ChunkData));
      Through(c, LF);
    }
  }

  /** The decoder fails just on the streams that no further input can complete. */
  lemma FailsExactlyWhenHopeless(consumeTrailer: bool, s: seq<Byte>)
    ensures Feed(Start(consumeTrailer), s).outcome == Failed <==>
            forall x :: Feed(Start(consumeTrailer), s + x).outcome != Complete
  {
    var c := Start(consumeTrailer);
    var r := Feed(c, s);
    forall x: seq<Byte>
      ensures r.outcome == More ==> Feed(c, s + x).outcome == Feed(r.c, x).outcome
      ensures r.outcome != More ==> Feed(c, s + x).outcome == r.outcome
    {
      FeedAppend(c, s, x);
    }
    if r.outcome == More {
      FeedKeepsValid(c, s);
      AlwaysCompletable(r.c);
      var x :| Feed(r.c, x).outcome == Complete;
      assert Feed(c, s + x).outcome == Complete;
    } else if r.outcome == Complete {
      assert Feed(c, s + []).outcome == Complete;
    }
  }

  // ----- where the decoder stops -----

  /**
    A failure leaves everything as it was before the byte that caused it, which is not
    consumed; a completion happens on the last byte consumed and not before.
   */
  lemma {:induction false} WhereItStops(c: Config, s: seq<Byte>)
    ensures var r := Feed(c, s);
            && (r.outcome == Failed ==>
                  r.used < |s| && Feed(c, s[..r.used]) == Run(r.c, r.out, r.used, More))
            && (r.outcome == Complete ==> r.used > 0 && Feed(c, s[..r.used - 1]).outcome == More)
    decreases |s|
  {
    hide Step;
    var r := Feed(c, s);
    if s != [] && Step(c, s[0]).Next? && r.outcome != More {
      var rest := s[1..];
      WhereItStops(Step(c, s[0]).c, rest);
      var n := if r.outcome == Failed then r.used else r.used - 1;
      if n > 0 { FeedFirst(c, s, n); }
    }
  }

  lemma FeedFirst(c: Config, s: seq<Byte>, n: nat)
    requires 0 < n <= |s| && Step(c, s[0]).Next?
    ensures Feed(c, s[..n]) == Feed(Step(c, s[0]).c, s[1..][..n - 1]).After(Step(c, s[0]).out, 1)
  {
    assert s[..n][0] == s[0] && s[..n][1..] == s[1..][..n - 1];
  }

  /** The fields of a decoder that has completed. */
  lemma {:induction false} CompletedFields(c: Config, s: seq<Byte>)
    requires Valid(c) && Feed(c, s).outcome == Complete
    requires c.state in {TrailersLineHead, TrailersLineMiddle} ==> c.consumeTrailer
    ensures Feed(c, s).c == Config(if c.consumeTrailer then TrailersLineHead else ChunkExt, 0, 0, c.consumeTrailer)
    decreases |s|
  {
    StepKeepsValid(c, s[0]);
    if Step(c, s[0]).Next? { CompletedFields(Step(c, s[0]).c, s[1..]); }
  }
}
