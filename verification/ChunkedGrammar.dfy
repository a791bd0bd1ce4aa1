/**
  The language of the chunked decoder.  Messages are written in the form of section 4.1 of
  RFC 7230, with the liberties the decoder grants; `Encode(m, rest)` is the message followed
  by the bytes `rest`.  The decoder accepts exactly these encodings, decodes them to the
  message's payload and stops right before `rest`.
 */
module ChunkedGrammar {
  import opened Bytes
  import opened ChunkedAutomaton

  /** A chunk: size digits, extension (with its carriage return), data, carriage returns. */
  datatype Chunk = Chunk(digits: seq<Byte>, ext: seq<Byte>, data: seq<Byte>, crs: nat)

  /** A trailer line: `crs` carriage returns and then a body up to the line feed. */
  datatype TrailerLine = TrailerLine(crs: nat, body: seq<Byte>)

  datatype Trailer = Trailer(lines: seq<TrailerLine>, crs: nat)

  datatype Message = Message(chunks: seq<Chunk>, lastDigits: seq<Byte>, lastExt: seq<Byte>, trailer: Trailer)

  predicate NotLf(b: Byte) { b != LF }

  predicate IsCr(b: Byte) { b == CR }

  ghost predicate LegalSize(digits: seq<Byte>, ext: seq<Byte>, size: nat) {
    && 1 <= |digits| <= MAX_HEX_DIGITS && AllBytes(digits, IsHex) && HexValue(digits) == size
    && AllBytes(ext, NotLf) && (ext != [] ==> !IsHex(ext[0]))
  }

  ghost predicate LegalChunk(ch: Chunk) {
    LegalSize(ch.digits, ch.ext, |ch.data|) && ch.data != []
  }

  ghost predicate LegalTrailerLine(l: TrailerLine) {
    AllBytes(l.body, NotLf) && l.body != [] && l.body[0] != CR
  }

  ghost predicate Legal(m: Message) {
    && (forall ch <- m.chunks :: LegalChunk(ch))
    && LegalSize(m.lastDigits, m.lastExt, 0)
    && (forall l <- m.trailer.lines :: LegalTrailerLine(l))
  }

  function Crs(n: nat): (s: seq<Byte>)
    ensures |s| == n && forall k :: 0 <= k < n ==> s[k] == CR
  {
    seq(n, _ => CR)
  }

  function EncodeSize(digits: seq<Byte>, ext: seq<Byte>, rest: seq<Byte>): (s: seq<Byte>) {
    digits + (ext + ([LF] + rest))
  }

  function EncodeChunk(ch: Chunk, rest: seq<Byte>): seq<Byte> {
    EncodeSize(ch.digits, ch.ext, ch.data + (Crs(ch.crs) + ([LF] + rest)))
  }

  function EncodeLines(lines: seq<TrailerLine>, rest: seq<Byte>): seq<Byte> {
    if lines == [] then rest
    else Crs(lines[0].crs) + (lines[0].body + ([LF] + EncodeLines(lines[1..], rest)))
  }

  function EncodeTrailer(t: Trailer, rest: seq<Byte>): seq<Byte> {
    EncodeLines(t.lines, Crs(t.crs) + ([LF] + rest))
  }

  function EncodeChunks(chunks: seq<Chunk>, rest: seq<Byte>): seq<Byte> {
    if chunks == [] then rest else EncodeChunk(chunks[0], EncodeChunks(chunks[1..], rest))
  }

  /** The encoding of `m` followed by `rest`; the trailer belongs to it if it is to be consumed. */
  function Encode(m: Message, consumeTrailer: bool, rest: seq<Byte>): seq<Byte> {
    EncodeChunks(m.chunks,
                 EncodeSize(m.lastDigits, m.lastExt,
                            if consumeTrailer then EncodeTrailer(m.trailer, rest) else rest))
  }

  function Payload(chunks: seq<Chunk>): seq<Byte> {
    if chunks == [] then [] else chunks[0].data + Payload(chunks[1..])
  }

  /** Chunks as section 4.1 of RFC 7230 has them, with a carriage return before each line feed. */
  function StrictChunk(digits: seq<Byte>, ext: seq<Byte>, data: seq<Byte>): Chunk {
    Chunk(digits, ext + [CR], data, 1)
  }

  lemma StrictChunkIsLegal(digits: seq<Byte>, ext: seq<Byte>, data: seq<Byte>, rest: seq<Byte>)
    requires LegalSize(digits, ext, |data|) && data != []
    ensures LegalChunk(StrictChunk(digits, ext, data))
    ensures EncodeChunk(StrictChunk(digits, ext, data), rest) == digits + ext + [CR, LF] + data + [CR, LF] + rest
  {
    var e := ext + [CR];
    forall k | 0 <= k < |e| ensures NotLf(e[k]) { if k < |ext| { assert NotLf(ext[k]); } }
    assert Crs(1) == [CR];
    assert Crs(1) + ([LF] + rest) == [CR, LF] + rest;
    assert e + ([LF] + (data + ([CR, LF] + rest))) == ext + [CR, LF] + data + [CR, LF] + rest;
  }

  // ----- what the automaton does on each part of an encoding -----

  /** Reading `s` from `c` decodes `out` and goes on reading `rest` from `d`. */
  ghost predicate Leads(c: Config, s: seq<Byte>, out: seq<Byte>, d: Config, rest: seq<Byte>) {
    |rest| <= |s| && Feed(c, s) == Feed(d, rest).After(out, |s| - |rest|)
  }

  lemma Leads2(c: Config, s: seq<Byte>, out: seq<Byte>, d: Config, t: seq<Byte>, out': seq<Byte>, e: Config, rest: seq<Byte>)
    requires Leads(c, s, out, d, t) && Leads(d, t, out', e, rest)
    ensures Leads(c, s, out + out', e, rest)
    ensures out == [] ==> Leads(c, s, out', e, rest)
    ensures out' == [] ==> Leads(c, s, out, e, rest)
  {
    AfterAfter(Feed(e, rest), out, |s| - |t|, out', |t| - |rest|);
    if out == [] { assert out + out' == out'; }
    if out' == [] { assert out + out' == out; }
  }

  /** Bytes that leave the configuration alone are skipped. */
  lemma {:induction false} Skip(c: Config, t: seq<Byte>, rest: seq<Byte>)
    requires forall k :: 0 <= k < |t| ==> Step(c, t[k]) == Next(c, [])
    ensures Leads(c, t + rest, [], c, rest)
    decreases |t|
  {
    if t == [] {
      assert t + rest == rest;
      AfterNothing(Feed(c, rest));
    } else {
      assert t + rest == [t[0]] + (t[1..] + rest);
      Skip(c, t[1..], rest);
      Move(c, t[0], t[1..] + rest);
      Leads2(c, t + rest, [], c, t[1..] + rest, [], c, rest);
    }
  }

  lemma Move(c: Config, b: Byte, rest: seq<Byte>)
    ensures Step(c, b).Next? ==> Leads(c, [b] + rest, Step(c, b).out, Step(c, b).c, rest)
    ensures Step(c, b).Reject? ==> Feed(c, [b] + rest) == Run(c, [], 0, Failed)
    ensures Step(c, b).Finish? ==> Feed(c, [b] + rest) == Run(Step(c, b).c, [], 1, Complete)
  {
    assert ([b] + rest)[1..] == rest;
  }

  function SizeConf(digits: seq<Byte>, consumeTrailer: bool): Config
    requires AllBytes(digits, IsHex)
  {
    Config(ChunkSize, |digits|, HexValue(digits), consumeTrailer)
  }

  lemma {:induction false} Digits(before: seq<Byte>, digits: seq<Byte>, ct: bool, rest: seq<Byte>)
    requires AllBytes(before, IsHex) && AllBytes(digits, IsHex) && |before| + |digits| <= MAX_HEX_DIGITS
    ensures AllBytes(before + digits, IsHex)
    ensures Leads(SizeConf(before, ct), digits + rest, [], SizeConf(before + digits, ct), rest)
    decreases |digits|
  {
    hide Leads;
    if digits == [] {
      assert before + digits == before;
      Skip(SizeConf(before, ct), [], rest);
    } else {
      var d, t := digits[0], digits[1..] + rest;
      var more := before + [d];
      assert more[..|before|] == before;
      assert digits + rest == [d] + t && more + digits[1..] == before + digits;
      Move(SizeConf(before, ct), d, t);
      Digits(more, digits[1..], ct, rest);
      Leads2(SizeConf(before, ct), digits + rest, [], SizeConf(more, ct), t, [], SizeConf(before + digits, ct), rest);
    }
  }

  function ExtConf(digits: seq<Byte>, ct: bool): Config
    requires AllBytes(digits, IsHex)
  {
    Config(ChunkExt, 0, HexValue(digits), ct)
  }

  /** The byte after the digits is read in the extension state. */
  lemma DigitsEnd(digits: seq<Byte>, ct: bool, t: seq<Byte>)
    requires AllBytes(digits, IsHex) && 1 <= |digits| && t != [] && !IsHex(t[0])
    ensures Leads(SizeConf(digits, ct), t, [], ExtConf(digits, ct), t)
  {
    assert Step(SizeConf(digits, ct), t[0]) == Step(ExtConf(digits, ct), t[0]);
    AfterNothing(Feed(ExtConf(digits, ct), t));
  }

  /** A size line is read up to its line feed. */
  lemma SizeLine(digits: seq<Byte>, ext: seq<Byte>, size: nat, ct: bool, rest: seq<Byte>)
    requires LegalSize(digits, ext, size)
    ensures Leads(Start(ct), EncodeSize(digits, ext, rest), [], Config(ChunkExt, 0, size, ct), [LF] + rest)
  {
    hide Leads, Feed;
    var c, e := SizeConf(digits, ct), ExtConf(digits, ct);
    var t := ext + ([LF] + rest);
    assert [] + digits == digits;
    Digits([], digits, ct, t);
    DigitsEnd(digits, ct, t);
    Leads2(Start(ct), digits + t, [], c, t, [], e, t);
    Skip(e, ext, [LF] + rest);
    Leads2(Start(ct), digits + t, [], e, t, [], e, [LF] + rest);
  }

  /** Line feed and data of a chunk. */
  lemma Data(data: seq<Byte>, ct: bool, rest: seq<Byte>)
    requires 0 < |data| < SIZE_T_VALUES
    ensures Leads(Config(ChunkExt, 0, |data|, ct), [LF] + (data + rest), data, Config(ChunkCrlf, 0, 0, ct), rest)
  {
    var e, d, l := Config(ChunkExt, 0, |data|, ct), Config(ChunkData, 0, |data|, ct), Config(ChunkCrlf, 0, 0, ct);
    Move(e, LF, data + rest);
    FeedData(d, data + rest, |data|);
    assert (data + rest)[..|data|] == data && (data + rest)[|data|..] == rest;
    assert Leads(d, data + rest, data, l, rest);
    hide Leads, Feed;
    Leads2(e, [LF] + (data + rest), [], d, data + rest, data, l, rest);
  }

  /** The line end after the data. */
  lemma DataEnd(crs: nat, ct: bool, rest: seq<Byte>)
    ensures Leads(Config(ChunkCrlf, 0, 0, ct), Crs(crs) + ([LF] + rest), [], Start(ct), rest)
  {
    hide Leads, Feed;
    var l := Config(ChunkCrlf, 0, 0, ct);
    Skip(l, Crs(crs), [LF] + rest);
    Move(l, LF, rest);
    Leads2(l, Crs(crs) + ([LF] + rest), [], l, [LF] + rest, [], Start(ct), rest);
  }

  lemma WholeChunk(ch: Chunk, ct: bool, rest: seq<Byte>)
    requires LegalChunk(ch)
    ensures Leads(Start(ct), EncodeChunk(ch, rest), ch.data, Start(ct), rest)
  {
    hide Leads, Feed;
    var tail := Crs(ch.crs) + ([LF] + rest);
    var e, l := Config(ChunkExt, 0, |ch.data|, ct), Config(ChunkCrlf, 0, 0, ct);
    SizeFits(ch.digits);
    SizeLine(ch.digits, ch.ext, |ch.data|, ct, ch.data + tail);
    Data(ch.data, ct, tail);
    DataEnd(ch.crs, ct, rest);
    Leads2(Start(ct), EncodeChunk(ch, rest), [], e, [LF] + (ch.data + tail), ch.data, l, tail);
    Leads2(Start(ct), EncodeChunk(ch, rest), ch.data, l, tail, [], Start(ct), rest);
  }

  lemma {:induction false} SizeFits(digits: seq<Byte>)
    requires |digits| <= MAX_HEX_DIGITS && AllBytes(digits, IsHex)
    ensures HexValue(digits) < Pow16(|digits|) <= SIZE_T_VALUES
    decreases |digits|
  {
    Pow16Fits(|digits|);
    if digits != [] { SizeFits(digits[..|digits| - 1]); }
  }

  const HEAD := Config(TrailersLineHead, 0, 0, true)
  const MIDDLE := Config(TrailersLineMiddle, 0, 0, true)

  lemma WholeTrailerLine(l: TrailerLine, more: seq<Byte>)
    requires LegalTrailerLine(l)
    ensures Leads(HEAD, Crs(l.crs) + (l.body + ([LF] + more)), [], HEAD, more)
  {
    hide Leads, Feed;
    var b, body := l.body[0], l.body[1..];
    var s, t, u := Crs(l.crs) + (l.body + ([LF] + more)), l.body + ([LF] + more), body + ([LF] + more);
    Skip(HEAD, Crs(l.crs), t);
    assert NotLf(b);
    assert t == [b] + u;
    Move(HEAD, b, u);
    Leads2(HEAD, s, [], HEAD, t, [], MIDDLE, u);
    Skip(MIDDLE, body, [LF] + more);
    Leads2(HEAD, s, [], MIDDLE, u, [], MIDDLE, [LF] + more);
    Move(MIDDLE, LF, more);
    Leads2(HEAD, s, [], MIDDLE, [LF] + more, [], HEAD, more);
  }

  lemma {:induction false} Lines(lines: seq<TrailerLine>, rest: seq<Byte>)
    requires forall l <- lines :: LegalTrailerLine(l)
    ensures Leads(HEAD, EncodeLines(lines, rest), [], HEAD, rest)
    decreases |lines|
  {
    hide Leads, Feed, LegalTrailerLine;
    if lines == [] {
      Skip(HEAD, [], rest);
      assert [] + rest == rest;
    } else {
      var more := EncodeLines(lines[1..], rest);
      Lines(lines[1..], rest);
      WholeTrailerLine(lines[0], more);
      Leads2(HEAD, EncodeLines(lines, rest), [], HEAD, more, [], HEAD, rest);
    }
  }

  /** `s` is read up to exactly its suffix `rest`, decoding `out`. */
  ghost predicate Completes(c: Config, s: seq<Byte>, out: seq<Byte>, rest: seq<Byte>) {
    var r := Feed(c, s);
    r.outcome == Complete && r.out == out && |rest| <= |s| && r.used == |s| - |rest|
  }

  lemma LeadsCompletes(c: Config, s: seq<Byte>, out: seq<Byte>, d: Config, t: seq<Byte>, out': seq<Byte>, rest: seq<Byte>)
    requires Leads(c, s, out, d, t) && Completes(d, t, out', rest)
    ensures Completes(c, s, out + out', rest)
    ensures out == [] ==> Completes(c, s, out', rest)
  {
    if out == [] { assert out + out' == out'; }
  }

  lemma WholeTrailer(t: Trailer, rest: seq<Byte>)
    requires forall l <- t.lines :: LegalTrailerLine(l)
    ensures Completes(HEAD, EncodeTrailer(t, rest), [], rest)
  {
    var tail := Crs(t.crs) + ([LF] + rest);
    Lines(t.lines, tail);
    Skip(HEAD, Crs(t.crs), [LF] + rest);
    Move(HEAD, LF, rest);
    hide Leads, Feed, LegalTrailerLine;
    LeadsCompletes(HEAD, tail, [], HEAD, [LF] + rest, [], rest);
    LeadsCompletes(HEAD, EncodeTrailer(t, rest), [], HEAD, tail, [], rest);
  }

  /** How the decoder goes on after the last chunk's size line. */
  lemma Last(digits: seq<Byte>, ext: seq<Byte>, trailer: Trailer, ct: bool, rest: seq<Byte>)
    requires LegalSize(digits, ext, 0) && forall l <- trailer.lines :: LegalTrailerLine(l)
    ensures Completes(Start(ct), EncodeSize(digits, ext, if ct then EncodeTrailer(trailer, rest) else rest), [], rest)
  {
    var e := Config(ChunkExt, 0, 0, ct);
    var t := if ct then EncodeTrailer(trailer, rest) else rest;
    SizeLine(digits, ext, 0, ct, t);
    Move(e, LF, t);
    if ct {
      WholeTrailer(trailer, rest);
      LeadsCompletes(e, [LF] + t, [], HEAD, t, [], rest);
    }
    LeadsCompletes(Start(ct), EncodeSize(digits, ext, t), [], e, [LF] + t, [], rest);
  }

  /**
    Every encoding, followed by anything, is decoded to its payload, and the decoder stops
    exactly at its end.
   */
  lemma {:induction false} DecodeEncode(m: Message, ct: bool, rest: seq<Byte>)
    requires Legal(m)
    ensures var s := Encode(m, ct, rest);
            var r := Feed(Start(ct), s);
            && r.outcome == Complete
            && r.out == Payload(m.chunks)
            && s[r.used..] == rest
    decreases |m.chunks|
  {
    CompletesAtRest(m, ct, rest);
    RestIsSuffix(m, ct, rest);
  }

  lemma {:induction false} CompletesAtRest(m: Message, ct: bool, rest: seq<Byte>)
    requires Legal(m)
    ensures Completes(Start(ct), Encode(m, ct, rest), Payload(m.chunks), rest)
    decreases |m.chunks|
  {
    hide Completes, Leads, LegalChunk, LegalTrailerLine, EncodeChunk, EncodeTrailer;
    if m.chunks == [] {
      Last(m.lastDigits, m.lastExt, m.trailer, ct, rest);
    } else {
      var m' := m.(chunks := m.chunks[1..]);
      CompletesAtRest(m', ct, rest);
      WholeChunk(m.chunks[0], ct, Encode(m', ct, rest));
      LeadsCompletes(Start(ct), Encode(m, ct, rest), m.chunks[0].data, Start(ct), Encode(m', ct, rest), Payload(m'.chunks), rest);
    }
  }

  lemma {:induction false} LinesEndInRest(lines: seq<TrailerLine>, rest: seq<Byte>)
    ensures var s := EncodeLines(lines, rest);
            |s| >= |rest| && s[|s| - |rest|..] == rest
    decreases |lines|
  {
    if lines != [] { LinesEndInRest(lines[1..], rest); }
  }

  lemma {:induction false} ChunksEndInRest(chunks: seq<Chunk>, rest: seq<Byte>)
    ensures var s := EncodeChunks(chunks, rest);
            |s| >= |rest| && s[|s| - |rest|..] == rest
    decreases |chunks|
  {
    if chunks != [] { ChunksEndInRest(chunks[1..], rest); }
  }

  lemma RestIsSuffix(m: Message, ct: bool, rest: seq<Byte>)
    ensures var s := Encode(m, ct, rest);
            |s| >= |rest| && s[|s| - |rest|..] == rest
  {
    var tail := Crs(m.trailer.crs) + ([LF] + rest);
    LinesEndInRest(m.trailer.lines, tail);
    var last := EncodeSize(m.lastDigits, m.lastExt, if ct then EncodeTrailer(m.trailer, rest) else rest);
    ChunksEndInRest(m.chunks, last);
  }

  // ----- the converse: whatever the decoder accepts is an encoding -----

  lemma LeadsOutcome(c: Config, s: seq<Byte>, out: seq<Byte>, d: Config, rest: seq<Byte>)
    requires Leads(c, s, out, d, rest)
    ensures var r, t := Feed(c, s), Feed(d, rest);
            r.outcome == t.outcome && r.out == out + t.out && s[r.used..] == s[|s| - |rest| + t.used..]
  {
  }

  lemma EmptyAsksForMore(c: Config)
    ensures Feed(c, []).outcome == More
  {
  }

  /** A skipped prefix taken off: reading goes on at the first byte that is not skipped. */
  lemma TakeSkipped(c: Config, s: seq<Byte>, k: nat)
    requires Feed(c, s).outcome == Complete
    requires k <= |s| && forall i :: 0 <= i < k ==> Step(c, s[i]) == Next(c, [])
    ensures k < |s| && s == s[..k] + s[k..]
    ensures Leads(c, s, [], c, s[k..]) && Feed(c, s[k..]).outcome == Complete
  {
    assert s == s[..k] + s[k..];
    Skip(c, s[..k], s[k..]);
    LeadsOutcome(c, s, [], c, s[k..]);
    EmptyAsksForMore(c);
  }

  lemma CrsAre(s: seq<Byte>, k: nat)
    requires k <= |s| && forall i :: 0 <= i < k ==> s[i] == CR
    ensures s[..k] == Crs(k)
  {
  }

  /** As many digits as a size may have are taken off. */
  lemma TakeDigits(ct: bool, s: seq<Byte>) returns (digits: seq<Byte>, u: seq<Byte>)
    requires Feed(Start(ct), s).outcome == Complete
    ensures AllBytes(digits, IsHex) && |digits| <= MAX_HEX_DIGITS && s == digits + u && u != []
    ensures |digits| < MAX_HEX_DIGITS ==> !IsHex(u[0])
    ensures Feed(SizeConf(digits, ct), u).outcome == Complete
  {
    hide Leads, Feed, HexValue;
    var all := Lead(s, IsHex);
    var k := if all <= MAX_HEX_DIGITS then all else MAX_HEX_DIGITS;
    digits, u := s[..k], s[k..];
    assert s == digits + u && [] + digits == digits;
    Digits([], digits, ct, u);
    assert SizeConf([], ct) == Start(ct) by { SizeFits([]); }
    LeadsOutcome(Start(ct), s, [], SizeConf(digits, ct), u);
    EmptyAsksForMore(SizeConf(digits, ct));
  }

  /** The size digits an accepted stream starts with. */
  lemma ReadDigits(ct: bool, s: seq<Byte>) returns (digits: seq<Byte>, u: seq<Byte>)
    requires Feed(Start(ct), s).outcome == Complete
    ensures AllBytes(digits, IsHex) && 1 <= |digits| <= MAX_HEX_DIGITS
    ensures s == digits + u && u != [] && !IsHex(u[0])
    ensures Feed(ExtConf(digits, ct), u).outcome == Complete
  {
    hide Leads, Feed, HexValue;
    digits, u := TakeDigits(ct, s);
    assert u == [u[0]] + u[1..];
    Move(SizeConf(digits, ct), u[0], u[1..]);
    DigitsEnd(digits, ct, u);
    LeadsOutcome(SizeConf(digits, ct), u, [], ExtConf(digits, ct), u);
  }

  /** The size line an accepted stream starts with. */
  lemma ReadSizeLine(ct: bool, s: seq<Byte>) returns (digits: seq<Byte>, ext: seq<Byte>, t: seq<Byte>)
    requires Feed(Start(ct), s).outcome == Complete
    ensures AllBytes(digits, IsHex) && LegalSize(digits, ext, HexValue(digits))
    ensures s == EncodeSize(digits, ext, t)
    ensures Feed(ExtConf(digits, ct), [LF] + t).outcome == Complete
  {
    hide Leads, Feed;
    var u;
    digits, u := ReadDigits(ct, s);
    var j := Lead(u, NotLf);
    TakeSkipped(ExtConf(digits, ct), u, j);
    ext, t := u[..j], u[j + 1..];
    assert u[j..] == [LF] + t;
  }

  /** The data of a chunk of an accepted stream. */
  lemma ReadData(size: nat, ct: bool, t: seq<Byte>) returns (data: seq<Byte>, u: seq<Byte>)
    requires 0 < size < SIZE_T_VALUES
    requires Feed(Config(ChunkExt, 0, size, ct), [LF] + t).outcome == Complete
    ensures |data| == size && t == data + u && Feed(Config(ChunkCrlf, 0, 0, ct), u).outcome == Complete
  {
    hide Leads, Feed;
    var e, d := Config(ChunkExt, 0, size, ct), Config(ChunkData, 0, size, ct);
    Move(e, LF, t);
    LeadsOutcome(e, [LF] + t, [], d, t);
    if |t| < size {
      assert t[|t|..] == [];
      EmptyAsksForMore(d.(left := size - |t|));
      FeedData(d, t, |t|);
      assert false;
    }
    data, u := t[..size], t[size..];
    FeedData(d, t, size);
  }

  /** The line end after the data of a chunk of an accepted stream. */
  lemma ReadDataEnd(ct: bool, u: seq<Byte>) returns (crs: nat, rest: seq<Byte>)
    requires Feed(Config(ChunkCrlf, 0, 0, ct), u).outcome == Complete
    ensures u == Crs(crs) + ([LF] + rest)
  {
    hide Leads, Feed;
    var l := Config(ChunkCrlf, 0, 0, ct);
    crs := Lead(u, IsCr);
    TakeSkipped(l, u, crs);
    CrsAre(u, crs);
    rest := u[crs + 1..];
    assert u[crs..] == [u[crs]] + rest;
    Move(l, u[crs], rest);
  }

  /** A trailer line of an accepted stream, after its carriage returns. */
  lemma ReadTrailerLine(b: Byte, u: seq<Byte>) returns (body: seq<Byte>, more: seq<Byte>)
    requires b != CR && b != LF && Feed(HEAD, [b] + u).outcome == Complete
    ensures AllBytes(body, NotLf) && body != [] && body[0] == b
    ensures [b] + u == body + ([LF] + more) && Feed(HEAD, more).outcome == Complete
  {
    hide Leads, Feed, Lead;
    Move(HEAD, b, u);
    LeadsOutcome(HEAD, [b] + u, [], MIDDLE, u);
    var j := Lead(u, NotLf);
    TakeSkipped(MIDDLE, u, j);
    body, more := [b] + u[..j], u[j + 1..];
    LineCut(b, u, j);
    Move(MIDDLE, LF, more);
    LeadsOutcome(MIDDLE, [LF] + more, [], HEAD, more);
  }

  lemma LineCut(b: Byte, u: seq<Byte>, j: nat)
    requires j < |u| && u[j] == LF && b != LF && forall k :: 0 <= k < j ==> NotLf(u[k])
    ensures u[j..] == [LF] + u[j + 1..]
    ensures [b] + u == ([b] + u[..j]) + ([LF] + u[j + 1..])
    ensures AllBytes([b] + u[..j], NotLf)
  {
    var body := [b] + u[..j];
    assert forall k :: 1 <= k < |body| ==> body[k] == u[k - 1];
  }

  /** The trailer of an accepted stream. */
  lemma {:induction false} ReadTrailer(s: seq<Byte>) returns (t: Trailer, rest: seq<Byte>)
    requires Feed(HEAD, s).outcome == Complete
    ensures s == EncodeTrailer(t, rest) && forall l <- t.lines :: LegalTrailerLine(l)
    decreases |s|
  {
    hide Leads, Feed;
    var k := Lead(s, IsCr);
    TakeSkipped(HEAD, s, k);
    CrsAre(s, k);
    var b, u := s[k], s[k + 1..];
    assert s[k..] == [b] + u;
    if b == LF {
      t, rest := Trailer([], k), u;
    } else {
      var body, more := ReadTrailerLine(b, u);
      assert |[b] + u| == |body| + 1 + |more|;
      var t';
      t', rest := ReadTrailer(more);
      t := Trailer([TrailerLine(k, body)] + t'.lines, t'.crs);
      assert t.lines[1..] == t'.lines;
    }
  }

  /**
    Whatever stream the decoder accepts is the encoding of a message followed by the
    undecoded tail, and what it decoded is that message's payload.
   */
  lemma EncodeDecode(ct: bool, s: seq<Byte>) returns (m: Message)
    requires Feed(Start(ct), s).outcome == Complete
    ensures var r := Feed(Start(ct), s);
            Legal(m) && s == Encode(m, ct, s[r.used..]) && r.out == Payload(m.chunks)
  {
    var rest;
    m, rest := Recover(ct, s);
    DecodeEncode(m, ct, rest);
  }

  lemma {:induction false} Recover(ct: bool, s: seq<Byte>) returns (m: Message, rest: seq<Byte>)
    requires Feed(Start(ct), s).outcome == Complete
    ensures Legal(m) && s == Encode(m, ct, rest)
    decreases |s|
  {
    hide Leads, Feed;
    var digits, ext, t := ReadSizeLine(ct, s);
    var size := HexValue(digits);
    SizeFits(digits);
    if size == 0 {
      var trailer := Trailer([], 0);
      rest := t;
      if ct {
        Move(ExtConf(digits, ct), LF, t);
        LeadsOutcome(ExtConf(digits, ct), [LF] + t, [], HEAD, t);
        trailer, rest := ReadTrailer(t);
      }
      m := Message([], digits, ext, trailer);
    } else {
      var data, v := ReadData(size, ct, t);
      var crs, u := ReadDataEnd(ct, v);
      var ch := Chunk(digits, ext, data, crs);
      WholeChunk(ch, ct, u);
      LeadsOutcome(Start(ct), s, data, Start(ct), u);
      var m';
      m', rest := Recover(ct, u);
      m := m'.(chunks := [ch] + m'.chunks);
      assert m.chunks[1..] == m'.chunks;
    }
  }

  /** The two directions together: completion is being an encoding. */
  lemma AcceptsExactlyEncodings(ct: bool, s: seq<Byte>)
    ensures Feed(Start(ct), s).outcome == Complete <==> exists m, rest :: Legal(m) && s == Encode(m, ct, rest)
  {
    if Feed(Start(ct), s).outcome == Complete {
      var m, rest := Recover(ct, s);
    }
    forall m, rest | Legal(m) && s == Encode(m, ct, rest) ensures Feed(Start(ct), s).outcome == Complete {
      DecodeEncode(m, ct, rest);
    }
  }
}
