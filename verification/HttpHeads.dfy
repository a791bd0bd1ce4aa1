/**
  Whole request and response heads: what is printed parses back to the same fields and
  exactly the head's length, whatever follows; and whatever parses was printed.
 */
module HttpHeads {
  import opened Bytes
  import opened HttpGrammar
  import opened HttpPrint

  /**
    A request head.  A line end may come before it; `sp1` and `sp2` count the spaces
    in excess of one around the path.
   */
  datatype RequestText = RequestText(
    before: Option<bool>, meth: seq<Byte>, sp1: nat, path: seq<Byte>, sp2: nat,
    minor: nat, crlf: bool, block: Block)

  ghost predicate LegalRequest(m: RequestText, max: nat) {
    && m.meth != [] && AllBytes(m.meth, IsTchar)
    && m.path != [] && AllBytes(m.path, IsTargetByte)
    && m.minor <= 9
    && LegalLines(m.block.lines, true) && |m.block.lines| <= max
  }

  function Spaces(n: nat): (s: seq<Byte>)
    ensures |s| == n && forall k :: 0 <= k < n ==> s[k] == SP
  {
    seq(n, _ => SP)
  }

  function DigitByte(d: nat): (b: Byte)
    requires d <= 9
    ensures IsDigit(b) && Digit(b) == d
  {
    48 + d
  }

  function Before(before: Option<bool>): seq<Byte> {
    if before.None? then [] else Eol(before.value)
  }

  function PrintVersionLine(minor: nat, crlf: bool, text: seq<Byte>): seq<Byte>
    requires minor <= 9
  {
    HTTP1 + ([DigitByte(minor)] + (Eol(crlf) + text))
  }

  function PrintWord(word: seq<Byte>, spaces: nat, text: seq<Byte>): seq<Byte> {
    word + ([SP] + (Spaces(spaces) + text))
  }

  function PrintMethodAndPath(m: RequestText, text: seq<Byte>): seq<Byte> {
    Before(m.before) + PrintWord(m.meth, m.sp1, PrintWord(m.path, m.sp2, text))
  }

  function PrintRequest(m: RequestText, rest: seq<Byte>): seq<Byte>
    requires m.minor <= 9
  {
    PrintMethodAndPath(m, PrintVersionLine(m.minor, m.crlf, PrintBlock(m.block, rest)))
  }

  function MethodOffset(m: RequestText): nat { |Before(m.before)| }

  function PathOffset(m: RequestText): nat { MethodOffset(m) + |m.meth| + 1 + m.sp1 }

  function VersionOffset(m: RequestText): nat { PathOffset(m) + |m.path| + 1 + m.sp2 }

  function BlockOffset(m: RequestText): nat { VersionOffset(m) + 8 + |Eol(m.crlf)| }

  /** The fields of the printed request, each at its place. */
  function RequestAt(m: RequestText): Request {
    Request(Slice(MethodOffset(m), |m.meth|), Slice(PathOffset(m), |m.path|), m.minor,
            HeadersAt(m.block.lines, BlockOffset(m)))
  }

  lemma TargetOver(s: seq<Byte>, i: nat, n: nat)
    requires i <= n < |s| && s[n] == SP && forall k :: i <= k < n ==> IsTargetByte(s[k])
    ensures ScanTarget(s, i) == Ok(n, ())
  {
    TargetSkip(s, i, n);
  }

  lemma TokenToSpace(s: seq<Byte>, i: nat, n: nat)
    requires i <= n < |s| && s[n] == SP && forall k :: i <= k < n ==> IsTchar(s[k])
    ensures ScanToken(s, i, SP) == Ok(n, ())
  {
    TokenSkip(s, i, n, SP);
  }

  /** Spaces and then something else. */
  lemma SpacesAt(s: seq<Byte>, i: nat, n: nat, text: seq<Byte>)
    requires At(s, i, Spaces(n) + text) && text != [] && text[0] != SP
    ensures SkipSpaces(s, i) == Ok(i + n, ()) && At(s, i + n, text)
  {
    AtPart(s, i, Spaces(n), text);
    SpacesSkip(s, i, i + n);
    assert s[i + n] == s[i + n..][0];
  }

  lemma BeforeAt(s: seq<Byte>, before: Option<bool>, text: seq<Byte>)
    requires At(s, 0, Before(before) + text) && text != [] && text[0] != CR && text[0] != LF
    ensures LineEnd(s, 0) == Ok(|Before(before)|, before.Some?) && At(s, |Before(before)|, text)
  {
    hide At;
    AtPart(s, 0, Before(before), text);
    if before.Some? {
      EolAt(s, 0, before.value, text);
    } else {
      AtFirst(s, 0, text);
    }
  }

  lemma AtFirst(s: seq<Byte>, i: nat, text: seq<Byte>)
    requires At(s, i, text) && text != []
    ensures i < |s| && s[i] == text[0]
  {
    assert s[i..][0] == text[0];
  }

  /** A word and the spaces behind it. */
  lemma WordAt(s: seq<Byte>, i: nat, word: seq<Byte>, spaces: nat, text: seq<Byte>)
    requires At(s, i, PrintWord(word, spaces, text)) && text != [] && text[0] != SP
    ensures var e := i + |word|;
            && e < |s| && s[e] == SP && (forall k :: i <= k < e ==> s[k] == word[k - i])
            && SkipSpaces(s, e + 1) == Ok(e + 1 + spaces, ()) && At(s, e + 1 + spaces, text)
  {
    hide At, SkipSpaces;
    AtPart(s, i, word, [SP] + (Spaces(spaces) + text));
    AtPart(s, i + |word|, [SP], Spaces(spaces) + text);
    SpacesAt(s, i + |word| + 1, spaces, text);
  }

  lemma MethodAndPathAt(s: seq<Byte>, m: RequestText, text: seq<Byte>)
    requires At(s, 0, PrintMethodAndPath(m, text)) && text != [] && text[0] != SP
    requires m.meth != [] && AllBytes(m.meth, IsTchar) && m.path != [] && AllBytes(m.path, IsTargetByte)
    ensures MethodAndPath(s) ==
              Ok(VersionOffset(m), (Slice(MethodOffset(m), |m.meth|), Slice(PathOffset(m), |m.path|)))
    ensures At(s, VersionOffset(m), text)
  {
    hide At, ScanToken, ScanTarget, SkipSpaces, Before, LineEnd, PrintWord;
    var t2 := PrintWord(m.path, m.sp2, text);
    var t1 := PrintWord(m.meth, m.sp1, t2);
    FirstOfWord(m.path, m.sp2, text);
    FirstOfWord(m.meth, m.sp1, t2);
    BeforeAt(s, m.before, t1);
    var i, p := MethodOffset(m), PathOffset(m);
    WordAt(s, i, m.meth, m.sp1, t2);
    TokenToSpace(s, i, i + |m.meth|);
    WordAt(s, p, m.path, m.sp2, text);
    TargetOver(s, p, p + |m.path|);
  }

  lemma FirstOfWord(word: seq<Byte>, spaces: nat, text: seq<Byte>)
    requires word != []
    ensures PrintWord(word, spaces, text) != [] && PrintWord(word, spaces, text)[0] == word[0]
  {
  }

  lemma VersionAt(s: seq<Byte>, v: nat, minor: nat, text: seq<Byte>)
    requires minor <= 9 && text != [] && At(s, v, HTTP1 + ([DigitByte(minor)] + text))
    ensures Version(s, v) == Ok(v + 8, minor) && At(s, v + 8, text)
  {
    AtPart(s, v, HTTP1, [DigitByte(minor)] + text);
    AtPart(s, v + 7, [DigitByte(minor)], text);
    assert s[v..v + 7] == HTTP1;
    assert |s[v + 8..]| > 0;
  }

  lemma VersionLineAt(s: seq<Byte>, v: nat, minor: nat, crlf: bool, text: seq<Byte>)
    requires minor <= 9 && At(s, v, PrintVersionLine(minor, crlf, text))
    ensures VersionLine(s, v) == Ok(v + 8 + |Eol(crlf)|, minor) && At(s, v + 8 + |Eol(crlf)|, text)
  {
    hide At, Version;
    VersionAt(s, v, minor, Eol(crlf) + text);
    EolAt(s, v + 8, crlf, text);
  }

  /** A printed request, followed by anything, parses to its fields and its length. */
  lemma ParsePrintRequest(m: RequestText, max: nat, rest: seq<Byte>)
    requires LegalRequest(m, max)
    ensures var s := PrintRequest(m, rest);
            var r := ParseRequest(s, max);
            |rest| <= |s| && r == Ok(|s| - |rest|, RequestAt(m)) && s[r.pos..] == rest
  {
    hide At, MethodAndPath, VersionLine, Headers, PrintMethodAndPath, PrintBlock, LegalLines;
    var s := PrintRequest(m, rest);
    AtAll(s);
    MethodAndPathAt(s, m, PrintVersionLine(m.minor, m.crlf, PrintBlock(m.block, rest)));
    VersionLineAt(s, VersionOffset(m), m.minor, m.crlf, PrintBlock(m.block, rest));
    BlockAt(s, BlockOffset(m), m.block, rest, 0, max);
    AtEnd(s, ParseRequest(s, max).pos, rest);
  }

  lemma AtAll(s: seq<Byte>)
    ensures At(s, 0, s)
  {
  }

  lemma AtEnd(s: seq<Byte>, i: nat, rest: seq<Byte>)
    requires At(s, i, rest)
    ensures i == |s| - |rest| && s[i..] == rest
  {
  }

  // ----- the converse -----

  lemma {:induction false} SpacesRead(s: seq<Byte>, i: nat) returns (n: nat)
    requires i <= |s| && SkipSpaces(s, i).Ok?
    ensures SkipSpaces(s, i).pos == i + n && s[i..i + n] == Spaces(n) && s[i + n] != SP
    decreases |s| - i
  {
    n := 0;
    if s[i] == SP {
      n := SpacesRead(s, i + 1);
      SpacesMore(s, i, n);
      n := n + 1;
    }
  }

  lemma SpacesMore(s: seq<Byte>, i: nat, n: nat)
    requires i + 1 + n <= |s| && s[i] == SP && s[i + 1..i + 1 + n] == Spaces(n)
    ensures s[i..i + 1 + n] == Spaces(n + 1)
  {
    assert forall k :: i < k < i + 1 + n ==> s[k] == s[i + 1..i + 1 + n][k - i - 1];
  }

  lemma {:induction false} TargetRead(s: seq<Byte>, i: nat)
    requires i <= |s| && ScanTarget(s, i).Ok?
    ensures var e := ScanTarget(s, i).pos;
            AllBytes(s[i..e], IsTargetByte) && s[e] == SP
    decreases |s| - i
  {
    if s[i] != SP {
      TargetRead(s, i + 1);
      var e := ScanTarget(s, i).pos;
      assert s[i..e] == [s[i]] + s[i + 1..e];
    }
  }

  lemma BeforeRead(s: seq<Byte>) returns (before: Option<bool>)
    requires LineEnd(s, 0).Ok?
    ensures LineEnd(s, 0).pos == |Before(before)| && s[0..|Before(before)|] == Before(before)
  {
    before := if LineEnd(s, 0).val then Some(s[0] == CR) else None;
  }

  /** A word, the space that ends it and the spaces after that. */
  ghost predicate WordIn(s: seq<Byte>, i: nat, word: seq<Byte>, spaces: nat) {
    var e := i + |word|;
    e + 1 + spaces <= |s| && s[i..e] == word && s[e] == SP && s[e + 1..e + 1 + spaces] == Spaces(spaces)
  }

  lemma MethodRead(s: seq<Byte>, i: nat) returns (word: seq<Byte>, spaces: nat)
    requires i <= |s| && ScanToken(s, i, SP).Ok? && SkipSpaces(s, ScanToken(s, i, SP).pos + 1).Ok?
    ensures ScanToken(s, i, SP).pos == i + |word| && AllBytes(word, IsTchar) && WordIn(s, i, word, spaces)
    ensures SkipSpaces(s, i + |word| + 1).pos == i + |word| + 1 + spaces
  {
    hide ScanToken, SkipSpaces;
    var e := ScanToken(s, i, SP).pos;
    TokenRead(s, i, SP);
    word := s[i..e];
    spaces := SpacesRead(s, e + 1);
  }

  lemma PathRead(s: seq<Byte>, i: nat) returns (word: seq<Byte>, spaces: nat)
    requires i <= |s| && ScanTarget(s, i).Ok? && SkipSpaces(s, ScanTarget(s, i).pos + 1).Ok?
    ensures ScanTarget(s, i).pos == i + |word| && AllBytes(word, IsTargetByte) && WordIn(s, i, word, spaces)
    ensures SkipSpaces(s, i + |word| + 1).pos == i + |word| + 1 + spaces
  {
    hide ScanTarget, SkipSpaces;
    var e := ScanTarget(s, i).pos;
    TargetRead(s, i);
    word := s[i..e];
    spaces := SpacesRead(s, e + 1);
  }

  /** A request text with the method and path that were read, and placeholders for the rest. */
  lemma MethodAndPathRead(s: seq<Byte>) returns (m: RequestText)
    requires MethodAndPath(s).Ok?
    ensures m.meth != [] && AllBytes(m.meth, IsTchar) && m.path != [] && AllBytes(m.path, IsTargetByte)
    ensures At(s, 0, PrintMethodAndPath(m, s[MethodAndPath(s).pos..]))
    ensures MethodAndPath(s) ==
              Ok(VersionOffset(m), (Slice(MethodOffset(m), |m.meth|), Slice(PathOffset(m), |m.path|)))
  {
    hide At, AllBytes, ScanToken, ScanTarget, SkipSpaces, Before, LineEnd, PrintWord, WordIn;
    var before := BeforeRead(s);
    var i := |Before(before)|;
    var meth, sp1 := MethodRead(s, i);
    var p := i + |meth| + 1 + sp1;
    var path, sp2 := PathRead(s, p);
    m := RequestText(before, meth, sp1, path, sp2, 0, false, Block([], false));
    var v := p + |path| + 1 + sp2;
    AtSelf(s, v);
    WordJoin(s, p, path, sp2, s[v..]);
    WordJoin(s, i, meth, sp1, PrintWord(path, sp2, s[v..]));
    AtJoin(s, 0, Before(before), PrintWord(meth, sp1, PrintWord(path, sp2, s[v..])));
  }

  lemma WordJoin(s: seq<Byte>, i: nat, word: seq<Byte>, spaces: nat, text: seq<Byte>)
    requires WordIn(s, i, word, spaces) && At(s, i + |word| + 1 + spaces, text)
    ensures At(s, i, PrintWord(word, spaces, text))
  {
    hide At;
    var e := i + |word|;
    AtJoin(s, e + 1, Spaces(spaces), text);
    AtJoin(s, e, [SP], Spaces(spaces) + text);
    AtJoin(s, i, word, [SP] + (Spaces(spaces) + text));
  }

  lemma VersionRead(s: seq<Byte>, v: nat)
    requires v <= |s| && Version(s, v).Ok?
    ensures At(s, v, HTTP1 + ([DigitByte(Version(s, v).val)] + s[v + 8..]))
  {
    assert [DigitByte(Version(s, v).val)] == s[v + 7..v + 8];
    AtSelf(s, v + 8);
    AtJoin(s, v + 7, s[v + 7..v + 8], s[v + 8..]);
    AtJoin(s, v, s[v..v + 7], s[v + 7..v + 8] + s[v + 8..]);
  }

  lemma VersionLineRead(s: seq<Byte>, v: nat) returns (crlf: bool)
    requires v <= |s| && VersionLine(s, v).Ok?
    ensures var r := VersionLine(s, v);
            && r.val <= 9 && r.pos == v + 8 + |Eol(crlf)|
            && At(s, v, PrintVersionLine(r.val, crlf, s[r.pos..]))
  {
    hide Version, Eol;
    VersionRead(s, v);
    crlf := LineEndRead(s, v + 8);
    AtRest(s, v + 8, Eol(crlf) + s[VersionLine(s, v).pos..]);
  }

  /** Every request that parses is a printed one, followed by the unread bytes. */
  lemma PrintParseRequest(s: seq<Byte>, max: nat) returns (m: RequestText)
    requires ParseRequest(s, max).Ok?
    ensures LegalRequest(m, max)
    ensures var r := ParseRequest(s, max);
            s == PrintRequest(m, s[r.pos..]) && r.val == RequestAt(m)
  {
    hide At, MethodAndPath, VersionLine, Headers, PrintBlock, LegalLines, Eol;
    var v := MethodAndPath(s).pos;
    var h := VersionLine(s, v).pos;
    m := MethodAndPathRead(s);
    var crlf := VersionLineRead(s, v);
    var block := BlockRead(s, h, 0, max);
    var rest := s[ParseRequest(s, max).pos..];
    AtRest(s, 0, PrintMethodAndPath(m, s[v..]));
    AtRest(s, v, PrintVersionLine(VersionLine(s, v).val, crlf, s[h..]));
    AtRest(s, h, PrintBlock(block, rest));
    assert s[0..] == s;
    m := m.(minor := VersionLine(s, v).val, crlf := crlf, block := block);
  }

  // ----- responses -----

  /** A response head; the message is absent or set off by `spaces` spaces. */
  datatype ResponseText = ResponseText(
    minor: nat, sp: nat, status: nat, spaces: nat, msg: seq<Byte>, crlf: bool, block: Block)

  ghost predicate LegalResponse(m: ResponseText, max: nat) {
    && m.minor <= 9 && m.status <= 999
    && LegalMessage(m.spaces, m.msg)
    && LegalLines(m.block.lines, true) && |m.block.lines| <= max
  }

  ghost predicate LegalMessage(spaces: nat, msg: seq<Byte>) {
    AllBytes(msg, IsText) && (msg != [] ==> spaces > 0 && msg[0] != SP)
  }

  function StatusDigits(status: nat): (s: seq<Byte>)
    requires status <= 999
    ensures |s| == 3
  {
    [DigitByte(status / 100), DigitByte(status / 10 % 10), DigitByte(status % 10)]
  }

  function PrintVersionAndStatus(m: ResponseText, text: seq<Byte>): seq<Byte>
    requires m.minor <= 9 && m.status <= 999
  {
    HTTP1 + ([DigitByte(m.minor)] + ([SP] + (Spaces(m.sp) + (StatusDigits(m.status) + text))))
  }

  function PrintMessage(spaces: nat, msg: seq<Byte>, crlf: bool, text: seq<Byte>): seq<Byte> {
    Spaces(spaces) + (msg + (Eol(crlf) + text))
  }

  function PrintResponse(m: ResponseText, rest: seq<Byte>): seq<Byte>
    requires m.minor <= 9 && m.status <= 999
  {
    PrintVersionAndStatus(m, PrintMessage(m.spaces, m.msg, m.crlf, PrintBlock(m.block, rest)))
  }

  function MessageOffset(m: ResponseText): nat { 12 + m.sp }

  function ResponseBlockOffset(m: ResponseText): nat {
    MessageOffset(m) + m.spaces + |m.msg| + |Eol(m.crlf)|
  }

  function ResponseAt(m: ResponseText): Response {
    Response(m.minor, m.status, Slice(MessageOffset(m) + m.spaces, |m.msg|),
             HeadersAt(m.block.lines, ResponseBlockOffset(m)))
  }

  lemma StatusAt(s: seq<Byte>, i: nat, status: nat, text: seq<Byte>)
    requires status <= 999 && text != [] && At(s, i, StatusDigits(status) + text)
    ensures Status(s, i) == Ok(i + 3, status) && At(s, i + 3, text)
  {
    hide At;
    AtPart(s, i, StatusDigits(status), text);
    AtFirst(s, i + 3, text);
    var d := StatusDigits(status);
    assert s[i] == d[0] && s[i + 1] == d[1] && s[i + 2] == d[2];
    DigitsMakeStatus(status);
  }

  lemma DigitsMakeStatus(status: nat)
    requires status <= 999
    ensures status / 100 * 100 + status / 10 % 10 * 10 + status % 10 == status
  {
  }

  lemma VersionAndStatusAt(s: seq<Byte>, m: ResponseText, text: seq<Byte>)
    requires m.minor <= 9 && m.status <= 999 && text != []
    requires At(s, 0, PrintVersionAndStatus(m, text))
    ensures VersionAndStatus(s) == Ok(MessageOffset(m), (m.minor, m.status)) && At(s, MessageOffset(m), text)
  {
    hide At, Version, SkipSpaces, Status;
    var t2 := StatusDigits(m.status) + text;
    var t1 := Spaces(m.sp) + t2;
    VersionAt(s, 0, m.minor, [SP] + t1);
    AtPart(s, 8, [SP], t1);
    SpacesAt(s, 9, m.sp, t2);
    StatusAt(s, 9 + m.sp, m.status, text);
  }

  lemma MessageAt(s: seq<Byte>, i: nat, spaces: nat, msg: seq<Byte>, crlf: bool, text: seq<Byte>)
    requires At(s, i, PrintMessage(spaces, msg, crlf, text)) && LegalMessage(spaces, msg)
    ensures var e := i + spaces + |msg| + |Eol(crlf)|;
            Message(s, i) == Ok(e, Slice(i + spaces, |msg|)) && At(s, e, text)
  {
    hide At, ScanEol, TrimStart, Eol;
    var b := i + spaces;
    var e := b + |msg|;
    AtPart(s, i, Spaces(spaces), msg + (Eol(crlf) + text));
    AtPart(s, b, msg, Eol(crlf) + text);
    EolAt(s, e, crlf, text);
    assert forall k :: i <= k < e ==> IsText(s[k]);
    EolSkip(s, i, e);
    TrimStartSkip(s, i, b, e);
  }

  lemma ParsePrintResponse(m: ResponseText, max: nat, rest: seq<Byte>)
    requires LegalResponse(m, max)
    ensures var s := PrintResponse(m, rest);
            var r := ParseResponse(s, max);
            |rest| <= |s| && r == Ok(|s| - |rest|, ResponseAt(m)) && s[r.pos..] == rest
  {
    hide At, VersionAndStatus, Message, Headers, PrintVersionAndStatus, PrintBlock, LegalLines;
    var s := PrintResponse(m, rest);
    AtAll(s);
    VersionAndStatusAt(s, m, PrintMessage(m.spaces, m.msg, m.crlf, PrintBlock(m.block, rest)));
    MessageAt(s, MessageOffset(m), m.spaces, m.msg, m.crlf, PrintBlock(m.block, rest));
    BlockAt(s, ResponseBlockOffset(m), m.block, rest, 0, max);
    AtEnd(s, ParseResponse(s, max).pos, rest);
  }

  lemma StatusRead(s: seq<Byte>, i: nat)
    requires i <= |s| && Status(s, i).Ok?
    ensures At(s, i, StatusDigits(Status(s, i).val) + s[i + 3..])
  {
    var a, b, c := Digit(s[i]), Digit(s[i + 1]), Digit(s[i + 2]);
    var status := a * 100 + b * 10 + c;
    assert status / 100 == a && status / 10 == a * 10 + b && status % 10 == c && status / 10 % 10 == b;
    assert s[i..i + 3] == StatusDigits(status);
    AtSelf(s, i + 3);
    AtJoin(s, i, s[i..i + 3], s[i + 3..]);
  }

  lemma VersionAndStatusRead(s: seq<Byte>) returns (m: ResponseText)
    requires VersionAndStatus(s).Ok?
    ensures m.minor <= 9 && m.status <= 999
    ensures VersionAndStatus(s) == Ok(MessageOffset(m), (m.minor, m.status))
    ensures At(s, 0, PrintVersionAndStatus(m, s[VersionAndStatus(s).pos..]))
  {
    hide At, Version, SkipSpaces, Status, StatusDigits;
    VersionRead(s, 0);
    var sp := SpacesRead(s, 9);
    StatusRead(s, 9 + sp);
    m := ResponseText(Version(s, 0).val, sp, Status(s, 9 + sp).val, 0, [], false, Block([], false));
    var t2 := StatusDigits(m.status) + s[12 + sp..];
    AtJoin(s, 9, Spaces(sp), t2);
    AtJoin(s, 8, [SP], Spaces(sp) + t2);
    AtRest(s, 8, [SP] + (Spaces(sp) + t2));
  }

  lemma {:induction false} TrimStartRead(s: seq<Byte>, i: nat, e: nat) returns (n: nat)
    requires i <= e <= |s|
    ensures TrimStart(s, i, e) == i + n <= e && s[i..i + n] == Spaces(n) && (i + n == e || s[i + n] != SP)
    decreases e - i
  {
    n := 0;
    if i < e && s[i] == SP {
      n := TrimStartRead(s, i + 1, e);
      SpacesMore(s, i, n);
      n := n + 1;
    }
  }

  lemma MessageRead(s: seq<Byte>, i: nat) returns (spaces: nat, msg: seq<Byte>, crlf: bool)
    requires i <= |s| && Message(s, i).Ok?
    ensures LegalMessage(spaces, msg)
    ensures var r := Message(s, i);
            && r == Ok(i + spaces + |msg| + |Eol(crlf)|, Slice(i + spaces, |msg|))
            && At(s, i, PrintMessage(spaces, msg, crlf, s[r.pos..]))
  {
    hide At, ScanEol, TrimStart, Eol;
    crlf := EolRead(s, i);
    var e := ScanEol(s, i);
    spaces := TrimStartRead(s, i, e.val);
    var b := i + spaces;
    msg := s[b..e.val];
    assert forall k :: 0 <= k < |msg| ==> msg[k] == s[i..e.val][k + spaces];
    assert msg != [] ==> msg[0] == s[b];
    AtJoin(s, b, msg, Eol(crlf) + s[e.pos..]);
    AtJoin(s, i, Spaces(spaces), msg + (Eol(crlf) + s[e.pos..]));
  }

  lemma PrintParseResponse(s: seq<Byte>, max: nat) returns (m: ResponseText)
    requires ParseResponse(s, max).Ok?
    ensures LegalResponse(m, max)
    ensures var r := ParseResponse(s, max);
            s == PrintResponse(m, s[r.pos..]) && r.val == ResponseAt(m)
  {
    hide At, VersionAndStatus, Message, Headers, PrintBlock, LegalLines, Eol;
    var i := VersionAndStatus(s).pos;
    var h := Message(s, i).pos;
    m := VersionAndStatusRead(s);
    var spaces, msg, crlf := MessageRead(s, i);
    var block := BlockRead(s, h, 0, max);
    var rest := s[ParseResponse(s, max).pos..];
    AtRest(s, 0, PrintVersionAndStatus(m, s[i..]));
    AtRest(s, i, PrintMessage(spaces, msg, crlf, s[h..]));
    AtRest(s, h, PrintBlock(block, rest));
    assert s[0..] == s;
    m := m.(spaces := spaces, msg := msg, crlf := crlf, block := block);
  }

  // ----- the slices of an accepted head -----

  /** Method, path and headers are disjoint slices in order, inside what was consumed. */
  lemma RequestWellFormed(s: seq<Byte>, max: nat)
    requires ParseRequest(s, max).Ok?
    ensures var r := ParseRequest(s, max);
            var q := r.val;
            && q.meth.len > 0 && AllBytes(s[q.meth.off..q.meth.End()], IsTchar)
            && q.path.len > 0 && AllBytes(s[q.path.off..q.path.End()], IsTargetByte)
            && q.meth.End() < q.path.off && q.path.End() < r.pos
            && Ordered(q.headers, q.path.End(), r.pos)
            && |q.headers| <= max
            && (forall j :: 0 <= j < |q.headers| ==> WellFormed(s, q.headers[j]))
            && (q.headers != [] ==> q.headers[0].name.Some?)
  {
    hide At, MethodAndPath, VersionLine, Headers, Ordered, WellFormed, PrintWord;
    var v := MethodAndPath(s).pos;
    var h := VersionLine(s, v).pos;
    var m := MethodAndPathRead(s);
    BlockWellFormed(s, h, 0, max);
    OrderedFrom(ParseRequest(s, max).val.headers, h, PathOffset(m) + |m.path|, ParseRequest(s, max).pos);
    MethodAndPathHold(s, m, s[v..]);
  }

  lemma OrderedFrom(hs: seq<Header>, lo: nat, lo': nat, hi: nat)
    requires Ordered(hs, lo, hi) && lo' <= lo
    ensures Ordered(hs, lo', hi)
  {
  }

  lemma MethodAndPathHold(s: seq<Byte>, m: RequestText, text: seq<Byte>)
    requires At(s, 0, PrintMethodAndPath(m, text))
    ensures Holds(s, Slice(MethodOffset(m), |m.meth|), m.meth) && Holds(s, Slice(PathOffset(m), |m.path|), m.path)
  {
    hide At, Before, Holds;
    var t2 := Spaces(m.sp2) + text;
    var t1 := Spaces(m.sp1) + (m.path + ([SP] + t2));
    AtPart(s, 0, Before(m.before), m.meth + ([SP] + t1));
    PartHolds(s, MethodOffset(m), m.meth, [SP] + t1);
    AtPart(s, MethodOffset(m), m.meth, [SP] + t1);
    AtPart(s, MethodOffset(m) + |m.meth|, [SP], t1);
    AtPart(s, MethodOffset(m) + |m.meth| + 1, Spaces(m.sp1), m.path + ([SP] + t2));
    PartHolds(s, PathOffset(m), m.path, [SP] + t2);
  }

  /** The three digits at `i` denote the status. */
  predicate StatusReads(s: seq<Byte>, i: nat, status: nat) {
    && i + 3 <= |s| && IsDigit(s[i]) && IsDigit(s[i + 1]) && IsDigit(s[i + 2])
    && status == 100 * Digit(s[i]) + 10 * Digit(s[i + 1]) + Digit(s[i + 2])
  }

  lemma StatusDigitsRead(s: seq<Byte>)
    requires VersionAndStatus(s).Ok?
    ensures VersionAndStatus(s).pos >= 12 && StatusReads(s, VersionAndStatus(s).pos - 3, VersionAndStatus(s).val.1)
  {
    hide SkipSpaces, Version;
  }

  /**
    The status is the number its three digits denote; the message is trimmed in front and set
    off by a space.
   */
  lemma ResponseWellFormed(s: seq<Byte>, max: nat)
    requires ParseResponse(s, max).Ok?
    ensures var q := ParseResponse(s, max).val;
            var m := VersionAndStatus(s).pos;
            && 12 <= m <= q.msg.off <= |s| && m < |s|
            && StatusReads(s, m - 3, q.status) && (m < q.msg.off ==> s[m] == SP)
    ensures var r := ParseResponse(s, max);
            var q := r.val;
            && q.msg.End() < r.pos
            && AllBytes(s[q.msg.off..q.msg.End()], IsText)
            && (q.msg.len > 0 ==> s[q.msg.off] != SP && s[q.msg.off - 1] == SP)
            && Ordered(q.headers, q.msg.End(), r.pos)
            && |q.headers| <= max
            && (forall j :: 0 <= j < |q.headers| ==> WellFormed(s, q.headers[j]))
            && (q.headers != [] ==> q.headers[0].name.Some?)
  {
    hide At, VersionAndStatus, Message, Headers, Ordered, WellFormed, Eol;
    var i := VersionAndStatus(s).pos;
    var h := Message(s, i).pos;
    StatusDigitsRead(s);
    var spaces, msg, crlf := MessageRead(s, i);
    BlockWellFormed(s, h, 0, max);
    OrderedFrom(ParseResponse(s, max).val.headers, h, i + spaces + |msg|, ParseResponse(s, max).pos);
    var end := Eol(crlf) + s[h..];
    AtPart(s, i, Spaces(spaces), msg + end);
    PartHolds(s, i + spaces, msg, end);
    AtPart(s, i + spaces, msg, end);
  }
}
