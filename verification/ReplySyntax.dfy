/** The grammar of replies: a streaming parser, and the printer it undoes. */
module ReplySyntax {
  import opened Automata
  import opened Bytes
  import opened Combinators
  import opened Commands
  import opened Framing
  import opened Utf8

  /** Tab and the printable ASCII characters. */
  predicate TextByte(b: byte) { b == 9 || 32 <= b <= 126 }

  function NextCode(q: nat, b: byte): nat {
    if q == 1 && 50 <= b <= 53 then 2
    else if q == 2 && Digit(b) then 3
    else if q == 3 && Digit(b) then 4
    else DEAD
  }

  /** A digit from 2 to 5, then two digits. */
  const REPLY_CODE: Dfa := Dfa(1, NextCode, q => q == 4)

  function NextEnhanced(q: nat, b: byte): nat {
    if q == 1 && (b == 50 || b == 52 || b == 53) then 2
    else if q == 2 && b == DOT then 3
    else if (q == 3 || q == 4 || q == 5) && Digit(b) then q + 1
    else if (q == 4 || q == 5 || q == 6) && b == DOT then 7
    else if (q == 7 || q == 8 || q == 9) && Digit(b) then q + 1
    else DEAD
  }

  /** 2, 4 or 5, and two numbers of one to three digits, with dots between them. */
  const ENHANCED_CODE: Dfa := Dfa(1, NextEnhanced, q => q == 8 || q == 9 || q == 10)

  const TEXT_ASCII: Dfa := AsciiOf(TextByte)
  const TEXT_UTF8: Dfa := Utf8Of(TextByte)

  datatype Line = Line(code: bytes, last: bool, ecode: Option<bytes>, text: Text)

  datatype Reply = Reply(code: bytes, ecode: Option<bytes>, text: seq<Text>)

  // ------------------------------------------------------------------ the parser

  function ParseSeparator(s: bytes): Outcome<bool> {
    Alt(As(false, Tag([DASH], s)), As(true, Opt(Tag([SP], s), s)))
  }

  function ParseAfterEnhanced(s: bytes): Outcome<bytes> {
    Alt(Tag([SP], s), Peek(Tag(CRLF, s), s))
  }

  /** An enhanced code, followed by a space or by the end of the line. */
  function ParseEnhanced(s: bytes): Outcome<bytes> {
    match ApplyRegex(ENHANCED_CODE, s)
    case Ok(code, s1) => As(code, ParseAfterEnhanced(s1))
    case Error => Error
    case Incomplete => Incomplete
  }

  function ParseUpToCrLf(d: Dfa, s: bytes): Outcome<bytes> {
    match ApplyRegex(d, s)
    case Ok(text, s1) => As(text, Tag(CRLF, s1))
    case Error => Error
    case Incomplete => Incomplete
  }

  function ParseText(s: bytes): Outcome<Text> {
    match ParseUpToCrLf(TEXT_ASCII, s)
    case Ok(text, s1) => Ok(Ascii(text), s1)
    case Incomplete => Incomplete
    case Error =>
      match ParseUpToCrLf(TEXT_UTF8, s)
      case Ok(text, s1) => Ok(Text.Utf8(text), s1)
      case Incomplete => Incomplete
      case Error => Error
  }

  /** What follows the code and the separator of a line. */
  function ParseTail(s: bytes): Outcome<(Option<bytes>, Text)> {
    match Opt(ParseEnhanced(s), s)
    case Ok(ecode, s1) =>
      (match ParseText(s1)
       case Ok(text, s2) => Ok((ecode, text), s2)
       case Error => Error
       case Incomplete => Incomplete)
    case Error => Error
    case Incomplete => Incomplete
  }

  function OfTail(code: bytes, last: bool, t: Outcome<(Option<bytes>, Text)>): Outcome<Line> {
    match t
    case Ok(tail, rest) => Ok(Line(code, last, tail.0, tail.1), rest)
    case Error => Error
    case Incomplete => Incomplete
  }

  function ParseLine(s: bytes): Outcome<Line> {
    match ApplyRegex(REPLY_CODE, s)
    case Error => Error
    case Incomplete => Incomplete
    case Ok(code, s1) =>
      match ParseSeparator(s1)
      case Error => Error
      case Incomplete => Incomplete
      case Ok(last, s2) => OfTail(code, last, ParseTail(s2))
  }

  /** Looks whether the fourth byte says that more lines follow. */
  function PeekDash(s: bytes): Outcome<bytes> {
    match Take(3, s)
    case Ok(_, s1) => Peek(Tag([DASH], s1), s)
    case Error => Error
    case Incomplete => Incomplete
  }

  /** All lines but the last. */
  function ParseLines(s: bytes): Outcome<seq<Line>>
    decreases |s|
  {
    match PeekDash(s)
    case Error => Ok([], s)
    case Incomplete => Incomplete
    case Ok(_, _) =>
      match ParseLine(s)
      case Error => Ok([], s)
      case Incomplete => Incomplete
      case Ok(line, s1) =>
        if |s1| >= |s| then Error
        else
          match ParseLines(s1)
          case Ok(lines, s2) => Ok([line] + lines, s2)
          case Error => Error
          case Incomplete => Incomplete
  }

  function Texts(lines: seq<Line>): seq<Text> {
    seq(|lines|, i requires 0 <= i < |lines| => lines[i].text)
  }

  /** The last line, after the others. */
  function ParseLast(lines: seq<Line>, s: bytes): Outcome<Reply> {
    match ParseLine(s)
    case Ok(last, rest) => if last.last then Ok(Reply(last.code, last.ecode, Texts(lines) + [last.text]), rest) else Error
    case Error => Error
    case Incomplete => Incomplete
  }

  function ParseReply(s: bytes): Outcome<Reply> {
    match ParseLines(s)
    case Ok(lines, s1) => ParseLast(lines, s1)
    case Error => Error
    case Incomplete => Incomplete
  }

  // ------------------------------------------------------------------ the printer

  function PrintTail(ecode: Option<bytes>, text: bytes): bytes {
    (match ecode { case Some(e) => e + [SP] case None => [] }) + text
  }

  function PrintLine(code: bytes, last: bool, tail: bytes): bytes {
    code + ([if last then SP else DASH] + (tail + CRLF))
  }

  function PrintLines(code: bytes, tails: seq<bytes>): bytes
    requires tails != []
  {
    if |tails| == 1 then PrintLine(code, true, tails[0])
    else PrintLine(code, false, tails[0]) + PrintLines(code, tails[1..])
  }

  function Tails(r: Reply): (t: seq<bytes>)
    ensures |t| == |r.text|
  {
    seq(|r.text|, i requires 0 <= i < |r.text| => PrintTail(r.ecode, r.text[i].s))
  }

  /** The source computes the index of the last line; a reply without lines has none. */
  function Print(r: Reply): bytes
    requires r.text != []
  {
    PrintLines(r.code, Tails(r))
  }

  /** The lines of a reply as they go over the wire: all have its code and its enhanced code, and all but the last a dash. */
  lemma ReplyText(r: Reply)
    requires r.text != []
    ensures var enhanced := if r.ecode.Some? then r.ecode.value + [32] else [];
            Print(r) == r.code + [if |r.text| == 1 then 32 else 45] + enhanced + r.text[0].s + [13, 10]
                        + if |r.text| == 1 then [] else Print(r.(text := r.text[1..]))
  {
    var tails, rest := Tails(r), r.(text := r.text[1..]);
    var enhanced := if r.ecode.Some? then r.ecode.value + [32] else [];
    assert tails[0] == enhanced + r.text[0].s;
    LineText(r.code, if |r.text| == 1 then 32 else 45, enhanced, r.text[0].s);
    if |r.text| > 1 {
      assert tails[1..] == Tails(rest);
    }
  }

  lemma LineText(code: bytes, b: byte, enhanced: bytes, text: bytes)
    ensures code + ([b] + ((enhanced + text) + CRLF)) == code + [b] + enhanced + text + [13, 10]
  { }

  // ------------------------------------------------------------------ text

  /** Text is ASCII when it can be. */
  function TextOf(s: bytes): Text {
    if Accepts(TEXT_ASCII, s) then Ascii(s) else Text.Utf8(s)
  }

  /** Text with a character that is not ASCII: the ASCII expression stops there. */
  lemma AsciiPart(s: bytes, t: bytes) returns (i: nat)
    requires Run(TEXT_UTF8, s) != DEAD && !Accepts(TEXT_ASCII, s)
    ensures i < |s| && s[i] >= 0x80
    ensures ApplyRegex(TEXT_ASCII, s + t) == Ok(s[..i], s[i..] + t)
  {
    ClassesWellFormed(TextByte);
    AsciiRun(TextByte, s);
    i := 0;
    while s[i] < 0x80 && TextByte(s[i])
      invariant i < |s| && forall j :: 0 <= j < i ==> s[j] < 0x80 && TextByte(s[j])
      decreases |s| - i
    {
      i := i + 1;
      assert i < |s|;
    }
    StopsAt(s, i);
    assert s + t == s[..i] + (s[i..] + t);
    MatchThenDead(TEXT_ASCII, s[..i], s[i..] + t);
  }

  lemma StopsAt(s: bytes, i: nat)
    requires Run(TEXT_UTF8, s) != DEAD && i < |s|
    requires !(s[i] < 0x80 && TextByte(s[i])) && forall j :: 0 <= j < i ==> s[j] < 0x80 && TextByte(s[j])
    ensures s[i] >= 0x80 && Accepts(TEXT_ASCII, s[..i])
  {
    AsciiRun(TextByte, s[..i]);
    AsciiIsUtf8(TextByte, s[..i]);
    PrefixAlive(TextByte, s, i + 1);
    assert s[..i + 1][..i] == s[..i];
  }

  lemma UpToCrLfEnds(d: Dfa, s: bytes, end: bytes)
    requires WellFormed(d) && Accepts(d, s) && end != [] && d.next(Run(d, s), end[0]) == DEAD
    ensures ParseUpToCrLf(d, s + end) == As(s, Tag(CRLF, end))
  {
    MatchThenDead(d, s, end);
  }

  lemma UpToCrLfAwaits(d: Dfa, s: bytes)
    requires Accepts(d, s)
    ensures ParseUpToCrLf(d, s) == Incomplete
  {
    MatchesAll(d, s);
  }

  lemma AsciiStops(s: bytes, t: bytes)
    requires Run(TEXT_UTF8, s) != DEAD && !Accepts(TEXT_ASCII, s)
    ensures ParseUpToCrLf(TEXT_ASCII, s + t) == Error
  {
    var i := AsciiPart(s, t);
    assert (s[i..] + t)[0] == s[i];
  }

  /** Inside a character, the last match is before it, and is not followed by the end of the line. */
  lemma CutInside(s: bytes)
    requires Run(TEXT_UTF8, s) != DEAD && Run(TEXT_UTF8, s) != 1
    ensures ParseUpToCrLf(TEXT_UTF8, s) == Error
  {
    assert s[..0] == [] && s[..|s|] == s && Accepts(TEXT_UTF8, s[..0]);
    LongestIsLongest(TEXT_UTF8, s);
    var j := Longest(TEXT_UTF8, s).value;
    PrefixAlive(TextByte, s, j + 1);
    assert s[..j + 1][..j] == s[..j] && !Accepts(TEXT_UTF8, s[..j + 1]);
    assert s[j..][0] == s[j] != CR;
  }

  /** Text that has not come to its end: more is awaited, unless it is cut inside a character. */
  lemma TextPartial(s: bytes)
    requires Run(TEXT_UTF8, s) != DEAD
    ensures ParseText(s) == if Run(TEXT_UTF8, s) == 1 then Incomplete else Error
  {
    if Accepts(TEXT_ASCII, s) {
      UpToCrLfAwaits(TEXT_ASCII, s);
      AsciiIsUtf8(TextByte, s);
    } else {
      AsciiStops(s, []);
      assert s + [] == s;
      if Run(TEXT_UTF8, s) == 1 { UpToCrLfAwaits(TEXT_UTF8, s); } else { CutInside(s); }
    }
  }

  /** Text and its end, or the first half of it. */
  lemma TextEnds(s: bytes, end: bytes)
    requires Run(TEXT_UTF8, s) == 1 && end != [] && end[0] == CR
    ensures ParseText(s + end) == As(TextOf(s), Tag(CRLF, end))
  {
    ClassesWellFormed(TextByte);
    UpToCrLfEnds(TEXT_UTF8, s, end);
    if Accepts(TEXT_ASCII, s) { UpToCrLfEnds(TEXT_ASCII, s, end); } else { AsciiStops(s, end); }
  }

  // ------------------------------------------------------------------ enhanced codes

  /** The text begins with something that reads as an enhanced code. */
  predicate Readable(s: bytes) {
    match Longest(ENHANCED_CODE, s)
    case Some(n) => n == |s| || s[n] == SP
    case None => false
  }

  /** The code and the text that a tail is read as. */
  function ReadTail(s: bytes): (Option<bytes>, Text) {
    if Readable(s) then
      var n := Longest(ENHANCED_CODE, s).value;
      (Some(s[..n]), TextOf(if n == |s| then [] else s[n + 1..]))
    else (None, TextOf(s))
  }

  lemma EnhancedWellFormed()
    ensures WellFormed(ENHANCED_CODE)
  { }

  /** A byte that no state lives through ends the search. */
  lemma LongestBefore(d: Dfa, s: bytes, end: bytes)
    requires WellFormed(d) && end != [] && forall q :: d.next(q, end[0]) == DEAD
    ensures Longest(d, s + end) == Longest(d, s) && Run(d, s + end) == DEAD
  {
    var all := s + end;
    assert all[..|s|] == s && all[..|s| + 1][..|s|] == s && all[..|all|] == all;
    DeadEnds(d, all, |s| + 1, |all|);
    forall k: nat | |s| < k <= |all| ensures !Accepts(d, all[..k]) { DeadEnds(d, all, |s| + 1, k); }
    assert forall k: nat {:trigger all[..k]} :: k <= |s| ==> all[..k] == s[..k];
    LongestIsLongest(d, s);
    if Longest(d, s).Some? { LongestIs(d, all, Longest(d, s).value); } else { LongestNone(d, all); }
  }

  /** While it lives, the automaton of enhanced codes has seen digits and dots. */
  lemma {:induction false} EnhancedIsText(s: bytes)
    requires Run(ENHANCED_CODE, s) != DEAD
    ensures Run(TEXT_UTF8, s) == 1
    decreases |s|
  {
    if s != [] { EnhancedIsText(s[..|s| - 1]); }
  }

  lemma AfterSpace(s: bytes, n: nat)
    requires n < |s| && Run(TEXT_UTF8, s[..n]) == 1 && s[n] == SP
    ensures Run(TEXT_UTF8, s[n + 1..]) == Run(TEXT_UTF8, s)
  {
    var head := s[..n + 1];
    assert head[..|head| - 1] == s[..n] && head[|head| - 1] == SP;
    RunFromBoundary(TextByte, head, s[n + 1..]);
    assert head + s[n + 1..] == s;
  }

  lemma EnhancedPrefix(s: bytes, n: nat)
    requires Longest(ENHANCED_CODE, s) == Some(n)
    ensures n <= |s| && Run(TEXT_UTF8, s[..n]) == 1
    ensures n < |s| && s[n] == SP ==> Run(TEXT_UTF8, s[n + 1..]) == Run(TEXT_UTF8, s)
  {
    LongestIsLongest(ENHANCED_CODE, s);
    EnhancedIsText(s[..n]);
    if n < |s| && s[n] == SP { AfterSpace(s, n); }
  }

  /** A first part of a tail: what the optional code leaves to the text is as far into a character. */
  lemma TailPartial(s: bytes)
    requires Run(TEXT_UTF8, s) != DEAD
    ensures ParseTail(s) == if Run(TEXT_UTF8, s) == 1 then Incomplete else Error
  {
    EnhancedWellFormed();
    match Longest(ENHANCED_CODE, s)
    case None =>
      if Run(ENHANCED_CODE, s) == DEAD { TextPartial(s); } else { EnhancedIsText(s); }
    case Some(n) =>
      EnhancedPrefix(s, n);
      if n == |s| {
        assert s[..n] == s;
      } else if s[n] == SP {
        TextPartial(s[n + 1..]);
      } else {
        NotCr(s, n);
        TextPartial(s);
      }
  }

  lemma NotCr(s: bytes, n: nat)
    requires Run(TEXT_UTF8, s) != DEAD && n < |s|
    ensures s[n] != CR
  {
    PrefixAlive(TextByte, s, n + 1);
  }

  lemma AfterEnhanced(s: bytes)
    ensures ParseAfterEnhanced(s) ==
            if s == [] then Incomplete
            else if s[0] == SP then Ok([SP], s[1..])
            else if s[0] == CR then Peek(Tag(CRLF, s), s)
            else Error
  { }

  /** The enhanced code at the head of a tail whose end, or the first half of it, has come. */
  lemma RegexEnds(s: bytes, end: bytes)
    requires end != [] && end[0] == CR
    ensures ApplyRegex(ENHANCED_CODE, s + end) ==
            match Longest(ENHANCED_CODE, s) { case Some(n) => Ok(s[..n], s[n..] + end) case None => Error }
  {
    EnhancedWellFormed();
    LongestBefore(ENHANCED_CODE, s, end);
    var r := Longest(ENHANCED_CODE, s);
    if r.Some? { assert (s + end)[..r.value] == s[..r.value] && (s + end)[r.value..] == s[r.value..] + end; }
  }

  lemma EnhancedAmid(s: bytes, end: bytes, n: nat)
    requires n < |s| && s[n] != CR
    ensures ParseAfterEnhanced(s[n..] + end) == if s[n] == SP then Ok([SP], s[n + 1..] + end) else Error
  {
    AfterEnhanced(s[n..] + end);
    assert (s[n..] + end)[0] == s[n] && (s[n..] + end)[1..] == s[n + 1..] + end;
  }

  lemma EnhancedPlain(s: bytes, end: bytes)
    requires Run(TEXT_UTF8, s) == 1 && end != [] && end[0] == CR && !Readable(s)
    ensures ParseEnhanced(s + end) == Error
  {
    RegexEnds(s, end);
    var r := Longest(ENHANCED_CODE, s);
    if r.Some? {
      NotCr(s, r.value);
      EnhancedAmid(s, end, r.value);
    }
  }

  lemma EnhancedSpaced(s: bytes, end: bytes, n: nat)
    requires end != [] && end[0] == CR && Longest(ENHANCED_CODE, s) == Some(n) && n < |s| && s[n] == SP
    ensures ParseEnhanced(s + end) == Ok(s[..n], s[n + 1..] + end)
  {
    RegexEnds(s, end);
    EnhancedAmid(s, end, n);
  }

  lemma EnhancedWhole(s: bytes, end: bytes)
    requires end != [] && end[0] == CR && Longest(ENHANCED_CODE, s) == Some(|s|)
    ensures ParseEnhanced(s + end) == As(s, Peek(Tag(CRLF, end), end))
  {
    RegexEnds(s, end);
    assert s[..|s|] == s && s[|s|..] + end == end;
    AfterEnhanced(end);
  }

  lemma TailOf(s: bytes)
    ensures ParseTail(s) ==
            match ParseEnhanced(s)
            case Error => (match ParseText(s) { case Ok(text, rest) => Ok((None, text), rest) case Error => Error case Incomplete => Incomplete })
            case Ok(e, s1) => (match ParseText(s1) { case Ok(text, rest) => Ok((Some(e), text), rest) case Error => Error case Incomplete => Incomplete })
            case Incomplete => Incomplete
  { }

  lemma TailPlain(s: bytes, end: bytes)
    requires Run(TEXT_UTF8, s) == 1 && end != [] && end[0] == CR && !Readable(s)
    ensures ParseTail(s + end) == As(ReadTail(s), Tag(CRLF, end))
  {
    EnhancedPlain(s, end);
    TailOf(s + end);
    TextEnds(s, end);
  }

  lemma TailWithText(s: bytes, end: bytes)
    requires Run(TEXT_UTF8, s) == 1 && end != [] && end[0] == CR && Readable(s) && Longest(ENHANCED_CODE, s) != Some(|s|)
    ensures ParseTail(s + end) == As(ReadTail(s), Tag(CRLF, end))
  {
    var n := Longest(ENHANCED_CODE, s).value;
    EnhancedPrefix(s, n);
    EnhancedSpaced(s, end, n);
    TailOf(s + end);
    TextEnds(s[n + 1..], end);
  }

  lemma ReadWhole(s: bytes)
    requires Longest(ENHANCED_CODE, s) == Some(|s|)
    ensures ReadTail(s) == (Some(s), TextOf([]))
  {
    assert s[..|s|] == s;
  }

  lemma NoText(end: bytes)
    requires end != [] && end[0] == CR
    ensures ParseText(end) == As(TextOf([]), Tag(CRLF, end))
  {
    assert [] + end == end;
    TextEnds([], end);
  }

  lemma TailCodeOnly(s: bytes, end: bytes)
    requires end != [] && end[0] == CR && Longest(ENHANCED_CODE, s) == Some(|s|) && !Tag(CRLF, end).Error?
    ensures ParseTail(s + end) == As(ReadTail(s), Tag(CRLF, end))
  {
    EnhancedWhole(s, end);
    TailOf(s + end);
    ReadWhole(s);
    NoText(end);
  }

  /** A tail and its end, or the first half of it. */
  lemma TailEnds(s: bytes, end: bytes)
    requires Run(TEXT_UTF8, s) == 1 && (end == [CR] || CRLF <= end)
    ensures ParseTail(s + end) == As(ReadTail(s), Tag(CRLF, end))
  {
    if !Readable(s) { TailPlain(s, end); }
    else if Longest(ENHANCED_CODE, s) == Some(|s|) { TailCodeOnly(s, end); }
    else { TailWithText(s, end); }
  }

  // ------------------------------------------------------------------ lines

  predicate IsCode(code: bytes) { Accepts(REPLY_CODE, code) }

  lemma {:induction false} CodeRun(s: bytes)
    requires Run(REPLY_CODE, s) != DEAD
    ensures Run(REPLY_CODE, s) == |s| + 1 && forall i :: 0 <= i < |s| ==> Digit(s[i])
    decreases |s|
  {
    if s != [] {
      CodeRun(s[..|s| - 1]);
      assert forall i :: 0 <= i < |s| - 1 ==> s[i] == s[..|s| - 1][i];
    }
  }

  lemma CodeWellFormed()
    ensures WellFormed(REPLY_CODE)
  { }

  /** A part of the code, or all of it: more is awaited. */
  lemma CodePartial(code: bytes, k: nat)
    requires IsCode(code) && k <= |code|
    ensures ParseLine(code[..k]) == Incomplete
  {
    CodeWellFormed();
    CodeRun(code);
    assert code[..|code|] == code;
    var s := code[..k];
    if k == |code| {
      MatchesAll(REPLY_CODE, s);
    } else {
      if Run(REPLY_CODE, s) == DEAD { DeadEnds(REPLY_CODE, code, k, |code|); }
      forall j: nat | j <= k ensures !Accepts(REPLY_CODE, s[..j]) {
        assert s[..j] == code[..j];
        if Accepts(REPLY_CODE, code[..j]) { CodeRun(code[..j]); }
      }
      NoMatchYet(REPLY_CODE, s);
    }
  }

  lemma LineIs(code: bytes, last: bool, t: bytes)
    requires IsCode(code)
    ensures ParseLine(code + ([if last then SP else DASH] + t)) == OfTail(code, last, ParseTail(t))
  {
    CodeWellFormed();
    CodeRun(code);
    var s1 := [if last then SP else DASH] + t;
    MatchThenDead(REPLY_CODE, code, s1);
    assert s1[1..] == t;
  }

  /** A whole line, and what follows. */
  lemma LineReads(code: bytes, last: bool, tail: bytes, rest: bytes)
    requires IsCode(code) && Run(TEXT_UTF8, tail) == 1
    ensures ParseLine(PrintLine(code, last, tail) + rest) == Ok(Line(code, last, ReadTail(tail).0, ReadTail(tail).1), rest)
  {
    LineAndRest(code, last, tail, rest);
    LineIs(code, last, tail + (CRLF + rest));
    TailReads(tail, rest);
  }

  lemma LineAndRest(code: bytes, last: bool, tail: bytes, rest: bytes)
    ensures PrintLine(code, last, tail) + rest == code + ([if last then SP else DASH] + (tail + (CRLF + rest)))
  { }

  lemma TailReads(tail: bytes, rest: bytes)
    requires Run(TEXT_UTF8, tail) == 1
    ensures ParseTail(tail + (CRLF + rest)) == Ok(ReadTail(tail), rest)
  {
    TailEnds(tail, CRLF + rest);
    assert (CRLF + rest)[|CRLF|..] == rest;
  }

  /** Where a line is cut after its separator. */
  lemma LineCut(code: bytes, last: bool, tail: bytes, k: nat)
    requires IsCode(code) && |code| < k < |PrintLine(code, last, tail)|
    ensures var t := (tail + CRLF)[..k - |code| - 1];
            && PrintLine(code, last, tail)[..k] == code + ([if last then SP else DASH] + t)
            && t == if |t| <= |tail| then tail[..|t|] else tail + [CR]
  { }

  /** A first part of a tail with its end: how it parses, and how far it is into a character. */
  lemma TailCut(tail: bytes, t: bytes)
    requires Run(TEXT_UTF8, tail) == 1 && (|t| <= |tail| ==> t == tail[..|t|]) && (|t| > |tail| ==> t == tail + [CR])
    ensures ParseTail(t) == if Run(UTF8, t) == 1 then Incomplete else Error
  {
    if |t| <= |tail| {
      PrefixAlive(TextByte, tail, |t|);
      TailPartial(t);
      ClassIsUtf8(TextByte, t);
    } else {
      TailEnds(tail, [CR]);
      ClassIsUtf8(TextByte, tail);
      RunFromBoundary(AnyByte, tail, [CR]);
      AllAscii([CR]);
    }
  }

  /** A first part of a line: more is awaited, unless it is cut inside a character. */
  lemma LinePartial(code: bytes, last: bool, tail: bytes, k: nat)
    requires IsCode(code) && Run(TEXT_UTF8, tail) == 1 && k < |PrintLine(code, last, tail)|
    ensures var p := PrintLine(code, last, tail)[..k]; ParseLine(p) == if Run(UTF8, p) == 1 then Incomplete else Error
  {
    CodeRun(code);
    if k <= |code| {
      assert PrintLine(code, last, tail)[..k] == code[..k];
      CodePartial(code, k);
      AllAscii(code[..k]);
    } else {
      LineCut(code, last, tail, k);
      var t := (tail + CRLF)[..k - |code| - 1];
      LineIs(code, last, t);
      TailCut(tail, t);
      var sep := [if last then SP else DASH];
      Regroup(code, sep, t);
      AfterAscii(code + sep, t);
    }
  }

  // ------------------------------------------------------------------ replies

  lemma PeekIs(code: bytes, last: bool, t: bytes)
    requires |code| == 3
    ensures PeekDash(code + ([if last then SP else DASH] + t)).Ok? <==> !last
    ensures PeekDash(code + ([if last then SP else DASH] + t)).Error? <==> last
  {
    var s1 := [if last then SP else DASH] + t;
    assert (code + s1)[3..] == s1;
    assert [DASH] <= s1 <==> s1[0] == DASH;
    assert s1 != [];
  }

  /** A text put before those of a reply. */
  function Before(text: Text, r: Outcome<Reply>): Outcome<Reply> {
    match r
    case Ok(reply, rest) => Ok(reply.(text := [text] + reply.text), rest)
    case Error => Error
    case Incomplete => Incomplete
  }

  lemma LastAfter(line: Line, lines: seq<Line>, s: bytes)
    ensures ParseLast([line] + lines, s) == Before(line.text, ParseLast(lines, s))
  {
    var r := ParseLine(s);
    if r.Ok? { assert Texts([line] + lines) + [r.value.text] == [line.text] + (Texts(lines) + [r.value.text]); }
  }

  lemma LinesStep(s: bytes, line: Line, x: bytes)
    requires PeekDash(s).Ok? && ParseLine(s) == Ok(line, x) && |x| < |s|
    ensures ParseLines(s) ==
            match ParseLines(x) { case Ok(lines, rest) => Ok([line] + lines, rest) case Error => Error case Incomplete => Incomplete }
  { }

  lemma ReplyFromFirst(s: bytes, line: Line, x: bytes)
    requires PeekDash(s).Ok? && ParseLine(s) == Ok(line, x) && |x| < |s|
    ensures ParseReply(s) == Before(line.text, ParseReply(x))
  {
    LinesStep(s, line, x);
    var r := ParseLines(x);
    if r.Ok? { LastAfter(line, r.value, r.rest); }
  }

  lemma ReplyFromLast(s: bytes, line: Line, rest: bytes)
    requires PeekDash(s).Error? && ParseLine(s) == Ok(line, rest) && line.last
    ensures ParseReply(s) == Ok(Reply(line.code, line.ecode, [line.text]), rest)
  {
    assert Texts([]) + [line.text] == [line.text];
  }

  /** A line that is not the last one only adds its text. */
  lemma FirstLine(code: bytes, tail: bytes, x: bytes)
    requires IsCode(code) && Run(TEXT_UTF8, tail) == 1
    ensures ParseReply(PrintLine(code, false, tail) + x) == Before(ReadTail(tail).1, ParseReply(x))
  {
    CodeRun(code);
    LineAndRest(code, false, tail, x);
    PeekIs(code, false, tail + (CRLF + x));
    LineReads(code, false, tail, x);
    ReplyFromFirst(PrintLine(code, false, tail) + x, Line(code, false, ReadTail(tail).0, ReadTail(tail).1), x);
  }

  lemma LastLine(code: bytes, tail: bytes, rest: bytes)
    requires IsCode(code) && Run(TEXT_UTF8, tail) == 1
    ensures ParseReply(PrintLine(code, true, tail) + rest) == Ok(Reply(code, ReadTail(tail).0, [ReadTail(tail).1]), rest)
  {
    CodeRun(code);
    LineAndRest(code, true, tail, rest);
    PeekIs(code, true, tail + (CRLF + rest));
    LineReads(code, true, tail, rest);
    ReplyFromLast(PrintLine(code, true, tail) + rest, Line(code, true, ReadTail(tail).0, ReadTail(tail).1), rest);
  }

  /** How the printed lines of a reply are read, whatever their texts look like. */
  function ReadReply(code: bytes, tails: seq<bytes>): Reply
    requires tails != []
  {
    Reply(code, ReadTail(tails[|tails| - 1]).0, seq(|tails|, i requires 0 <= i < |tails| => ReadTail(tails[i]).1))
  }

  lemma ReadReplyCons(code: bytes, tails: seq<bytes>)
    requires |tails| > 1
    ensures ReadReply(code, tails) == ReadReply(code, tails[1..]).(text := [ReadTail(tails[0]).1] + ReadReply(code, tails[1..]).text)
  {
    var a, b := ReadReply(code, tails).text, [ReadTail(tails[0]).1] + ReadReply(code, tails[1..]).text;
    assert |a| == |b| && forall i :: 0 <= i < |a| ==> a[i] == b[i];
  }

  lemma {:induction false} LinesRead(code: bytes, tails: seq<bytes>, rest: bytes)
    requires IsCode(code) && tails != [] && forall i :: 0 <= i < |tails| ==> Run(TEXT_UTF8, tails[i]) == 1
    ensures ParseReply(PrintLines(code, tails) + rest) == Ok(ReadReply(code, tails), rest)
    decreases |tails|
  {
    if |tails| == 1 {
      LastLine(code, tails[0], rest);
      assert ReadReply(code, tails).text == [ReadTail(tails[0]).1];
    } else {
      var line, more := PrintLine(code, false, tails[0]), PrintLines(code, tails[1..]);
      assert (line + more) + rest == line + (more + rest);
      FirstLine(code, tails[0], more + rest);
      LinesRead(code, tails[1..], rest);
      ReadReplyCons(code, tails);
    }
  }

  /** A first part of the first line, when the parser sees no more than that. */
  lemma FirstLineCut(code: bytes, last: bool, tail: bytes, k: nat)
    requires IsCode(code) && Run(TEXT_UTF8, tail) == 1 && k < |PrintLine(code, last, tail)|
    ensures var p := PrintLine(code, last, tail)[..k]; ParseReply(p) == if Run(UTF8, p) == 1 then Incomplete else Error
  {
    CodeRun(code);
    LinePartial(code, last, tail, k);
    var p := PrintLine(code, last, tail)[..k];
    if k <= |code| {
      assert p == code[..k];
      AllAscii(p);
    } else {
      LineCut(code, last, tail, k);
      PeekIs(code, last, (tail + CRLF)[..k - |code| - 1]);
    }
  }

  /**
   Every proper first part of a printed reply: more is awaited, exactly when the part is
   itself valid UTF-8. Cut inside a character, it is taken for an error.
   */
  lemma {:induction false} LinesPartial(code: bytes, tails: seq<bytes>, k: nat)
    requires IsCode(code) && tails != [] && forall i :: 0 <= i < |tails| ==> Run(TEXT_UTF8, tails[i]) == 1
    requires k < |PrintLines(code, tails)|
    ensures var p := PrintLines(code, tails)[..k]; ParseReply(p) == if Run(UTF8, p) == 1 then Incomplete else Error
    decreases |tails|
  {
    var p := PrintLines(code, tails)[..k];
    var line := PrintLine(code, |tails| == 1, tails[0]);
    if k < |line| {
      assert p == line[..k];
      FirstLineCut(code, |tails| == 1, tails[0], k);
    } else {
      var x := PrintLines(code, tails[1..])[..k - |line|];
      assert p == line + x;
      FirstLine(code, tails[0], x);
      LinesPartial(code, tails[1..], k - |line|);
      LineIsWhole(code, tails[0]);
      RunFromBoundary(AnyByte, line, x);
    }
  }

  lemma LineIsWhole(code: bytes, tail: bytes)
    requires IsCode(code) && Run(TEXT_UTF8, tail) == 1
    ensures Run(UTF8, PrintLine(code, false, tail)) == 1
  {
    CodeRun(code);
    var head := code + [DASH];
    AfterAscii(head, tail + CRLF);
    ClassIsUtf8(TextByte, tail);
    RunFromBoundary(AnyByte, tail, CRLF);
    AllAscii(CRLF);
    assert PrintLine(code, false, tail) == head + (tail + CRLF);
  }

  // ------------------------------------------------------------------ main results

  predicate GoodText(t: Text) { Run(TEXT_UTF8, t.s) == 1 && t == TextOf(t.s) }

  /** A reply that can be printed: it has lines, and its parts are what they are said to be. */
  predicate Good(r: Reply) {
    && r.text != [] && IsCode(r.code) && (r.ecode.Some? ==> Accepts(ENHANCED_CODE, r.ecode.value))
    && forall i :: 0 <= i < |r.text| ==> GoodText(r.text[i])
  }

  /** A printed enhanced code is read back, whatever the text after it. */
  lemma EnhancedReads(e: bytes, t: bytes)
    requires Accepts(ENHANCED_CODE, e) && Run(TEXT_UTF8, t) == 1
    ensures Run(TEXT_UTF8, PrintTail(Some(e), t)) == 1 && ReadTail(PrintTail(Some(e), t)) == (Some(e), TextOf(t))
  {
    var s := PrintTail(Some(e), t);
    assert s == e + ([SP] + t);
    EnhancedWellFormed();
    MatchThenDead(ENHANCED_CODE, e, [SP] + t);
    assert Longest(ENHANCED_CODE, s) == Some(|e|) by { assert ApplyRegex(ENHANCED_CODE, s).value == e; }
    assert s[..|e|] == e && s[|e| + 1..] == t && s[|e|] == SP;
    EnhancedIsText(e);
    AfterSpace(s, |e|);
  }

  /** Text that reads as a code loses some of it. */
  lemma ReadableLoses(s: bytes)
    requires Readable(s)
    ensures ReadTail(s).0.Some? && |ReadTail(s).1.s| < |s|
  {
    LongestIsLongest(ENHANCED_CODE, s);
    assert s[..0] == [];
  }

  lemma TailOfGood(r: Reply, i: nat)
    requires Good(r) && i < |r.text|
    ensures Run(TEXT_UTF8, Tails(r)[i]) == 1
    ensures ReadTail(Tails(r)[i]) == (r.ecode, r.text[i]) <==> r.ecode.Some? || !Readable(r.text[i].s)
    ensures r.ecode.None? && Readable(r.text[i].s) ==> ReadTail(Tails(r)[i]).1 != r.text[i]
  {
    assert GoodText(r.text[i]);
    match r.ecode
    case Some(e) => EnhancedReads(e, r.text[i].s);
    case None =>
      assert [] + r.text[i].s == r.text[i].s;
      if Readable(r.text[i].s) { ReadableLoses(r.text[i].s); }
  }

  /**
   The round trip. A printed reply, whatever follows it, is read back with exactly that
   left over, if and only if it has an enhanced code or no line of it reads as having one.
   */
  lemma ReplyRoundTrip(r: Reply, rest: bytes)
    requires Good(r)
    ensures ParseReply(Print(r) + rest) == Ok(r, rest) <==>
            r.ecode.Some? || forall i :: 0 <= i < |r.text| ==> !Readable(r.text[i].s)
  {
    var tails := Tails(r);
    forall i | 0 <= i < |r.text| ensures Run(TEXT_UTF8, tails[i]) == 1 { TailOfGood(r, i); }
    LinesRead(r.code, tails, rest);
    var read := ReadReply(r.code, tails);
    if r.ecode.Some? || forall i :: 0 <= i < |r.text| ==> !Readable(r.text[i].s) {
      forall i | 0 <= i < |r.text| ensures ReadTail(tails[i]) == (r.ecode, r.text[i]) { TailOfGood(r, i); }
      assert read.text == r.text;
    } else {
      var i :| 0 <= i < |r.text| && Readable(r.text[i].s);
      TailOfGood(r, i);
      assert read.text[i] != r.text[i];
    }
  }

  /** What has come of a printed reply is awaited further, exactly when it is not cut inside a character. */
  lemma ReplyPrefix(r: Reply, k: nat)
    requires Good(r) && k < |Print(r)|
    ensures ParseReply(Print(r)[..k]) == if Accepts(UTF8, Print(r)[..k]) then Incomplete else Error
  {
    forall i | 0 <= i < |r.text| ensures Run(TEXT_UTF8, Tails(r)[i]) == 1 { TailOfGood(r, i); }
    LinesPartial(r.code, Tails(r), k);
  }

  predicate IsAscii(r: Reply) { forall i :: 0 <= i < |r.text| ==> r.text[i].Ascii? }

  lemma {:induction false} AsciiLines(code: bytes, tails: seq<bytes>)
    requires IsCode(code) && tails != [] && forall i :: 0 <= i < |tails| ==> forall j :: 0 <= j < |tails[i]| ==> tails[i][j] < 0x80
    ensures forall j :: 0 <= j < |PrintLines(code, tails)| ==> PrintLines(code, tails)[j] < 0x80
    decreases |tails|
  {
    CodeRun(code);
    if |tails| > 1 { AsciiLines(code, tails[1..]); }
  }

  lemma {:induction false} EnhancedIsAscii(s: bytes)
    requires Run(ENHANCED_CODE, s) != DEAD
    ensures forall j :: 0 <= j < |s| ==> s[j] < 0x80
    decreases |s|
  {
    if s != [] {
      EnhancedIsAscii(s[..|s| - 1]);
      assert forall j :: 0 <= j < |s| - 1 ==> s[j] == s[..|s| - 1][j];
    }
  }

  /** Every proper first part of a printed ASCII reply is awaited further. */
  lemma AsciiReplyPrefix(r: Reply, k: nat)
    requires Good(r) && IsAscii(r) && k < |Print(r)|
    ensures ParseReply(Print(r)[..k]) == Incomplete
  {
    if r.ecode.Some? { EnhancedIsAscii(r.ecode.value); }
    forall i, j | 0 <= i < |r.text| && 0 <= j < |Tails(r)[i]| ensures Tails(r)[i][j] < 0x80 {
      assert GoodText(r.text[i]);
      AsciiRun(TextByte, r.text[i].s);
    }
    AsciiLines(r.code, Tails(r));
    AllAscii(Print(r)[..k]);
    ReplyPrefix(r, k);
  }

  /** A character of two bytes. */
  const E_ACUTE: bytes := [0xC3, 0xA9]
  const OKAY: bytes := [50, 53, 48]
  const NON_ASCII: Reply := Reply(OKAY, None, [Text.Utf8(E_ACUTE)])

  lemma TwoByteCharacter()
    ensures Run(TEXT_UTF8, E_ACUTE[..1]) == 2 && GoodText(Text.Utf8(E_ACUTE)) && !Readable(E_ACUTE)
  {
    var s := E_ACUTE;
    assert s[..1][..0] == [] && Run(TEXT_UTF8, s[..1]) == 2;
    AsciiRun(TextByte, s);
    var r := Longest(ENHANCED_CODE, s);
    if r == Some(0) {
      LongestIsLongest(ENHANCED_CODE, s);
    } else if r.Some? {
      LongestIsLongest(ENHANCED_CODE, s);
      EnhancedIsAscii(s[..r.value]);
    }
  }

  lemma NonAsciiIsGood()
    ensures Good(NON_ASCII) && Print(NON_ASCII)[..5] == (OKAY + [SP]) + E_ACUTE[..1]
  {
    TwoByteCharacter();
    var code := OKAY;
    assert code[..2] == [50, 53] && code[..2][..1] == [50] && [50 as byte][..0] == [];
    assert Run(REPLY_CODE, [50]) == 2;
    assert Run(REPLY_CODE, [50, 53]) == 3;
  }

  /** A reply that is not ASCII can be cut so that it is taken for an error, though the whole of it is not. */
  lemma CutReplyIsError()
    ensures Good(NON_ASCII) && ParseReply(Print(NON_ASCII)[..5]) == Error && ParseReply(Print(NON_ASCII) + []) == Ok(NON_ASCII, [])
  {
    NonAsciiIsGood();
    TwoByteCharacter();
    ReplyRoundTrip(NON_ASCII, []);
    CutIsNotUtf8();
    ReplyPrefix(NON_ASCII, 5);
  }

  lemma CutIsNotUtf8()
    ensures !Accepts(UTF8, (OKAY + [SP]) + E_ACUTE[..1])
  {
    TwoByteCharacter();
    AfterAscii(OKAY + [SP], E_ACUTE[..1]);
    ClassIsUtf8(TextByte, E_ACUTE[..1]);
  }

  // ------------------------------------------------------------------ what the parser leaves

  lemma TextConsumes(s: bytes)
    ensures ParseText(s).Ok? ==> |ParseText(s).rest| <= |s|
  { }

  lemma TailConsumes(s: bytes)
    ensures ParseTail(s).Ok? ==> |ParseTail(s).rest| <= |s|
  {
    var r := Opt(ParseEnhanced(s), s);
    if r.Ok? { TextConsumes(r.rest); }
  }

  lemma SeparatorConsumes(s: bytes)
    ensures ParseSeparator(s).Ok? ==> |ParseSeparator(s).rest| <= |s|
  { }

  lemma AfterSeparatorConsumes(code: bytes, s: bytes)
    ensures var r := ParseSeparator(s);
            r.Ok? ==> (var l := OfTail(code, r.value, ParseTail(r.rest)); l.Ok? ==> |l.rest| <= |s|)
  {
    SeparatorConsumes(s);
    var r := ParseSeparator(s);
    if r.Ok? { TailConsumes(r.rest); }
  }

  lemma LineConsumes(s: bytes)
    ensures ParseLine(s).Ok? ==> |ParseLine(s).rest| <= |s|
  {
    var code := ApplyRegex(REPLY_CODE, s);
    if code.Ok? { AfterSeparatorConsumes(code.value, code.rest); }
  }

  lemma {:induction false} LinesConsume(s: bytes)
    ensures ParseLines(s).Ok? ==> |ParseLines(s).rest| <= |s|
    decreases |s|
  {
    if PeekDash(s).Ok? && ParseLine(s).Ok? && |ParseLine(s).rest| < |s| { LinesConsume(ParseLine(s).rest); }
  }

  lemma ReplyConsumes()
    ensures Consumes(ParseReply)
  {
    forall s | ParseReply(s).Ok? ensures |ParseReply(s).rest| <= |s| {
      LinesConsume(s);
      LineConsumes(ParseLines(s).rest);
    }
  }
}
