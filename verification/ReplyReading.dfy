/** Every text that is read as a reply consists of the lines of that reply. */
module ReplyReading {
  import opened Automata
  import opened Bytes
  import opened Combinators
  import opened Commands
  import opened Expressions
  import opened Framing
  import opened ReplySyntax

  /** What a line may have between its code and the rest, and between its enhanced code and its text. */
  datatype Marks = Marks(after: bytes, gap: bytes)

  predicate Sound(line: Line, m: Marks) {
    && IsCode(line.code) && (if line.last then m.after == [32] || m.after == [] else m.after == [45])
    && (match line.ecode
        case Some(e) => Accepts(ENHANCED_CODE, e) && (m.gap == [32] || (m.gap == [] && line.text.s == []))
        case None => m.gap == [])
    && Accepts(if line.text.Ascii? then TEXT_ASCII else TEXT_UTF8, line.text.s)
  }

  function WriteEnhanced(e: Option<bytes>, m: Marks): bytes { if e.Some? then e.value + m.gap else [] }

  function WriteLine(line: Line, m: Marks): bytes {
    line.code + (m.after + (WriteEnhanced(line.ecode, m) + (line.text.s + [13, 10])))
  }

  function WriteLines(lines: seq<Line>, ms: seq<Marks>): bytes
    requires |lines| == |ms|
  {
    if lines == [] then [] else WriteLine(lines[0], ms[0]) + WriteLines(lines[1..], ms[1..])
  }

  // ------------------------------------------------------------------ one line

  lemma RegexTook(d: Dfa, s: bytes)
    requires ApplyRegex(d, s).Ok?
    ensures Took(s, ApplyRegex(d, s), ApplyRegex(d, s).value) && Accepts(d, ApplyRegex(d, s).value)
  {
    LongestIsLongest(d, s);
  }

  lemma UpToCrLfTook(d: Dfa, s: bytes)
    requires ParseUpToCrLf(d, s).Ok?
    ensures Took(s, ParseUpToCrLf(d, s), ParseUpToCrLf(d, s).value + [13, 10]) && Accepts(d, ParseUpToCrLf(d, s).value)
  {
    RegexTook(d, s);
    var a := ApplyRegex(d, s);
    TagTook(CRLF, a.rest);
    Then(s, a.value, a.rest, CRLF, Tag(CRLF, a.rest).rest);
  }

  lemma TextTook(s: bytes)
    requires ParseText(s).Ok?
    ensures var t := ParseText(s).value;
            Took(s, ParseText(s), t.s + [13, 10]) && Accepts(if t.Ascii? then TEXT_ASCII else TEXT_UTF8, t.s)
  {
    if ParseUpToCrLf(TEXT_ASCII, s).Ok? { UpToCrLfTook(TEXT_ASCII, s); } else { UpToCrLfTook(TEXT_UTF8, s); }
  }

  /** A text has no CR: one before the end of the line is empty. */
  lemma NoText(t: Text, s: bytes, rest: bytes)
    requires Accepts(if t.Ascii? then TEXT_ASCII else TEXT_UTF8, t.s) && s == (t.s + [13, 10]) + rest && CRLF <= s
    ensures t.s == []
  {
    assert t.s != [] ==> s[0] == t.s[0];
    TextIs(t.s);
    Utf8ClassesAre(t.s);
  }

  lemma EnhancedTook(s: bytes) returns (gap: bytes)
    requires ParseEnhanced(s).Ok?
    ensures (gap == [32] || (gap == [] && CRLF <= ParseEnhanced(s).rest))
    ensures Took(s, ParseEnhanced(s), ParseEnhanced(s).value + gap) && Accepts(ENHANCED_CODE, ParseEnhanced(s).value)
  {
    RegexTook(ENHANCED_CODE, s);
    var a := ApplyRegex(ENHANCED_CODE, s);
    gap := if Tag([SP], a.rest).Ok? then [32] else [];
    if gap == [32] { TagTook([SP], a.rest); } else { assert a.rest == [] + a.rest; }
    Then(s, a.value, a.rest, gap, ParseEnhanced(s).rest);
  }

  lemma TailTook(s: bytes) returns (gap: bytes)
    requires ParseTail(s).Ok?
    ensures var (e, t) := ParseTail(s).value; var w := WriteEnhanced(e, Marks([], gap));
            && Took(s, ParseTail(s), w + (t.s + [13, 10])) && Accepts(if t.Ascii? then TEXT_ASCII else TEXT_UTF8, t.s)
            && (if e.Some? then Accepts(ENHANCED_CODE, e.value) && (gap == [32] || (gap == [] && t.s == [])) else gap == [])
  {
    var e := ParseEnhanced(s);
    var s1 := Opt(e, s).rest;
    TextTook(s1);
    var t := ParseText(s1);
    if e.Ok? {
      gap := EnhancedTook(s);
      Then(s, e.value + gap, s1, t.value.s + [13, 10], t.rest);
      if gap == [] { NoText(t.value, s1, t.rest); }
    } else {
      gap := [];
      assert [] + (t.value.s + [13, 10]) == t.value.s + [13, 10];
    }
  }

  lemma SeparatorTook(s: bytes) returns (after: bytes)
    requires ParseSeparator(s).Ok?
    ensures Took(s, ParseSeparator(s), after)
    ensures if ParseSeparator(s).value then after == [32] || after == [] else after == [45]
  {
    if Tag([DASH], s).Ok? {
      TagTook([DASH], s);
      after := [45];
    } else if Tag([SP], s).Ok? {
      TagTook([SP], s);
      after := [32];
    } else {
      after := [];
    }
  }

  lemma LineTook(s: bytes) returns (m: Marks)
    requires ParseLine(s).Ok?
    ensures Sound(ParseLine(s).value, m) && Took(s, ParseLine(s), WriteLine(ParseLine(s).value, m))
  {
    RegexTook(REPLY_CODE, s);
    var c := ApplyRegex(REPLY_CODE, s);
    var after := SeparatorTook(c.rest);
    var b := ParseSeparator(c.rest);
    var gap := TailTook(b.rest);
    var t := ParseTail(b.rest);
    m := Marks(after, gap);
    var w := WriteEnhanced(t.value.0, m) + (t.value.1.s + [13, 10]);
    Then(c.rest, after, b.rest, w, t.rest);
    Then(s, c.value, c.rest, after + w, t.rest);
  }

  // ------------------------------------------------------------------ all lines

  predicate AllSound(lines: seq<Line>, ms: seq<Marks>) {
    |lines| == |ms| && forall i :: 0 <= i < |lines| ==> Sound(lines[i], ms[i])
  }

  /** Before a dash, a line is not the last. */
  lemma DashIsNotLast(s: bytes)
    requires PeekDash(s).Ok? && ParseLine(s).Ok?
    ensures !ParseLine(s).value.last
  {
    RegexTook(REPLY_CODE, s);
    var c := ApplyRegex(REPLY_CODE, s).value;
    CodeRun(c);
    assert |c| == 3 && Tag([DASH], s[3..]).Ok?;
  }

  lemma {:induction false} LinesTook(s: bytes) returns (ms: seq<Marks>)
    requires ParseLines(s).Ok?
    ensures var a := ParseLines(s); AllSound(a.value, ms) && Took(s, a, WriteLines(a.value, ms)) && forall i :: 0 <= i < |a.value| ==> !a.value[i].last
    decreases |s|
  {
    ms := [];
    if PeekDash(s).Ok? && ParseLine(s).Ok? {
      var a := ParseLine(s);
      var m := LineTook(s);
      DashIsNotLast(s);
      var more := LinesTook(a.rest);
      var b := ParseLines(a.rest);
      ms := [m] + more;
      Then(s, WriteLine(a.value, m), a.rest, WriteLines(b.value, more), b.rest);
      assert ([a.value] + b.value)[1..] == b.value && ms[1..] == more;
    }
  }

  lemma {:induction false} OneMore(lines: seq<Line>, ms: seq<Marks>, last: Line, m: Marks)
    requires |lines| == |ms|
    ensures WriteLines(lines + [last], ms + [m]) == WriteLines(lines, ms) + WriteLine(last, m)
    decreases |lines|
  {
    if lines == [] {
      assert lines + [last] == [last] && ms + [m] == [m] && WriteLines([], []) == [];
    } else {
      assert (lines + [last])[1..] == lines[1..] + [last] && (ms + [m])[1..] == ms[1..] + [m];
      OneMore(lines[1..], ms[1..], last, m);
    }
  }

  lemma ReplyIs(s: bytes)
    requires ParseReply(s).Ok?
    ensures var a := ParseLines(s); a.Ok? && var b := ParseLine(a.rest);
            && b.Ok? && b.value.last
            && ParseReply(s) == Ok(Reply(b.value.code, b.value.ecode, Texts(a.value + [b.value])), b.rest)
  {
    var a := ParseLines(s);
    var b := ParseLine(a.rest);
    assert Texts(a.value + [b.value]) == Texts(a.value) + [b.value.text];
  }

  /**
   A text that is read as a reply consists of lines, all but the last with a dash; the
   reply has the texts of all and the codes of the last.
   */
  lemma ReplyApart(s: bytes) returns (lines: seq<Line>, ms: seq<Marks>)
    requires ParseReply(s).Ok?
    ensures lines != [] && AllSound(lines, ms) && Took(s, ParseReply(s), WriteLines(lines, ms))
    ensures forall i :: 0 <= i < |lines| ==> (lines[i].last <==> i == |lines| - 1)
    ensures var last := lines[|lines| - 1]; ParseReply(s).value == Reply(last.code, last.ecode, Texts(lines))
  {
    ReplyIs(s);
    var a := ParseLines(s);
    var more := LinesTook(s);
    var b := ParseLine(a.rest);
    var m := LineTook(a.rest);
    lines, ms := a.value + [b.value], more + [m];
    OneMore(a.value, more, b.value, m);
    Then(s, WriteLines(a.value, more), a.rest, WriteLine(b.value, m), b.rest);
  }
}
