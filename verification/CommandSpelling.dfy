/**
 How commands are written, in any case and with any blanks: the lines that the parser
 takes for a command are just those, and the printer writes one of them.
 */
module CommandSpelling {
  import opened AddressSyntax
  import opened Automata
  import opened Bytes
  import opened Combinators
  import opened Commands
  import opened CommandSyntax
  import opened Framing
  import opened Utf8

  // ------------------------------------------------------------------ spellings

  /** What a command line begins with. */
  function Verb(c: Command): string {
    match c
    case Data => "DATA" case Ehlo(_) => "EHLO" case Expn(_) => "EXPN" case Helo(_) => "HELO" case Help(_) => "HELP"
    case Lhlo(_) => "LHLO" case Mail(_, _, _) => "MAIL FROM:" case Noop(_) => "NOOP" case Quit => "QUIT"
    case Rcpt(_, _, _) => "RCPT TO:" case Rset => "RSET" case Starttls => "STARTTLS" case Vrfy(_) => "VRFY"
  }

  /** The letters of `verb`, large or small. */
  predicate Spelled(w: bytes, verb: string) {
    |w| == |verb| && forall i :: 0 <= i < |w| ==>
      Chr(w[i]) == verb[i] || ('A' <= verb[i] <= 'Z' && Chr(w[i]) == (verb[i] as int + 32) as char)
  }

  predicate AreBlank(s: bytes) { forall i :: 0 <= i < |s| ==> Chr(s[i]) in " \t" }

  /** The choices of a writer: the letters of the verb, the blanks after it, before each parameter and at the end, and brackets. */
  datatype Style = Style(verb: bytes, lead: bytes, bracketed: bool, gaps: seq<bytes>, trail: bytes)

  function ParametersOf(c: Command): seq<Parameter> {
    match c { case Mail(_, _, params) => params case Rcpt(_, _, params) => params case _ => [] }
  }

  /** The choices that there are for a command. */
  predicate Allowed(c: Command, y: Style) {
    && Spelled(y.verb, Verb(c)) && AreBlank(y.lead) && AreBlank(y.trail)
    && |y.gaps| == |ParametersOf(c)| && (forall i :: 0 <= i < |y.gaps| ==> y.gaps[i] != [] && AreBlank(y.gaps[i]))
    && match c
       case Ehlo(_) => y.lead != []
       case Helo(_) => y.lead != []
       case Lhlo(_) => y.lead != []
       case Expn(_) => |y.lead| == 1 && y.trail == []
       case Vrfy(_) => |y.lead| == 1 && y.trail == []
       case Help(w) => y.trail == [] && (|y.lead| == 1 || (y.lead == [] && w.s == []))
       case Noop(w) => y.trail == [] && (|y.lead| == 1 || (y.lead == [] && w.s == []))
       case Mail(_, from, _) => from.None? ==> y.bracketed
       case Rcpt(_, _, _) => true
       case _ => y.lead == []
  }

  function WriteValue(v: Option<Text>): bytes {
    match v { case Some(t) => [61] + t.s case None => [] }
  }

  function WriteParameters(gaps: seq<bytes>, ps: seq<Parameter>): bytes
    requires |gaps| == |ps|
  {
    if ps == [] then [] else (gaps[0] + (ps[0].name + WriteValue(ps[0].value))) + WriteParameters(gaps[1..], ps[1..])
  }

  function WriteAddress(bracketed: bool, a: bytes): bytes {
    if bracketed then [60] + (a + [62]) else a
  }

  /** The route and the sender, if there is one. */
  function Sender(path: Option<Path>, from: Option<Email>): bytes {
    match from { case Some(e) => PrintRoutedEmail(path, e) case None => [] }
  }

  function WriteArguments(c: Command, y: Style): bytes
    requires |y.gaps| == |ParametersOf(c)|
  {
    match c
    case Ehlo(h) => h.raw
    case Helo(h) => h.raw
    case Lhlo(h) => h.raw
    case Expn(w) => w.s
    case Help(w) => w.s
    case Noop(w) => w.s
    case Vrfy(w) => w.s
    case Mail(path, from, ps) => WriteAddress(y.bracketed, Sender(path, from)) + WriteParameters(y.gaps, ps)
    case Rcpt(path, to, ps) => WriteAddress(y.bracketed, PrintRoutedEmail(path, to)) + WriteParameters(y.gaps, ps)
    case _ => []
  }

  /** The line of a command. */
  function Write(c: Command, y: Style): bytes
    requires |y.gaps| == |ParametersOf(c)|
  {
    y.verb + (y.lead + (WriteArguments(c, y) + (y.trail + [13, 10])))
  }

  // ------------------------------------------------------------------ verbs

  lemma UpperIs(b: byte, k: byte)
    requires 32 <= k <= 90
    ensures ToUpper(b) == ToUpper(k) <==> Chr(b) == Chr(k) || ('A' <= Chr(k) <= 'Z' && Chr(b) == (Chr(k) as int + 32) as char)
  { }

  lemma VerbIsKeyword(c: Command)
    ensures |Verb(c)| == |Keyword(Index(c))|
    ensures forall i :: 0 <= i < |Verb(c)| ==> Verb(c)[i] == Chr(Keyword(Index(c))[i]) && 32 <= Keyword(Index(c))[i] <= 90
  { }

  /** Any spelling of its verb is the keyword of a command to the parser, and nothing else is. */
  lemma SpelledIs(c: Command, w: bytes)
    ensures Spelled(w, Verb(c)) <==> |w| == |Keyword(Index(c))| && MatchesNoCase(Keyword(Index(c)), w)
  {
    var k := Keyword(Index(c));
    VerbIsKeyword(c);
    if |w| == |k| {
      forall i | 0 <= i < |w|
        ensures ToUpper(w[i]) == ToUpper(k[i]) <==>
                Chr(w[i]) == Verb(c)[i] || ('A' <= Verb(c)[i] <= 'Z' && Chr(w[i]) == (Verb(c)[i] as int + 32) as char)
      {
        UpperIs(w[i], k[i]);
      }
    }
  }

  /** Where keywords `i` and `j` differ. */
  function Difference(i: nat, j: nat): nat
    requires i < 13 && j < 13
  {
    if Keyword(i)[0] != Keyword(j)[0] then 0 else if Keyword(i)[1] != Keyword(j)[1] then 1 else 3
  }

  lemma KeywordsDiffer(i: nat, j: nat)
    requires j < i < 13
    ensures var d := Difference(i, j); d < |Keyword(i)| && d < |Keyword(j)| && ToUpper(Keyword(i)[d]) != ToUpper(Keyword(j)[d])
  { }

  /** The line begins with keyword `i`, in any case. */
  predicate Begins(i: nat, s: bytes)
    requires i < 13
  {
    |Keyword(i)| <= |s| && MatchesNoCase(Keyword(i), s)
  }

  /** No keyword is taken for another. */
  lemma OtherKeyword(i: nat, j: nat, s: bytes)
    requires j < i < 13 && Begins(i, s)
    ensures !MatchesNoCase(Keyword(j), s)
  {
    KeywordsDiffer(i, j);
    assert ToUpper(s[Difference(i, j)]) == ToUpper(Keyword(i)[Difference(i, j)]);
  }

  lemma OtherFails(f: Foreign, j: nat, s: bytes)
    requires j < 13 && !MatchesNoCase(Keyword(j), s)
    ensures ParseFrom(f, j, s) == ParseFrom(f, j + 1, s)
  { }

  lemma {:induction false} OthersFail(f: Foreign, i: nat, j: nat, s: bytes)
    requires j <= i < 13 && Begins(i, s)
    ensures ParseCommand(f, s) == ParseFrom(f, j, s)
  {
    if j > 0 {
      OthersFail(f, i, j - 1, s);
      OtherKeyword(i, j - 1, s);
      OtherFails(f, j - 1, s);
    }
  }

  lemma LastAlternative(f: Foreign, i: nat, s: bytes, c: Command, rest: bytes)
    requires i < 13 && Begins(i, s) && ParseAfter(f, i, s[|Keyword(i)|..]) == Ok(c, rest)
    ensures ParseFrom(f, i, s) == Ok(c, rest)
  { }

  // ------------------------------------------------------------------ blanks and ends

  lemma BlankBytes(s: bytes)
    ensures AreBlank(s) <==> forall i :: 0 <= i < |s| ==> s[i] in BLANKS
  { }

  lemma {:induction false} LeadingIs(bs: set<byte>, a: bytes, s: bytes)
    requires (forall i :: 0 <= i < |a| ==> a[i] in bs) && s != [] && s[0] !in bs
    ensures Leading(bs, a + s) == |a|
  {
    if a == [] {
      assert a + s == s;
    } else {
      LeadingIs(bs, a[1..], s);
      assert (a + s)[1..] == a[1..] + s;
    }
  }

  lemma BlanksRead(blanks: bytes, s: bytes)
    requires AreBlank(blanks) && s != [] && s[0] !in BLANKS
    ensures IsA(BLANKS, blanks + s) == if blanks == [] then Error else Ok(blanks, s)
    ensures Opt(IsA(BLANKS, blanks + s), blanks + s) == Ok(if blanks == [] then None else Some(blanks), s)
  {
    BlankBytes(blanks);
    LeadingIs(BLANKS, blanks, s);
    assert (blanks + s)[..|blanks|] == blanks && (blanks + s)[|blanks|..] == s;
  }

  lemma EndReads(trail: bytes, rest: bytes)
    requires AreBlank(trail)
    ensures ParseEnd(trail + (CRLF + rest)) == Ok(CRLF, rest)
  {
    BlanksRead(trail, CRLF + rest);
    assert (CRLF + rest)[|CRLF|..] == rest;
  }

  /** What follows a word on a line: blanks, or its end. */
  predicate EndsWord(s: bytes) { s != [] && s[0] in WORD_END }

  lemma TrailEnds(trail: bytes, rest: bytes)
    requires AreBlank(trail)
    ensures EndsWord(trail + (CRLF + rest))
  { }

  lemma WordEndDelimits()
    ensures Delimits(WORD_END) && DelimitsHosts(WORD_END) && AT !in WORD_END
  { }

  lemma NamesWellFormed()
    ensures WellFormed(PARAMETER_NAME) && WellFormed(VALUE_ASCII)
  { }

  // ------------------------------------------------------------------ parameters read

  lemma ValueEnds(q: nat, b: byte)
    requires b in WORD_END
    ensures VALUE_ASCII.next(q, b) == DEAD && VALUE_UTF8.next(1, b) == DEAD
  {
    assert !ValueByte(b) && NextUtf8(ValueByte, 1, b) == DEAD;
  }

  lemma AsciiValueReads(v: bytes, rest: bytes)
    requires Accepts(VALUE_ASCII, v) && EndsWord(rest)
    ensures ParseValue(v + rest) == Ok(Ascii(v), rest)
  {
    NamesWellFormed();
    ValueEnds(Run(VALUE_ASCII, v), rest[0]);
    UntilReads(VALUE_ASCII, WORD_END, v, rest);
  }

  lemma Utf8ValueReads(v: bytes, rest: bytes)
    requires Accepts(VALUE_UTF8, v) && !Accepts(VALUE_ASCII, v) && EndsWord(rest)
    ensures ParseValue(v + rest) == Ok(Text.Utf8(v), rest)
  {
    NamesWellFormed();
    Utf8PlusWellFormed(ValueByte);
    Utf8PlusBytes(ValueByte, v);
    ValueEnds(Run(VALUE_ASCII, v), rest[0]);
    UntilFails(VALUE_ASCII, WORD_END, v, rest);
    UntilReads(VALUE_UTF8, WORD_END, v, rest);
  }

  lemma ValueReads(v: Text, rest: bytes)
    requires GoodValue(v) && EndsWord(rest)
    ensures ParseEqualsValue([EQUALS] + (v.s + rest)) == Ok(v, rest)
  {
    if v.Ascii? { AsciiValueReads(v.s, rest); } else { Utf8ValueReads(v.s, rest); }
    assert ([EQUALS] + (v.s + rest))[1..] == v.s + rest;
  }

  /** What follows a name: its value, the next parameter, or the end. */
  lemma NameReads(name: bytes, s: bytes)
    requires Accepts(PARAMETER_NAME, name) && s != [] && (s[0] == EQUALS || EndsWord(s))
    ensures ApplyRegex(PARAMETER_NAME, name + s) == Ok(name, s) && name != [] && name[0] !in BLANKS
  {
    NamesWellFormed();
    MatchThenDead(PARAMETER_NAME, name, s);
    if name != [] && !Alnum(name[0]) {
      assert name[..1][..0] == [] && name[..|name|] == name;
      DeadEnds(PARAMETER_NAME, name, 1, |name|);
    }
  }

  lemma NamedReads(p: Parameter, rest: bytes)
    requires GoodParameter(p) && EndsWord(rest)
    ensures ParseNamed(p.name + (WriteValue(p.value) + rest)) == Ok(p, rest)
  {
    var s := WriteValue(p.value) + rest;
    match p.value
    case Some(v) =>
      Regroup([EQUALS], v.s, rest);
      ValueReads(v, rest);
      NameReads(p.name, s);
    case None =>
      assert s == rest;
      NameReads(p.name, s);
  }

  lemma ParameterReads(gap: bytes, p: Parameter, rest: bytes)
    requires gap != [] && AreBlank(gap) && GoodParameter(p) && EndsWord(rest)
    ensures ParseParameter((gap + (p.name + WriteValue(p.value))) + rest) == Ok(p, rest)
  {
    var s := p.name + (WriteValue(p.value) + rest);
    NamedReads(p, rest);
    NameStarts(p.name);
    assert (gap + (p.name + WriteValue(p.value))) + rest == gap + s;
    BlanksRead(gap, s);
  }

  lemma NameStarts(name: bytes)
    requires Accepts(PARAMETER_NAME, name)
    ensures name != [] && name[0] !in BLANKS
  {
    NameReads(name, CRLF);
  }

  lemma ParametersStep(s: bytes, p: Parameter, s1: bytes, ps: seq<Parameter>, rest: bytes)
    requires ParseParameter(s) == Ok(p, s1) && |s1| < |s| && ParseParameters(s1) == Ok(ps, rest)
    ensures ParseParameters(s) == Ok([p] + ps, rest)
  { }

  /** No parameter comes next. */
  predicate NoParameter(s: bytes) { EndsWord(s) && ParseParameter(s).Error? }

  lemma EndIsNoParameter(trail: bytes, rest: bytes)
    requires AreBlank(trail)
    ensures NoParameter(trail + (CRLF + rest))
  {
    BlanksRead(trail, CRLF + rest);
    TrailEnds(trail, rest);
    NamesWellFormed();
    if trail != [] { NoName(CRLF + rest); }
  }

  lemma NoName(s: bytes)
    requires s != [] && s[0] == CR
    ensures ParseNamed(s) == Error
  {
    NamesWellFormed();
    assert s[..0] == [] && s[..1][..0] == [] && s[..|s|] == s;
    forall k: nat | k <= |s| ensures !Accepts(PARAMETER_NAME, s[..k]) {
      if k > 0 { DeadEnds(PARAMETER_NAME, s, 1, k); }
    }
    DeadEnds(PARAMETER_NAME, s, 1, |s|);
    LongestNone(PARAMETER_NAME, s);
  }

  lemma WrittenParameters(gaps: seq<bytes>, ps: seq<Parameter>, rest: bytes)
    requires |gaps| == |ps| > 0
    ensures WriteParameters(gaps, ps) + rest ==
            (gaps[0] + (ps[0].name + WriteValue(ps[0].value))) + (WriteParameters(gaps[1..], ps[1..]) + rest)
    ensures [ps[0]] + ps[1..] == ps
  {
    Regroup(gaps[0] + (ps[0].name + WriteValue(ps[0].value)), WriteParameters(gaps[1..], ps[1..]), rest);
  }

  predicate AreGaps(gaps: seq<bytes>) { forall i :: 0 <= i < |gaps| ==> gaps[i] != [] && AreBlank(gaps[i]) }

  lemma WrittenEndsWord(gaps: seq<bytes>, ps: seq<Parameter>, rest: bytes)
    requires |gaps| == |ps| && AreGaps(gaps) && EndsWord(rest)
    ensures EndsWord(WriteParameters(gaps, ps) + rest)
  {
    if ps == [] { assert WriteParameters(gaps, ps) + rest == rest; } else { assert Chr(gaps[0][0]) in " \t"; }
  }

  /** Any parameters, after any blanks, are read. */
  lemma {:induction false} ParametersRead(gaps: seq<bytes>, ps: seq<Parameter>, rest: bytes)
    requires |gaps| == |ps| && AreGaps(gaps) && (forall i :: 0 <= i < |ps| ==> GoodParameter(ps[i])) && NoParameter(rest)
    ensures ParseParameters(WriteParameters(gaps, ps) + rest) == Ok(ps, rest)
    decreases |ps|
  {
    if ps == [] {
      assert WriteParameters(gaps, ps) + rest == rest;
    } else {
      var more := WriteParameters(gaps[1..], ps[1..]) + rest;
      ParametersRead(gaps[1..], ps[1..], rest);
      WrittenEndsWord(gaps[1..], ps[1..], rest);
      ParameterReads(gaps[0], ps[0], more);
      WrittenParameters(gaps, ps, rest);
      ParametersStep(WriteParameters(gaps, ps) + rest, ps[0], more, ps[1..], rest);
    }
  }

  lemma OptionsRead(gaps: seq<bytes>, ps: seq<Parameter>, trail: bytes, rest: bytes)
    requires |gaps| == |ps| && AreGaps(gaps) && (forall i :: 0 <= i < |ps| ==> GoodParameter(ps[i])) && AreBlank(trail)
    ensures ParseOptions(WriteParameters(gaps, ps) + (trail + (CRLF + rest))) == Ok(ps, rest)
  {
    EndIsNoParameter(trail, rest);
    ParametersRead(gaps, ps, trail + (CRLF + rest));
    EndReads(trail, rest);
  }

  // ------------------------------------------------------------------ arguments read

  lemma HostReads(f: Foreign, h: Hostname, lead: bytes, trail: bytes, rest: bytes)
    requires GoodHostname(f, h) && lead != [] && AreBlank(lead) && AreBlank(trail)
    ensures ParseHost(f, lead + (h.raw + (trail + (CRLF + rest)))) == Ok(h, rest)
  {
    var end := trail + (CRLF + rest);
    HostStart(f, h);
    BlanksRead(lead, h.raw + end);
    WordEndDelimits();
    TrailEnds(trail, rest);
    HostnameReads(f, WORD_END, h, end);
    EndReads(trail, rest);
  }

  lemma HostStart(f: Foreign, h: Hostname)
    requires GoodHostname(f, h)
    ensures h.raw != [] && h.raw[0] !in BLANKS
  {
    AddressesWellFormed();
    if h.Utf8Domain? {
      Utf8PlusBytes(HostByte, h.raw);
    } else if h.raw != [] && h.raw[0] in BLANKS {
      assert h.raw[..1][..0] == [] && h.raw[..|h.raw|] == h.raw;
      DeadEnds(HOSTNAME_ASCII, h.raw, 1, |h.raw|);
    }
  }

  lemma LineReads(w: bytes, rest: bytes)
    requires LineEnd(w).None?
    ensures ParseLine(w + (CRLF + rest)) == Ok(w, rest)
  {
    var s := w + (CRLF + rest);
    LineEndIsFirst(w);
    forall j | j < |w| ensures !CrLfAt(s, j) { assert !CrLfAt(w, j); }
    LineEndAt(s, |w|);
    assert s[..|w|] == w && s[|w|..] == CRLF + rest && (CRLF + rest)[|CRLF|..] == rest;
  }

  lemma WordReads(blank: bytes, w: Text, rest: bytes)
    requires GoodWord(w) && |blank| == 1 && AreBlank(blank)
    ensures ParseWord(blank + (w.s + (CRLF + rest))) == Ok(w.s, rest)
  {
    LineReads(w.s, rest);
    assert (blank + (w.s + (CRLF + rest)))[1..] == w.s + (CRLF + rest);
    assert Chr(blank[0]) in " \t";
  }

  lemma OptionalWordReads(blank: bytes, w: Text, rest: bytes)
    requires GoodWord(w) && AreBlank(blank) && (|blank| == 1 || (blank == [] && w.s == []))
    ensures ParseOptionalWord(blank + (w.s + (CRLF + rest))) == Ok(w.s, rest)
  {
    if |blank| == 1 {
      WordReads(blank, w, rest);
    } else {
      assert blank + (w.s + (CRLF + rest)) == CRLF + rest && (CRLF + rest)[|CRLF|..] == rest;
    }
  }

  lemma WithGoodWord(i: nat, w: Text, rest: bytes)
    requires GoodWord(w)
    ensures WithWord(i, Ok(w.s, rest)) == Ok(if i == 2 then Expn(w) else if i == 4 then Help(w) else if i == 7 then Noop(w) else Vrfy(w), rest)
  { }

  lemma PlainStart(f: Foreign, path: Option<Path>, e: Email)
    requires GoodEmail(f, e) && (path.Some? ==> GoodPath(f, path.value))
    ensures var a := PrintRoutedEmail(path, e); a != [] && a[0] != LT && a[0] != GT && a[0] !in BLANKS
  {
    LocalpartStart(e.localpart);
  }

  lemma AddressReads(f: Foreign, bracketed: bool, path: Option<Path>, e: Email, rest: bytes)
    requires GoodEmail(f, e) && (path.Some? ==> GoodPath(f, path.value)) && EndsWord(rest)
    ensures ParseEmailWithPath(f, WORD_END, WriteAddress(bracketed, PrintRoutedEmail(path, e)) + rest) == Ok((path, e), rest)
  {
    var a := PrintRoutedEmail(path, e);
    WordEndDelimits();
    if bracketed {
      assert WriteAddress(true, a) + rest == [LT] + (a + ([GT] + rest));
      BracketedReads(f, WORD_END, path, e, rest);
    } else {
      PlainStart(f, path, e);
      RoutedEmailReads(f, WORD_END, path, e, rest);
    }
  }

  lemma NoSenderReads(f: Foreign, rest: bytes)
    ensures ParseSender(f, [LT, GT] + rest) == Ok((None, None), rest)
  {
    assert ([LT, GT] + rest)[2..] == rest;
  }

  lemma SomeSender(f: Foreign, s: bytes, path: Option<Path>, e: Email, rest: bytes)
    requires |s| >= 2 && (s[0] != LT || s[1] != GT) && ParseEmailWithPath(f, WORD_END, s) == Ok((path, e), rest)
    ensures ParseSender(f, s) == Ok((path, Some(e)), rest)
  { }

  lemma SenderReads(f: Foreign, bracketed: bool, path: Option<Path>, from: Option<Email>, rest: bytes)
    requires if from.Some? then GoodEmail(f, from.value) && (path.Some? ==> GoodPath(f, path.value)) else path.None? && bracketed
    requires EndsWord(rest)
    ensures ParseSender(f, WriteAddress(bracketed, Sender(path, from)) + rest) == Ok((path, from), rest)
  {
    var s := WriteAddress(bracketed, Sender(path, from)) + rest;
    match from
    case None =>
      assert s == [LT, GT] + rest;
      NoSenderReads(f, rest);
    case Some(e) =>
      PlainStart(f, path, e);
      AddressReads(f, bracketed, path, e, rest);
      assert bracketed ==> s[1] == PrintRoutedEmail(path, e)[0];
      SomeSender(f, s, path, e, rest);
  }

  lemma AddressStart(f: Foreign, bracketed: bool, path: Option<Path>, from: Option<Email>)
    requires if from.Some? then GoodEmail(f, from.value) && (path.Some? ==> GoodPath(f, path.value)) else path.None? && bracketed
    ensures var a := WriteAddress(bracketed, Sender(path, from)); a != [] && a[0] !in BLANKS
  {
    if from.Some? { PlainStart(f, path, from.value); }
  }

  /** Arguments and what is after them, grouped as the parsers take them apart. */
  lemma ArgumentsGrouped(a: bytes, ps: bytes, end: bytes)
    ensures (a + ps) + end == a + (ps + end)
  { }

  lemma MailReads(f: Foreign, c: Command, y: Style, rest: bytes)
    requires c.Mail? && Good(f, c) && Allowed(c, y)
    ensures ParseMail(f, y.lead + (WriteArguments(c, y) + (y.trail + (CRLF + rest)))) == Ok(c, rest)
  {
    var a, ps, end := WriteAddress(y.bracketed, Sender(c.path, c.from)), WriteParameters(y.gaps, c.params), y.trail + (CRLF + rest);
    TrailEnds(y.trail, rest);
    WrittenEndsWord(y.gaps, c.params, end);
    OptionsRead(y.gaps, c.params, y.trail, rest);
    SenderReads(f, y.bracketed, c.path, c.from, ps + end);
    AddressStart(f, y.bracketed, c.path, c.from);
    BlanksRead(y.lead, a + (ps + end));
    ArgumentsGrouped(a, ps, end);
  }

  lemma RcptReads(f: Foreign, c: Command, y: Style, rest: bytes)
    requires c.Rcpt? && Good(f, c) && Allowed(c, y)
    ensures ParseRcpt(f, y.lead + (WriteArguments(c, y) + (y.trail + (CRLF + rest)))) == Ok(c, rest)
  {
    var a, ps, end := WriteAddress(y.bracketed, PrintRoutedEmail(c.path, c.to)), WriteParameters(y.gaps, c.params), y.trail + (CRLF + rest);
    TrailEnds(y.trail, rest);
    WrittenEndsWord(y.gaps, c.params, end);
    OptionsRead(y.gaps, c.params, y.trail, rest);
    AddressReads(f, y.bracketed, c.path, c.to, ps + end);
    AddressStart(f, y.bracketed, c.path, Some(c.to));
    BlanksRead(y.lead, a + (ps + end));
    ArgumentsGrouped(a, ps, end);
  }

  // ------------------------------------------------------------------ commands read

  /** The arguments of `c`, and what follows, are read. */
  predicate ReadsBack(f: Foreign, c: Command, y: Style, rest: bytes)
    requires |y.gaps| == |ParametersOf(c)|
  {
    ParseAfter(f, Index(c), y.lead + (WriteArguments(c, y) + (y.trail + (CRLF + rest)))) == Ok(c, rest)
  }

  lemma AfterHello(f: Foreign, c: Command, s: bytes)
    requires c.Ehlo? || c.Helo? || c.Lhlo?
    ensures ParseAfter(f, Index(c), s) == WithHost(Index(c), ParseHost(f, s))
  { }

  lemma AfterWord(f: Foreign, i: nat, s: bytes)
    requires i == 2 || i == 12
    ensures ParseAfter(f, i, s) == WithWord(i, ParseWord(s))
  { }

  lemma AfterOptionalWord(f: Foreign, i: nat, s: bytes)
    requires i == 4 || i == 7
    ensures ParseAfter(f, i, s) == WithWord(i, ParseOptionalWord(s))
  { }

  lemma AfterHost(f: Foreign, i: nat, s: bytes)
    requires i == 1 || i == 3 || i == 5
    ensures ParseAfter(f, i, s) == WithHost(i, ParseHost(f, s))
  { }

  lemma AfterEnd(f: Foreign, i: nat, s: bytes)
    requires i == 0 || i == 8 || i == 10 || i == 11
    ensures ParseAfter(f, i, s) == As(if i == 0 then Data else if i == 8 then Quit else if i == 10 then Rset else Starttls, ParseEnd(s))
  { }

  lemma AfterBare(f: Foreign, c: Command, s: bytes)
    requires c.Data? || c.Quit? || c.Rset? || c.Starttls?
    ensures ParseAfter(f, Index(c), s) == As(c, ParseEnd(s))
  { }

  lemma HelloReads(f: Foreign, c: Command, y: Style, rest: bytes)
    requires Good(f, c) && Allowed(c, y) && (c.Ehlo? || c.Helo? || c.Lhlo?)
    ensures ReadsBack(f, c, y, rest)
  {
    HostReads(f, c.hostname, y.lead, y.trail, rest);
    AfterHello(f, c, y.lead + (c.hostname.raw + (y.trail + (CRLF + rest))));
  }

  lemma TextReads(f: Foreign, c: Command, w: Text, y: Style, rest: bytes)
    requires GoodWord(w) && Allowed(c, y) && (c == Expn(w) || c == Help(w) || c == Noop(w) || c == Vrfy(w))
    ensures ReadsBack(f, c, y, rest)
  {
    var s := y.lead + (w.s + (CRLF + rest));
    assert y.trail + (CRLF + rest) == CRLF + rest;
    WithGoodWord(Index(c), w, rest);
    if c.Expn? || c.Vrfy? {
      AfterWord(f, Index(c), s);
      WordReads(y.lead, w, rest);
    } else {
      AfterOptionalWord(f, Index(c), s);
      OptionalWordReads(y.lead, w, rest);
    }
  }

  lemma BareReads(f: Foreign, c: Command, y: Style, rest: bytes)
    requires Allowed(c, y) && (c.Data? || c.Quit? || c.Rset? || c.Starttls?)
    ensures ReadsBack(f, c, y, rest)
  {
    var s := y.trail + (CRLF + rest);
    assert y.lead + ([] + s) == s;
    EndReads(y.trail, rest);
    AfterBare(f, c, s);
  }

  lemma AddressCommandReads(f: Foreign, c: Command, y: Style, s: bytes, rest: bytes)
    requires |y.gaps| == |ParametersOf(c)| && s == y.lead + (WriteArguments(c, y) + (y.trail + (CRLF + rest)))
    requires (c.Mail? && ParseMail(f, s) == Ok(c, rest)) || (c.Rcpt? && ParseRcpt(f, s) == Ok(c, rest))
    ensures ReadsBack(f, c, y, rest)
  { }

  lemma ArgumentsRead(f: Foreign, c: Command, y: Style, rest: bytes)
    requires Good(f, c) && Allowed(c, y)
    ensures ReadsBack(f, c, y, rest)
  {
    match c
    case Ehlo(_) => HelloReads(f, c, y, rest);
    case Helo(_) => HelloReads(f, c, y, rest);
    case Lhlo(_) => HelloReads(f, c, y, rest);
    case Expn(w) => TextReads(f, c, w, y, rest);
    case Help(w) => TextReads(f, c, w, y, rest);
    case Noop(w) => TextReads(f, c, w, y, rest);
    case Vrfy(w) => TextReads(f, c, w, y, rest);
    case Mail(_, _, _) =>
      MailReads(f, c, y, rest);
      AddressCommandReads(f, c, y, y.lead + (WriteArguments(c, y) + (y.trail + (CRLF + rest))), rest);
    case Rcpt(_, _, _) =>
      RcptReads(f, c, y, rest);
      AddressCommandReads(f, c, y, y.lead + (WriteArguments(c, y) + (y.trail + (CRLF + rest))), rest);
    case _ => BareReads(f, c, y, rest);
  }

  lemma VerbBegins(c: Command, w: bytes, x: bytes)
    requires Spelled(w, Verb(c))
    ensures Begins(Index(c), w + x) && (w + x)[|Keyword(Index(c))|..] == x
  {
    SpelledIs(c, w);
    assert forall k :: 0 <= k < |w| ==> (w + x)[k] == w[k];
  }

  lemma LineGrouped(verb: bytes, lead: bytes, args: bytes, trail: bytes, rest: bytes)
    ensures (verb + (lead + (args + (trail + [13, 10])))) + rest == verb + (lead + (args + (trail + (CRLF + rest))))
  { }

  /** A command written in any of its spellings, whatever follows it, is read with exactly that left over. */
  lemma SpellingReads(f: Foreign, c: Command, y: Style, rest: bytes)
    requires Good(f, c) && Allowed(c, y)
    ensures ParseCommand(f, Write(c, y) + rest) == Ok(c, rest)
  {
    var x := y.lead + (WriteArguments(c, y) + (y.trail + (CRLF + rest)));
    LineGrouped(y.verb, y.lead, WriteArguments(c, y), y.trail, rest);
    VerbBegins(c, y.verb, x);
    ArgumentsRead(f, c, y, rest);
    OthersFail(f, Index(c), Index(c), y.verb + x);
    LastAlternative(f, Index(c), y.verb + x, c, rest);
  }

  // ------------------------------------------------------------------ the printer

  /** The choices of the printer. */
  function Printed(c: Command): Style {
    Style(Keyword(Index(c)), if c.Data? || c.Quit? || c.Rset? || c.Starttls? || c.Mail? || c.Rcpt? then [] else [SP], true,
          seq(|ParametersOf(c)|, i => [SP]), [])
  }

  lemma PrintedIsAllowed(c: Command)
    ensures Allowed(c, Printed(c))
  {
    VerbIsKeyword(c);
  }

  lemma {:induction false} PrintedParameters(ps: seq<Parameter>)
    ensures PrintParameters(ps) == WriteParameters(seq(|ps|, i => [SP]), ps)
    decreases |ps|
  {
    if ps != [] {
      PrintedParameters(ps[1..]);
      assert seq(|ps|, i => [SP])[1..] == seq(|ps[1..]|, i => [SP]);
    }
  }

  lemma PrintedMail(c: Command)
    requires c.Mail? && (c.path.None? || c.from.Some?)
    ensures PrintArguments(c) == WriteArguments(c, Printed(c))
  {
    PrintedParameters(c.params);
    assert PrintArguments(c) == WriteAddress(true, Sender(c.path, c.from)) + PrintParameters(c.params);
  }

  lemma PrintedRcpt(c: Command)
    requires c.Rcpt?
    ensures PrintArguments(c) == WriteArguments(c, Printed(c))
  {
    PrintedParameters(c.params);
    assert PrintArguments(c) == WriteAddress(true, PrintRoutedEmail(c.path, c.to)) + PrintParameters(c.params);
  }

  lemma PrintedArguments(c: Command)
    requires c.Mail? ==> c.path.None? || c.from.Some?
    ensures PrintArguments(c) == Printed(c).lead + WriteArguments(c, Printed(c))
  {
    if c.Mail? {
      PrintedMail(c);
      assert [] + PrintArguments(c) == PrintArguments(c);
    } else if c.Rcpt? {
      PrintedRcpt(c);
      assert [] + PrintArguments(c) == PrintArguments(c);
    }
  }

  lemma NoTrail(lead: bytes, args: bytes)
    ensures (lead + args) + CRLF == lead + (args + ([] + [13, 10]))
  { }

  lemma PrintIsWritten(c: Command)
    requires c.Mail? ==> c.path.None? || c.from.Some?
    ensures Print(c) == Write(c, Printed(c))
  {
    PrintedArguments(c);
    NoTrail(Printed(c).lead, WriteArguments(c, Printed(c)));
  }

  // ------------------------------------------------------------------ the wire

  /** What goes over the wire for each command; a host name, a word and an address go as they are. */
  lemma BareText()
    ensures Print(Data) == [68, 65, 84, 65, 13, 10]                                    // DATA
    ensures Print(Quit) == [81, 85, 73, 84, 13, 10]                                    // QUIT
    ensures Print(Rset) == [82, 83, 69, 84, 13, 10]                                    // RSET
    ensures Print(Starttls) == [83, 84, 65, 82, 84, 84, 76, 83, 13, 10]                // STARTTLS
  { }

  lemma LineText(verb: bytes, arg: bytes)
    ensures verb + (([SP] + arg) + CRLF) == (verb + [32]) + arg + [13, 10]
  { }

  lemma ArgumentText(c: Command, verb: bytes, arg: bytes)
    requires Keyword(Index(c)) == verb && PrintArguments(c) == [SP] + arg
    ensures Print(c) == (verb + [32]) + arg + [13, 10]
  {
    LineText(verb, arg);
  }

  lemma HelloText(h: Hostname)
    ensures Print(Ehlo(h)) == ([69, 72, 76, 79] + [32]) + h.raw + [13, 10]             // EHLO host
    ensures Print(Helo(h)) == ([72, 69, 76, 79] + [32]) + h.raw + [13, 10]             // HELO host
    ensures Print(Lhlo(h)) == ([76, 72, 76, 79] + [32]) + h.raw + [13, 10]             // LHLO host
  {
    ArgumentText(Ehlo(h), [69, 72, 76, 79], h.raw);
    ArgumentText(Helo(h), [72, 69, 76, 79], h.raw);
    ArgumentText(Lhlo(h), [76, 72, 76, 79], h.raw);
  }

  lemma WordText(w: Text)
    ensures Print(Expn(w)) == ([69, 88, 80, 78] + [32]) + w.s + [13, 10]               // EXPN word
    ensures Print(Help(w)) == ([72, 69, 76, 80] + [32]) + w.s + [13, 10]               // HELP word
    ensures Print(Noop(w)) == ([78, 79, 79, 80] + [32]) + w.s + [13, 10]               // NOOP word
    ensures Print(Vrfy(w)) == ([86, 82, 70, 89] + [32]) + w.s + [13, 10]               // VRFY word
  {
    ArgumentText(Expn(w), [69, 88, 80, 78], w.s);
    ArgumentText(Help(w), [72, 69, 76, 80], w.s);
    ArgumentText(Noop(w), [78, 79, 79, 80], w.s);
    ArgumentText(Vrfy(w), [86, 82, 70, 89], w.s);
  }

  lemma BracketText(verb: bytes, a: bytes, ps: bytes)
    ensures verb + ((([LT] + a + [GT]) + ps) + CRLF) == (verb + [60]) + a + [62] + ps + [13, 10]
  { }

  lemma MailArguments(path: Option<Path>, from: Option<Email>, ps: seq<Parameter>)
    requires from.None? ==> path.None?
    ensures PrintArguments(Mail(path, from, ps)) == ([LT] + Sender(path, from) + [GT]) + PrintParameters(ps)
  { }

  lemma MailIs(path: Option<Path>, from: Option<Email>, ps: seq<Parameter>)
    requires from.None? ==> path.None?
    ensures Print(Mail(path, from, ps)) == Keyword(6) + ((([LT] + Sender(path, from) + [GT]) + PrintParameters(ps)) + CRLF)
  {
    MailArguments(path, from, ps);
  }

  lemma MailVerb()
    ensures Keyword(6) + [60] == [77, 65, 73, 76, 32, 70, 82, 79, 77, 58, 60]
  { }

  /** `MAIL FROM:<address>`, and `MAIL FROM:<>` for the null sender */
  lemma MailText(path: Option<Path>, e: Email, ps: seq<Parameter>)
    ensures Print(Mail(path, Some(e), ps)) ==
            [77, 65, 73, 76, 32, 70, 82, 79, 77, 58, 60] + PrintRoutedEmail(path, e) + [62] + PrintParameters(ps) + [13, 10]
    ensures Print(Mail(None, None, ps)) == [77, 65, 73, 76, 32, 70, 82, 79, 77, 58, 60] + [] + [62] + PrintParameters(ps) + [13, 10]
  {
    MailVerb();
    MailIs(path, Some(e), ps);
    BracketText(Keyword(6), PrintRoutedEmail(path, e), PrintParameters(ps));
    MailIs(None, None, ps);
    BracketText(Keyword(6), [], PrintParameters(ps));
  }

  lemma RcptText(path: Option<Path>, e: Email, ps: seq<Parameter>)
    ensures Print(Rcpt(path, e, ps)) ==                                                // RCPT TO:<address>
            [82, 67, 80, 84, 32, 84, 79, 58, 60] + PrintRoutedEmail(path, e) + [62] + PrintParameters(ps) + [13, 10]
  {
    BracketText(Keyword(9), PrintRoutedEmail(path, e), PrintParameters(ps));
  }

  /** Addresses: `local`, `local@host`, and `@host,@host:` before one of them. */
  lemma AddressText(l: Localpart, h: Hostname, g: Hostname, hosts: seq<Hostname>, p: Path, e: Email)
    ensures PrintEmail(Email(l, None)) == l.raw && PrintEmail(Email(l, Some(h))) == l.raw + ([64] + h.raw)
    ensures PrintRoutedEmail(None, e) == PrintEmail(e) && PrintRoutedEmail(Some(p), e) == (PrintPath(p) + [58]) + PrintEmail(e)
    ensures PrintPath(Path([h])) == [64] + h.raw && PrintPath(Path([h, g] + hosts)) == ([64] + h.raw) + ([44] + PrintPath(Path([g] + hosts)))
  {
    RouteText(h, g, hosts);
    assert [h][1..] == [] && ([64] + h.raw) + PrintHosts([]) == [64] + h.raw;
  }

  lemma RouteText(h: Hostname, g: Hostname, hosts: seq<Hostname>)
    ensures PrintPath(Path([h, g] + hosts)) == ([64] + h.raw) + ([44] + PrintPath(Path([g] + hosts)))
  {
    assert ([h, g] + hosts)[1..] == [g] + hosts && ([g] + hosts)[1..] == hosts;
    assert ([COMMA, AT] + g.raw) + PrintHosts(hosts) == [44] + (([AT] + g.raw) + PrintHosts(hosts));
  }

  /** Parameters: ` NAME` and ` NAME=value`. */
  lemma ParameterText(name: bytes, v: Text, ps: seq<Parameter>)
    ensures PrintParameters([]) == []
    ensures PrintParameters([Parameter(name, None)] + ps) == ([32] + name) + PrintParameters(ps)
    ensures PrintParameters([Parameter(name, Some(v))] + ps) == ([32] + (name + ([61] + v.s))) + PrintParameters(ps)
  {
    assert ([Parameter(name, None)] + ps)[1..] == ps && ([Parameter(name, Some(v))] + ps)[1..] == ps;
    assert name + [] == name;
  }

  // ------------------------------------------------------------------ round trips

  /** A printed command, whatever follows it, is read back with exactly that left over. */
  lemma CommandRoundTrip(f: Foreign, c: Command, rest: bytes)
    requires Good(f, c)
    ensures ParseCommand(f, Print(c) + rest) == Ok(c, rest)
  {
    PrintIsWritten(c);
    PrintedIsAllowed(c);
    SpellingReads(f, c, Printed(c), rest);
  }

  function PrintAll(cs: seq<Command>): bytes {
    if cs == [] then [] else Print(cs[0]) + PrintAll(cs[1..])
  }

  /** One command after the other, until nothing is left. */
  function ParseAll(f: Foreign, s: bytes): Option<seq<Command>>
    decreases |s|
  {
    if s == [] then Some([])
    else
      match ParseCommand(f, s)
      case Ok(c, rest) =>
        if |rest| >= |s| then None
        else (match ParseAll(f, rest) { case Some(cs) => Some([c] + cs) case None => None })
      case _ => None
  }

  lemma OneMoreCommand(f: Foreign, c: Command, cs: seq<Command>)
    requires Good(f, c) && ParseAll(f, PrintAll(cs)) == Some(cs)
    ensures ParseAll(f, Print(c) + PrintAll(cs)) == Some([c] + cs)
  {
    CommandRoundTrip(f, c, PrintAll(cs));
    assert |Print(c)| > 0;
  }

  lemma FirstCommand(cs: seq<Command>)
    requires cs != []
    ensures [cs[0]] + cs[1..] == cs && PrintAll(cs) == Print(cs[0]) + PrintAll(cs[1..])
  { }

  /** A printed pipeline is read back command by command. */
  lemma {:induction false} PipelineRoundTrip(f: Foreign, cs: seq<Command>)
    requires forall i :: 0 <= i < |cs| ==> Good(f, cs[i])
    ensures ParseAll(f, PrintAll(cs)) == Some(cs)
    decreases |cs|
  {
    if cs != [] {
      PipelineRoundTrip(f, cs[1..]);
      OneMoreCommand(f, cs[0], cs[1..]);
      FirstCommand(cs);
    }
  }
}
