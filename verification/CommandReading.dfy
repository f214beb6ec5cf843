/** Every line that is read as a command is one of the spellings of that command. */
module CommandReading {
  import opened AddressSyntax
  import opened Automata
  import opened Bytes
  import opened Combinators
  import opened Commands
  import opened CommandSpelling
  import opened CommandSyntax
  import opened Framing

  lemma UntilTook(d: Dfa, term: set<byte>, s: bytes)
    requires ParseUntil(d, term, s).Ok?
    ensures Took(s, ParseUntil(d, term, s), ParseUntil(d, term, s).value)
  {
    LongestIsLongest(d, s);
  }

  lemma HostnameTook(f: Foreign, term: set<byte>, s: bytes)
    requires ParseHostname(f, term, s).Ok?
    ensures Took(s, ParseHostname(f, term, s), ParseHostname(f, term, s).value.raw)
  {
    if ParseUntil(HOSTNAME_ASCII, term, s).Ok? { UntilTook(HOSTNAME_ASCII, term, s); }
    if ParseUntil(HOSTNAME_UTF8, term, s).Ok? { UntilTook(HOSTNAME_UTF8, term, s); }
  }

  lemma LocalpartTook(term: set<byte>, s: bytes)
    requires ParseLocalpart(term, s).Ok?
    ensures Took(s, ParseLocalpart(term, s), ParseLocalpart(term, s).value.raw)
  {
    if ParseUntil(LOCALPART_ASCII, term, s).Ok? { UntilTook(LOCALPART_ASCII, term, s); }
    if ParseUntil(LOCALPART_UTF8, term, s).Ok? { UntilTook(LOCALPART_UTF8, term, s); }
  }

  lemma AtHostnameTook(f: Foreign, term: set<byte>, s: bytes)
    requires ParseAtHostname(f, term, s).Ok?
    ensures Took(s, ParseAtHostname(f, term, s), [AT] + ParseAtHostname(f, term, s).value.raw)
  {
    HostnameTook(f, term, s[1..]);
  }

  lemma EmailTook(f: Foreign, term: set<byte>, s: bytes)
    requires ParseEmail(f, term, s).Ok?
    ensures Took(s, ParseEmail(f, term, s), PrintEmail(ParseEmail(f, term, s).value))
  {
    LocalpartTook(term + {AT}, s);
    var l := ParseLocalpart(term + {AT}, s);
    var h := ParseAtHostname(f, term, l.rest);
    if h.Ok? {
      AtHostnameTook(f, term, l.rest);
      Then(s, l.value.raw, l.rest, [AT] + h.value.raw, h.rest);
    } else {
      assert l.value.raw + [] == l.value.raw;
    }
  }

  lemma NextHostTook(f: Foreign, s: bytes)
    requires ParseNextHost(f, s).Ok?
    ensures Took(s, ParseNextHost(f, s), [COMMA, AT] + ParseNextHost(f, s).value.raw)
  {
    TagTook([COMMA], s);
    var s1 := Tag([COMMA], s).rest;
    AtHostnameTook(f, {COLON, COMMA}, s1);
    var h := ParseAtHostname(f, {COLON, COMMA}, s1);
    Then(s, [COMMA], s1, [AT] + h.value.raw, h.rest);
    assert [COMMA] + ([AT] + h.value.raw) == [COMMA, AT] + h.value.raw;
  }

  lemma {:induction false} MoreHostsTook(f: Foreign, s: bytes)
    requires ParseMoreHosts(f, s).Ok?
    ensures Took(s, ParseMoreHosts(f, s), PrintHosts(ParseMoreHosts(f, s).value))
    decreases |s|
  {
    var a := ParseNextHost(f, s);
    if a.Ok? {
      NextHostTook(f, s);
      MoreHostsTook(f, a.rest);
      var b := ParseMoreHosts(f, a.rest);
      Then(s, [COMMA, AT] + a.value.raw, a.rest, PrintHosts(b.value), b.rest);
      assert ([a.value] + b.value)[1..] == b.value;
    }
  }

  lemma RouteEndTook(f: Foreign, s: bytes)
    requires ParseRouteEnd(f, s).Ok?
    ensures Took(s, ParseRouteEnd(f, s), PrintHosts(ParseRouteEnd(f, s).value) + [COLON])
  {
    MoreHostsTook(f, s);
    var b := ParseMoreHosts(f, s);
    TagTook([COLON], b.rest);
    Then(s, PrintHosts(b.value), b.rest, [COLON], Tag([COLON], b.rest).rest);
  }

  lemma PathTook(f: Foreign, s: bytes)
    requires ParsePath(f, s).Ok?
    ensures Took(s, ParsePath(f, s), PrintPath(ParsePath(f, s).value) + [COLON])
  {
    AtHostnameTook(f, {COLON, COMMA}, s);
    var a := ParseAtHostname(f, {COLON, COMMA}, s);
    RouteEndTook(f, a.rest);
    var b := ParseRouteEnd(f, a.rest);
    Then(s, [AT] + a.value.raw, a.rest, PrintHosts(b.value) + [COLON], b.rest);
    assert ([a.value] + b.value)[1..] == b.value;
    Regroup([AT] + a.value.raw, PrintHosts(b.value), [COLON]);
  }

  lemma RoutedTook(f: Foreign, term: set<byte>, s: bytes)
    requires ParseRoutedEmail(f, term, s).Ok?
    ensures var r := ParseRoutedEmail(f, term, s); Took(s, r, PrintRoutedEmail(r.value.0, r.value.1))
  {
    var p := ParsePath(f, s);
    var s1 := Opt(p, s).rest;
    EmailTook(f, term, s1);
    var e := ParseEmail(f, term, s1);
    if p.Ok? {
      PathTook(f, s);
      Then(s, PrintPath(p.value) + [COLON], s1, PrintEmail(e.value), e.rest);
    } else {
      assert [] + PrintEmail(e.value) == PrintEmail(e.value);
    }
  }

  lemma UntilGtTook(f: Foreign, s: bytes)
    requires ParseUntilGt(f, WORD_END, s).Ok?
    ensures var r := ParseUntilGt(f, WORD_END, s); Took(s, r, PrintRoutedEmail(r.value.0, r.value.1) + [GT])
  {
    RoutedTook(f, WORD_END + {GT}, s);
    var a := ParseRoutedEmail(f, WORD_END + {GT}, s);
    TagTook([GT], a.rest);
    Then(s, PrintRoutedEmail(a.value.0, a.value.1), a.rest, [GT], Tag([GT], a.rest).rest);
  }

  lemma BracketedTook(f: Foreign, s: bytes)
    requires ParseBracketed(f, WORD_END, s).Ok?
    ensures var r := ParseBracketed(f, WORD_END, s); Took(s, r, WriteAddress(true, PrintRoutedEmail(r.value.0, r.value.1)))
  {
    TagTook([LT], s);
    var s1 := Tag([LT], s).rest;
    UntilGtTook(f, s1);
    var r := ParseUntilGt(f, WORD_END, s1);
    Then(s, [LT], s1, PrintRoutedEmail(r.value.0, r.value.1) + [GT], r.rest);
  }

  lemma AddressTook(f: Foreign, s: bytes) returns (bracketed: bool)
    requires ParseEmailWithPath(f, WORD_END, s).Ok?
    ensures var r := ParseEmailWithPath(f, WORD_END, s); Took(s, r, WriteAddress(bracketed, PrintRoutedEmail(r.value.0, r.value.1)))
  {
    bracketed := ParseBracketed(f, WORD_END, s).Ok?;
    if bracketed { BracketedTook(f, s); } else { RoutedTook(f, WORD_END, s); }
  }

  lemma SenderTook(f: Foreign, s: bytes) returns (bracketed: bool)
    requires ParseSender(f, s).Ok?
    ensures var r := ParseSender(f, s); Took(s, r, WriteAddress(bracketed, Sender(r.value.0, r.value.1))) && (r.value.1.None? ==> bracketed)
  {
    if Tag([LT, GT], s).Ok? {
      bracketed := true;
      assert s == [LT, GT] + s[2..];
    } else {
      bracketed := AddressTook(f, s);
    }
  }

  lemma BlanksTook(s: bytes)
    ensures IsA(BLANKS, s).Ok? ==> IsA(BLANKS, s).value != [] && AreBlank(IsA(BLANKS, s).value) && Took(s, IsA(BLANKS, s), IsA(BLANKS, s).value)
  { }

  /** The blanks that there may be. */
  lemma SomeBlanksTook(s: bytes) returns (blanks: bytes)
    requires Opt(IsA(BLANKS, s), s).Ok?
    ensures AreBlank(blanks) && Took(s, Opt(IsA(BLANKS, s), s), blanks)
  {
    BlanksTook(s);
    blanks := if IsA(BLANKS, s).Ok? then IsA(BLANKS, s).value else [];
  }

  lemma EndTook(s: bytes) returns (trail: bytes)
    requires ParseEnd(s).Ok?
    ensures AreBlank(trail) && Took(s, ParseEnd(s), trail + [13, 10])
  {
    trail := SomeBlanksTook(s);
    var s1 := Opt(IsA(BLANKS, s), s).rest;
    assert s1 == CRLF + s1[2..];
  }

  lemma EqualsValueTook(s: bytes)
    requires ParseEqualsValue(s).Ok?
    ensures Took(s, ParseEqualsValue(s), [EQUALS] + ParseEqualsValue(s).value.s)
  {
    TagTook([EQUALS], s);
    var s1 := Tag([EQUALS], s).rest;
    ValueTook(s1);
    Then(s, [EQUALS], s1, ParseValue(s1).value.s, ParseValue(s1).rest);
  }

  lemma NamedTook(s: bytes)
    requires ParseNamed(s).Ok?
    ensures Took(s, ParseNamed(s), ParseNamed(s).value.name + WriteValue(ParseNamed(s).value.value))
  {
    var a := ApplyRegex(PARAMETER_NAME, s);
    assert s == a.value + a.rest;
    if ParseEqualsValue(a.rest).Ok? {
      EqualsValueTook(a.rest);
      var v := ParseEqualsValue(a.rest);
      Then(s, a.value, a.rest, [EQUALS] + v.value.s, v.rest);
    } else {
      assert a.value + [] == a.value;
    }
  }

  lemma ValueTook(s: bytes)
    requires ParseValue(s).Ok?
    ensures Took(s, ParseValue(s), ParseValue(s).value.s)
  {
    if ParseUntil(VALUE_ASCII, WORD_END, s).Ok? { UntilTook(VALUE_ASCII, WORD_END, s); }
    if ParseUntil(VALUE_UTF8, WORD_END, s).Ok? { UntilTook(VALUE_UTF8, WORD_END, s); }
  }

  lemma ParameterTook(s: bytes) returns (gap: bytes)
    requires ParseParameter(s).Ok?
    ensures gap != [] && AreBlank(gap)
    ensures Took(s, ParseParameter(s), gap + (ParseParameter(s).value.name + WriteValue(ParseParameter(s).value.value)))
  {
    BlanksTook(s);
    var a := IsA(BLANKS, s);
    gap := a.value;
    NamedTook(a.rest);
    var p := ParseNamed(a.rest);
    Then(s, gap, a.rest, p.value.name + WriteValue(p.value.value), p.rest);
  }

  lemma MoreParameters(gap: bytes, p: Parameter, gaps: seq<bytes>, ps: seq<Parameter>)
    requires |gaps| == |ps|
    ensures WriteParameters([gap] + gaps, [p] + ps) == (gap + (p.name + WriteValue(p.value))) + WriteParameters(gaps, ps)
  {
    assert ([gap] + gaps)[1..] == gaps && ([p] + ps)[1..] == ps;
  }

  lemma {:induction false} ParametersTook(s: bytes) returns (gaps: seq<bytes>)
    requires ParseParameters(s).Ok?
    ensures |gaps| == |ParseParameters(s).value| && AreGaps(gaps)
    ensures Took(s, ParseParameters(s), WriteParameters(gaps, ParseParameters(s).value))
    decreases |s|
  {
    var a := ParseParameter(s);
    gaps := [];
    if a.Ok? {
      var gap := ParameterTook(s);
      var more := ParametersTook(a.rest);
      var b := ParseParameters(a.rest);
      gaps := [gap] + more;
      MoreParameters(gap, a.value, more, b.value);
      Then(s, gap + (a.value.name + WriteValue(a.value.value)), a.rest, WriteParameters(more, b.value), b.rest);
    }
  }

  lemma OptionsTook(s: bytes) returns (gaps: seq<bytes>, trail: bytes)
    requires ParseOptions(s).Ok?
    ensures |gaps| == |ParseOptions(s).value| && AreGaps(gaps) && AreBlank(trail)
    ensures Took(s, ParseOptions(s), WriteParameters(gaps, ParseOptions(s).value) + (trail + [13, 10]))
  {
    gaps := ParametersTook(s);
    var a := ParseParameters(s);
    trail := EndTook(a.rest);
    Then(s, WriteParameters(gaps, a.value), a.rest, trail + [13, 10], ParseEnd(a.rest).rest);
  }

  // ------------------------------------------------------------------ commands taken apart

  /** What follows the verb of a line that is read as command `c`. */
  ghost predicate Apart(c: Command, s: bytes, y: Style, rest: bytes) {
    |y.gaps| == |ParametersOf(c)| && s == (y.lead + (WriteArguments(c, y) + (y.trail + [13, 10]))) + rest
  }

  lemma MailApart(f: Foreign, s: bytes, verb: bytes) returns (y: Style)
    requires ParseMail(f, s).Ok? && Spelled(verb, Verb(ParseMail(f, s).value))
    ensures Allowed(ParseMail(f, s).value, y) && y.verb == verb && Apart(ParseMail(f, s).value, s, y, ParseMail(f, s).rest)
  {
    var lead := SomeBlanksTook(s);
    var s1 := Opt(IsA(BLANKS, s), s).rest;
    var bracketed := SenderTook(f, s1);
    var a := ParseSender(f, s1);
    var gaps, trail := OptionsTook(a.rest);
    var b := ParseOptions(a.rest);
    y := Style(verb, lead, bracketed, gaps, trail);
    Grouped(s, lead, s1, WriteAddress(bracketed, Sender(a.value.0, a.value.1)), a.rest, WriteParameters(gaps, b.value), trail, b.rest);
  }

  lemma RcptApart(f: Foreign, s: bytes, verb: bytes) returns (y: Style)
    requires ParseRcpt(f, s).Ok? && Spelled(verb, Verb(ParseRcpt(f, s).value))
    ensures Allowed(ParseRcpt(f, s).value, y) && y.verb == verb && Apart(ParseRcpt(f, s).value, s, y, ParseRcpt(f, s).rest)
  {
    var lead := SomeBlanksTook(s);
    var s1 := Opt(IsA(BLANKS, s), s).rest;
    var bracketed := AddressTook(f, s1);
    var a := ParseEmailWithPath(f, WORD_END, s1);
    var gaps, trail := OptionsTook(a.rest);
    var b := ParseOptions(a.rest);
    y := Style(verb, lead, bracketed, gaps, trail);
    Grouped(s, lead, s1, WriteAddress(bracketed, PrintRoutedEmail(a.value.0, a.value.1)), a.rest, WriteParameters(gaps, b.value), trail, b.rest);
  }

  lemma Grouped(s: bytes, lead: bytes, s1: bytes, a: bytes, s2: bytes, ps: bytes, trail: bytes, rest: bytes)
    requires s == lead + s1 && s1 == a + s2 && s2 == (ps + (trail + [13, 10])) + rest
    ensures s == (lead + ((a + ps) + (trail + [13, 10]))) + rest
  {
    Regroup(a, ps, trail + [13, 10]);
  }

  lemma HelloApart(f: Foreign, s: bytes, c: Command, verb: bytes, rest: bytes) returns (y: Style)
    requires (c.Ehlo? || c.Helo? || c.Lhlo?) && ParseHost(f, s) == Ok(c.hostname, rest) && Spelled(verb, Verb(c))
    ensures Allowed(c, y) && y.verb == verb && Apart(c, s, y, rest)
  {
    BlanksTook(s);
    var a := IsA(BLANKS, s);
    HostnameTook(f, WORD_END, a.rest);
    var h := ParseHostname(f, WORD_END, a.rest);
    var trail := EndTook(h.rest);
    y := Style(verb, a.value, true, [], trail);
    Then(a.rest, h.value.raw, h.rest, trail + [13, 10], rest);
    Then(s, a.value, a.rest, h.value.raw + (trail + [13, 10]), rest);
  }

  lemma LineTook(s: bytes)
    requires ParseLine(s).Ok?
    ensures Took(s, ParseLine(s), ParseLine(s).value + [13, 10])
  {
    var a := TakeUntilCrLf(s);
    TagTook(CRLF, a.rest);
    Then(s, a.value, a.rest, CRLF, Tag(CRLF, a.rest).rest);
  }

  lemma WordTook(s: bytes) returns (lead: bytes)
    requires ParseWord(s).Ok?
    ensures |lead| == 1 && AreBlank(lead) && Took(s, ParseWord(s), lead + (ParseWord(s).value + [13, 10]))
  {
    lead := [s[0]];
    LineTook(s[1..]);
    assert s == lead + s[1..];
    Then(s, lead, s[1..], ParseWord(s).value + [13, 10], ParseWord(s).rest);
  }

  lemma OptionalWordTook(s: bytes) returns (lead: bytes)
    requires ParseOptionalWord(s).Ok?
    ensures var r := ParseOptionalWord(s); AreBlank(lead) && (|lead| == 1 || (lead == [] && r.value == []))
    ensures Took(s, ParseOptionalWord(s), lead + (ParseOptionalWord(s).value + [13, 10]))
  {
    if ParseWord(s).Ok? {
      lead := WordTook(s);
    } else {
      lead := [];
      TagTook(CRLF, s);
      assert CRLF == [] + ([] + [13, 10]);
    }
  }

  lemma TextApart(s: bytes, c: Command, verb: bytes, w: bytes, lead: bytes, rest: bytes) returns (y: Style)
    requires c.Expn? || c.Help? || c.Noop? || c.Vrfy?
    requires Spelled(verb, Verb(c)) && WriteArguments(c, Style(verb, lead, true, [], [])) == w && s == (lead + (w + [13, 10])) + rest
    requires AreBlank(lead) && (|lead| == 1 || (lead == [] && w == [] && (c.Help? || c.Noop?)))
    ensures Allowed(c, y) && y.verb == verb && Apart(c, s, y, rest)
  {
    y := Style(verb, lead, true, [], []);
    assert [] + [13, 10] == [13, 10];
  }

  lemma BareApart(s: bytes, c: Command, verb: bytes, rest: bytes) returns (y: Style)
    requires (c.Data? || c.Quit? || c.Rset? || c.Starttls?) && Spelled(verb, Verb(c)) && ParseEnd(s).Ok? && ParseEnd(s).rest == rest
    ensures Allowed(c, y) && y.verb == verb && Apart(c, s, y, rest)
  {
    var trail := EndTook(s);
    y := Style(verb, [], true, [], trail);
    assert [] + ([] + (trail + [13, 10])) == trail + [13, 10];
  }

  lemma WordIndex(i: nat, a: Outcome<bytes>)
    requires i in {2, 4, 7, 12} && WithWord(i, a).Ok?
    ensures Index(WithWord(i, a).value) == i
  { }

  lemma HostIndex(i: nat, a: Outcome<Hostname>)
    requires i in {1, 3, 5} && WithHost(i, a).Ok?
    ensures Index(WithHost(i, a).value) == i
  { }

  lemma SenderIndex(f: Foreign, s: bytes)
    ensures ParseMailFrom(f, s).Ok? ==> ParseMailFrom(f, s).value.Mail?
  { }

  lemma RecipientIndex(f: Foreign, s: bytes)
    ensures ParseRcptTo(f, s).Ok? ==> ParseRcptTo(f, s).value.Rcpt?
  { }

  lemma MailIsMail(f: Foreign, s: bytes)
    ensures ParseMail(f, s).Ok? ==> ParseMail(f, s).value.Mail?
  {
    var a := Opt(IsA(BLANKS, s), s);
    if a.Ok? { SenderIndex(f, a.rest); }
  }

  lemma AfterAddress(f: Foreign, s: bytes)
    ensures ParseAfter(f, 6, s) == ParseMail(f, s) && ParseAfter(f, 9, s) == ParseRcpt(f, s)
  { }

  lemma RcptIsRcpt(f: Foreign, s: bytes)
    ensures ParseRcpt(f, s).Ok? ==> ParseRcpt(f, s).value.Rcpt?
  {
    var a := Opt(IsA(BLANKS, s), s);
    if a.Ok? { RecipientIndex(f, a.rest); }
  }

  lemma AddressIndex(i: nat, c: Command)
    requires if i == 6 then c.Mail? else i == 9 && c.Rcpt?
    ensures Index(c) == i
  { }

  lemma BareIndex(f: Foreign, i: nat, s: bytes)
    requires i in {0, 8, 10, 11} && ParseAfter(f, i, s).Ok?
    ensures Index(ParseAfter(f, i, s).value) == i
  {
    AfterEnd(f, i, s);
  }

  lemma AfterIndex(f: Foreign, i: nat, s: bytes)
    requires i < 13 && ParseAfter(f, i, s).Ok?
    ensures Index(ParseAfter(f, i, s).value) == i
  {
    if i == 6 || i == 9 {
      AfterAddress(f, s);
      MailIsMail(f, s);
      RcptIsRcpt(f, s);
      AddressIndex(i, ParseAfter(f, i, s).value);
    } else if i in {0, 8, 10, 11} {
      BareIndex(f, i, s);
    } else if i == 2 || i == 12 {
      AfterWord(f, i, s);
      WordIndex(i, ParseWord(s));
    } else if i == 4 || i == 7 {
      AfterOptionalWord(f, i, s);
      WordIndex(i, ParseOptionalWord(s));
    } else {
      AfterHost(f, i, s);
      HostIndex(i, ParseHost(f, s));
    }
  }

  lemma WordApart(f: Foreign, i: nat, s: bytes, verb: bytes) returns (y: Style)
    requires i in {2, 4, 7, 12} && ParseAfter(f, i, s).Ok? && Spelled(verb, Verb(ParseAfter(f, i, s).value))
    ensures Allowed(ParseAfter(f, i, s).value, y) && y.verb == verb && Apart(ParseAfter(f, i, s).value, s, y, ParseAfter(f, i, s).rest)
  {
    var lead, c, rest := [], ParseAfter(f, i, s).value, ParseAfter(f, i, s).rest;
    if i == 2 || i == 12 {
      AfterWord(f, i, s);
      lead := WordTook(s);
      y := TextApart(s, c, verb, ParseWord(s).value, lead, rest);
    } else {
      AfterOptionalWord(f, i, s);
      lead := OptionalWordTook(s);
      y := TextApart(s, c, verb, ParseOptionalWord(s).value, lead, rest);
    }
  }

  lemma SimpleApart(f: Foreign, i: nat, s: bytes, verb: bytes) returns (y: Style)
    requires i in {0, 1, 3, 5, 8, 10, 11} && ParseAfter(f, i, s).Ok? && Spelled(verb, Verb(ParseAfter(f, i, s).value))
    ensures Allowed(ParseAfter(f, i, s).value, y) && y.verb == verb && Apart(ParseAfter(f, i, s).value, s, y, ParseAfter(f, i, s).rest)
  {
    var c, rest := ParseAfter(f, i, s).value, ParseAfter(f, i, s).rest;
    AfterIndex(f, i, s);
    if i == 1 || i == 3 || i == 5 {
      AfterHello(f, c, s);
      y := HelloApart(f, s, c, verb, rest);
    } else {
      AfterBare(f, c, s);
      y := BareApart(s, c, verb, rest);
    }
  }

  lemma AfterApart(f: Foreign, i: nat, s: bytes, verb: bytes) returns (y: Style)
    requires i < 13 && ParseAfter(f, i, s).Ok? && Spelled(verb, Verb(ParseAfter(f, i, s).value))
    ensures Allowed(ParseAfter(f, i, s).value, y) && y.verb == verb && Apart(ParseAfter(f, i, s).value, s, y, ParseAfter(f, i, s).rest)
  {
    if i == 6 {
      y := MailApart(f, s, verb);
    } else if i == 9 {
      y := RcptApart(f, s, verb);
    } else if i in {2, 4, 7, 12} {
      y := WordApart(f, i, s, verb);
    } else {
      y := SimpleApart(f, i, s, verb);
    }
  }

  lemma AlternativeIs(f: Foreign, i: nat, s: bytes)
    requires i < 13 && ParseAlternative(f, i, s).Ok?
    ensures Begins(i, s) && ParseAlternative(f, i, s) == ParseAfter(f, i, s[|Keyword(i)|..])
  { }

  lemma KeywordApart(f: Foreign, i: nat, s: bytes)
    requires i < 13 && Begins(i, s) && ParseAfter(f, i, s[|Keyword(i)|..]).Ok?
    ensures Spelled(s[..|Keyword(i)|], Verb(ParseAfter(f, i, s[|Keyword(i)|..]).value))
  {
    var n := |Keyword(i)|;
    AfterIndex(f, i, s[n..]);
    assert forall k :: 0 <= k < n ==> s[..n][k] == s[k];
    SpelledIs(ParseAfter(f, i, s[n..]).value, s[..n]);
  }

  lemma Assembled(c: Command, s: bytes, n: nat, y: Style, rest: bytes)
    requires n <= |s| && y.verb == s[..n] && Apart(c, s[n..], y, rest)
    ensures s == Write(c, y) + rest
  {
    Then(s, s[..n], s[n..], y.lead + (WriteArguments(c, y) + (y.trail + [13, 10])), rest);
  }

  lemma AlternativeApart(f: Foreign, i: nat, s: bytes) returns (y: Style)
    requires i < 13 && ParseAlternative(f, i, s).Ok?
    ensures var r := ParseAlternative(f, i, s); Allowed(r.value, y) && s == Write(r.value, y) + r.rest
  {
    AlternativeIs(f, i, s);
    var n := |Keyword(i)|;
    var a := ParseAfter(f, i, s[n..]);
    KeywordApart(f, i, s);
    y := AfterApart(f, i, s[n..], s[..n]);
    Assembled(a.value, s, n, y, a.rest);
  }

  lemma FromIs(f: Foreign, i: nat, s: bytes)
    requires i <= 13 && ParseFrom(f, i, s).Ok?
    ensures i < 13 && ParseFrom(f, i, s) == if ParseAlternative(f, i, s).Ok? then ParseAlternative(f, i, s) else ParseFrom(f, i + 1, s)
  { }

  lemma {:induction false} FromApart(f: Foreign, i: nat, s: bytes) returns (y: Style)
    requires i <= 13 && ParseFrom(f, i, s).Ok?
    ensures var r := ParseFrom(f, i, s); Allowed(r.value, y) && s == Write(r.value, y) + r.rest
    decreases 13 - i
  {
    FromIs(f, i, s);
    if ParseAlternative(f, i, s).Ok? { y := AlternativeApart(f, i, s); } else { y := FromApart(f, i + 1, s); }
  }
}
