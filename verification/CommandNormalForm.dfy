/** Every command that can be read can be printed, and is then read as the same. */
module CommandNormalForm {
  import opened AddressSyntax
  import opened Automata
  import opened Bytes
  import opened Combinators
  import opened Commands
  import opened CommandReading
  import opened CommandSpelling
  import opened CommandSyntax
  import opened Framing
  import opened GrammarStability
  import opened Utf8

  // ------------------------------------------------------------------ names

  lemma UntilMatches(d: Dfa, term: set<byte>, s: bytes)
    requires ParseUntil(d, term, s).Ok?
    ensures var r := ParseUntil(d, term, s); Accepts(d, r.value) && s == r.value + r.rest && r.rest != [] && r.rest[0] in term
  {
    LongestIsLongest(d, s);
  }

  lemma ReadHostnameIsGood(f: Foreign, term: set<byte>, s: bytes)
    requires DelimitsHosts(term) && ParseHostname(f, term, s).Ok?
    ensures GoodHostname(f, ParseHostname(f, term, s).value)
  {
    var a, b := ParseUntil(HOSTNAME_ASCII, term, s), ParseUntil(HOSTNAME_UTF8, term, s);
    if a.Ok? { UntilMatches(HOSTNAME_ASCII, term, s); }
    if !a.Ok? || AsciiHostname(f, a.value).None? {
      UntilMatches(HOSTNAME_UTF8, term, s);
      if Accepts(HOSTNAME_ASCII, b.value) { AsciiHostnameFirst(f, term, b.value, b.rest); }
    }
  }

  /** A name that the first alternative matches is not left to the second. */
  lemma AsciiHostnameFirst(f: Foreign, term: set<byte>, raw: bytes, rest: bytes)
    requires DelimitsHosts(term) && rest != [] && rest[0] in term && Accepts(HOSTNAME_ASCII, raw) && Accepts(HOSTNAME_UTF8, raw)
    ensures ParseUntil(HOSTNAME_ASCII, term, raw + rest) == Ok(raw, rest) && AsciiHostname(f, raw).Some?
  {
    AddressesWellFormed();
    UntilReads(HOSTNAME_ASCII, term, raw, rest);
    Utf8PlusBytes(HostByte, raw);
  }

  lemma ReadLocalpartIsGood(term: set<byte>, s: bytes)
    requires Delimits(term) && ParseLocalpart(term, s).Ok?
    ensures GoodLocalpart(ParseLocalpart(term, s).value)
  {
    AddressesWellFormed();
    if ParseUntil(LOCALPART_ASCII, term, s).Ok? {
      UntilMatches(LOCALPART_ASCII, term, s);
    } else {
      UntilMatches(LOCALPART_UTF8, term, s);
      var b := ParseUntil(LOCALPART_UTF8, term, s);
      if Accepts(LOCALPART_ASCII, b.value) { UntilReads(LOCALPART_ASCII, term, b.value, b.rest); }
    }
  }

  lemma ReadValueIsGood(s: bytes)
    requires ParseValue(s).Ok?
    ensures GoodValue(ParseValue(s).value)
  {
    NamesWellFormed();
    if ParseUntil(VALUE_ASCII, WORD_END, s).Ok? {
      UntilMatches(VALUE_ASCII, WORD_END, s);
    } else {
      UntilMatches(VALUE_UTF8, WORD_END, s);
      var b := ParseUntil(VALUE_UTF8, WORD_END, s);
      if Accepts(VALUE_ASCII, b.value) {
        assert !ValueByte(b.rest[0]);
        UntilReads(VALUE_ASCII, WORD_END, b.value, b.rest);
      }
    }
  }

  // ------------------------------------------------------------------ addresses

  lemma ReadEmailIsGood(f: Foreign, term: set<byte>, s: bytes)
    requires Delimits(term) && ParseEmail(f, term, s).Ok?
    ensures GoodEmail(f, ParseEmail(f, term, s).value)
  {
    ReadLocalpartIsGood(term + {AT}, s);
    var s1 := ParseLocalpart(term + {AT}, s).rest;
    if ParseAtHostname(f, term, s1).Ok? { ReadHostnameIsGood(f, term, s1[1..]); }
  }

  lemma {:induction false} ReadHostsAreGood(f: Foreign, s: bytes)
    requires ParseMoreHosts(f, s).Ok?
    ensures forall i :: 0 <= i < |ParseMoreHosts(f, s).value| ==> GoodHostname(f, ParseMoreHosts(f, s).value[i])
    decreases |s|
  {
    var a := ParseNextHost(f, s);
    if a.Ok? {
      ReadAtHostnameIsGood(f, s[1..]);
      ReadHostsAreGood(f, a.rest);
    }
  }

  lemma ReadAtHostnameIsGood(f: Foreign, s: bytes)
    requires ParseAtHostname(f, {COLON, COMMA}, s).Ok?
    ensures GoodHostname(f, ParseAtHostname(f, {COLON, COMMA}, s).value)
  {
    RouteDelimits();
    ReadHostnameIsGood(f, {COLON, COMMA}, s[1..]);
  }

  lemma ReadPathIsGood(f: Foreign, s: bytes)
    requires ParsePath(f, s).Ok?
    ensures GoodPath(f, ParsePath(f, s).value)
  {
    ReadAtHostnameIsGood(f, s);
    ReadHostsAreGood(f, ParseAtHostname(f, {COLON, COMMA}, s).rest);
  }

  /** An address with its route, as they can be printed. */
  predicate GoodRouted(f: Foreign, a: (Option<Path>, Email)) {
    GoodEmail(f, a.1) && (a.0.Some? ==> GoodPath(f, a.0.value))
  }

  lemma ReadRoutedIsGood(f: Foreign, term: set<byte>, s: bytes)
    requires Delimits(term) && ParseRoutedEmail(f, term, s).Ok?
    ensures GoodRouted(f, ParseRoutedEmail(f, term, s).value)
  {
    if ParsePath(f, s).Ok? { ReadPathIsGood(f, s); }
    ReadEmailIsGood(f, term, Opt(ParsePath(f, s), s).rest);
  }

  lemma ReadAddressIsGood(f: Foreign, s: bytes)
    requires ParseEmailWithPath(f, WORD_END, s).Ok?
    ensures GoodRouted(f, ParseEmailWithPath(f, WORD_END, s).value)
  {
    WordEndDelimits();
    if ParseBracketed(f, WORD_END, s).Ok? {
      ReadRoutedIsGood(f, WORD_END + {GT}, s[1..]);
    } else {
      ReadRoutedIsGood(f, WORD_END, s);
    }
  }

  // ------------------------------------------------------------------ parameters and words

  lemma ReadParameterIsGood(s: bytes)
    requires ParseNamed(s).Ok?
    ensures GoodParameter(ParseNamed(s).value)
  {
    LongestIsLongest(PARAMETER_NAME, s);
    var s1 := ApplyRegex(PARAMETER_NAME, s).rest;
    if ParseEqualsValue(s1).Ok? { ReadValueIsGood(s1[1..]); }
  }

  lemma {:induction false} ReadParametersAreGood(s: bytes)
    requires ParseParameters(s).Ok?
    ensures forall i :: 0 <= i < |ParseParameters(s).value| ==> GoodParameter(ParseParameters(s).value[i])
    decreases |s|
  {
    var a := ParseParameter(s);
    if a.Ok? {
      ReadParameterIsGood(IsA(BLANKS, s).rest);
      ReadParametersAreGood(a.rest);
    }
  }

  lemma ReadLineHasNoEnd(s: bytes)
    requires ParseLine(s).Ok?
    ensures LineEnd(ParseLine(s).value).None?
  {
    LineIs(s);
    LineEndIsFirst(s);
    var w := ParseLine(s).value;
    LineEndIsFirst(w);
    assert forall j :: CrLfAt(w, j) ==> CrLfAt(s, j);
  }

  /** The word of a command, if it is one. */
  lemma ReadWordIsGood(i: nat, s: bytes, a: Outcome<bytes>)
    requires i in {2, 4, 7, 12} && (a == ParseWord(s) || a == ParseOptionalWord(s)) && WithWord(i, a).Ok?
    ensures GoodWord(AsText(a.value))
  {
    if ParseWord(s).Ok? { ReadLineHasNoEnd(s[1..]); }
  }

  // ------------------------------------------------------------------ commands

  lemma ReadMailIsGood(f: Foreign, s: bytes)
    requires ParseMailFrom(f, s).Ok?
    ensures Good(f, ParseMailFrom(f, s).value)
  {
    if ParseEmailWithPath(f, WORD_END, s).Ok? { ReadAddressIsGood(f, s); }
    ReadParametersAreGood(ParseSender(f, s).rest);
  }

  lemma ReadRcptIsGood(f: Foreign, s: bytes)
    requires ParseRcptTo(f, s).Ok?
    ensures Good(f, ParseRcptTo(f, s).value)
  {
    ReadAddressIsGood(f, s);
    ReadParametersAreGood(ParseEmailWithPath(f, WORD_END, s).rest);
  }

  lemma ReadHostIsGood(f: Foreign, s: bytes)
    requires ParseHost(f, s).Ok?
    ensures GoodHostname(f, ParseHost(f, s).value)
  {
    WordEndDelimits();
    ReadHostnameIsGood(f, WORD_END, IsA(BLANKS, s).rest);
  }

  lemma ReadSimpleIsGood(f: Foreign, i: nat, s: bytes)
    requires ParseSimple(f, i, s).Ok?
    ensures Good(f, ParseSimple(f, i, s).value)
  {
    if i == 1 || i == 3 || i == 5 {
      ReadHostIsGood(f, s);
    } else if i == 2 || i == 12 {
      ReadWordIsGood(i, s, ParseWord(s));
    } else if i == 4 || i == 7 {
      ReadWordIsGood(i, s, ParseOptionalWord(s));
    }
  }

  lemma ReadAfterIsGood(f: Foreign, i: nat, s: bytes)
    requires ParseAfter(f, i, s).Ok?
    ensures Good(f, ParseAfter(f, i, s).value)
  {
    if i == 6 {
      ReadMailIsGood(f, Opt(IsA(BLANKS, s), s).rest);
    } else if i == 9 {
      ReadRcptIsGood(f, Opt(IsA(BLANKS, s), s).rest);
    } else {
      ReadSimpleIsGood(f, i, s);
    }
  }

  lemma {:induction false} ReadFromIsGood(f: Foreign, i: nat, s: bytes)
    requires i <= 13 && ParseFrom(f, i, s).Ok?
    ensures Good(f, ParseFrom(f, i, s).value)
    decreases 13 - i
  {
    if ParseAlternative(f, i, s).Error? {
      ReadFromIsGood(f, i + 1, s);
    } else {
      ReadAfterIsGood(f, i, TagNoCase(Keyword(i), s).rest);
    }
  }

  /** What can be printed so that it is read back is what can be read. */
  lemma GoodIff(f: Foreign, c: Command)
    ensures Good(f, c) <==> exists s :: ParseCommand(f, s).Ok? && ParseCommand(f, s).value == c
  {
    if Good(f, c) {
      CommandRoundTrip(f, c, []);
      assert ParseCommand(f, Print(c) + []).Ok?;
    } else {
      forall s | ParseCommand(f, s).Ok? ensures ParseCommand(f, s).value != c { ReadFromIsGood(f, 0, s); }
    }
  }

  /** A line that is read as a command, printed again and followed by anything, is read as the same command. */
  lemma ReadPrintedAgain(f: Foreign, s: bytes, rest: bytes)
    requires ParseCommand(f, s).Ok?
    ensures ParseCommand(f, Print(ParseCommand(f, s).value) + rest) == Ok(ParseCommand(f, s).value, rest)
  {
    ReadFromIsGood(f, 0, s);
    CommandRoundTrip(f, ParseCommand(f, s).value, rest);
  }

  /**
   What the parser takes for a command: the spellings of the commands that can be
   printed, and nothing else; and it leaves exactly what follows the line.
   */
  lemma CommandIs(f: Foreign, s: bytes, c: Command, rest: bytes)
    ensures ParseCommand(f, s) == Ok(c, rest) <==> Good(f, c) && exists y :: Allowed(c, y) && s == Write(c, y) + rest
  {
    if ParseCommand(f, s) == Ok(c, rest) {
      ReadFromIsGood(f, 0, s);
      var y := FromApart(f, 0, s);
    }
    if y :| Good(f, c) && Allowed(c, y) && s == Write(c, y) + rest { SpellingReads(f, c, y, rest); }
  }
}
