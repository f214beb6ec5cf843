/** The grammar of host names, mailboxes and source routes. */
module AddressSyntax {
  import opened Automata
  import opened Bytes
  import opened Combinators
  import opened Commands
  import opened Framing
  import opened Utf8

  const TAB: byte := 9
  const QUOTE: byte := 34
  const COMMA: byte := 44
  const COLON: byte := 58
  const LT: byte := 60
  const GT: byte := 62
  const AT: byte := 64
  const LBRACKET: byte := 91
  const BACKSLASH: byte := 92
  const RBRACKET: byte := 93

  /** What is left to other libraries: reading IP addresses, and encoding host names that are not ASCII. */
  datatype Foreign = Foreign(isIpv6: bytes -> bool, isIpv4: bytes -> bool, hasPunycode: bytes -> bool)

  predicate Alnum(b: byte) { Digit(b) || 65 <= b <= 90 || 97 <= b <= 122 }

  predicate Control(b: byte) { b < 32 || b == 127 }

  // ------------------------------------------------------------------ regular expressions

  /** Like `AsciiOf` and `Utf8Of`, with one character at least; state 9 is the start. */
  function AsciiPlus(ascii: byte -> bool): Dfa {
    Dfa(9, (q, b) => if (q == 9 || q == 1) && b < 0x80 && ascii(b) then 1 else DEAD, q => q == 1)
  }

  function Utf8Plus(ascii: byte -> bool): Dfa {
    Dfa(9, (q, b) => NextUtf8(ascii, if q == 9 then 1 else q, b), q => q == 1)
  }

  predicate AddressByte(b: byte) { b == COLON || b == DOT || Digit(b) || 65 <= b <= 70 || 97 <= b <= 102 }

  /** State 2 ends a label of a domain, 4 and 5 are after a dash or dot in it, 13 is after a bracketed address. */
  function NextHostname(q: nat, b: byte): nat {
    if q == 1 then if Alnum(b) then 2 else if b == LBRACKET then 3 else DEAD
    else if q == 2 then if Alnum(b) then 2 else if b == DASH then 4 else if b == DOT then 5 else DEAD
    else if q == 4 then if Alnum(b) then 2 else if b == DASH then 4 else DEAD
    else if q == 5 then if Alnum(b) then 2 else DEAD
    else if q == 3 then if b == 73 then 6 else if Digit(b) || b == DOT then 11 else DEAD
    else if q == 6 then if b == 80 then 7 else DEAD
    else if q == 7 then if b == 118 then 8 else DEAD
    else if q == 8 then if b == 54 then 9 else DEAD
    else if q == 9 then if b == COLON then 10 else DEAD
    else if q == 10 then if AddressByte(b) then 12 else DEAD
    else if q == 12 then if AddressByte(b) then 12 else if b == RBRACKET then 13 else DEAD
    else if q == 11 then if Digit(b) || b == DOT then 11 else if b == RBRACKET then 13 else DEAD
    else DEAD
  }

  const HOSTNAME_ASCII: Dfa := Dfa(1, NextHostname, q => q == 2 || q == 13)

  predicate HostByte(b: byte) { b == DASH || b == DOT || Alnum(b) }

  const HOSTNAME_UTF8: Dfa := Utf8Plus(HostByte)

  /**
   The characters of a dot-string. The source writes `+-/` where it means three
   characters, and gets the range from `+` to `/`, comma and dot included.
   */
  predicate AtomByte(b: byte) {
    || Alnum(b) || b == 33 || 35 <= b <= 39 || b == 42 || 43 <= b <= 47 || b == 61 || b == 63
    || 94 <= b <= 96 || 123 <= b <= 126
  }

  /** State 2 is in a dot-string; 3, 4 and 5 are in a quoted string, empty so far, not empty, and after a backslash; 6 is after it. */
  function NextLocalpart(q: nat, b: byte): nat {
    if q == 1 then if AtomByte(b) then 2 else if b == QUOTE then 3 else DEAD
    else if q == 2 then if AtomByte(b) then 2 else DEAD
    else if q == 3 || q == 4 then
      if b == BACKSLASH then 5
      else if b == QUOTE then if q == 4 then 6 else DEAD
      else if b < 0x80 && !Control(b) then 4 else DEAD
    else if q == 5 then if b < 0x80 && !Control(b) then 4 else DEAD
    else DEAD
  }

  const LOCALPART_ASCII: Dfa := Dfa(1, NextLocalpart, q => q == 2 || q == 6)

  /** The same with all characters: 1 to 8 are in a dot-string, 31 to 38 in a quoted string, as states of UTF-8 reading. */
  function NextLocalpartUtf8(q: nat, b: byte): nat {
    if q == 9 then if b == QUOTE then 30 else NextUtf8(AtomByte, 1, b)
    else if 1 <= q <= 8 then NextUtf8(AtomByte, q, b)
    else if q == 30 || q == 31 then
      if b == BACKSLASH then 41
      else if b == QUOTE then if q == 31 then 50 else DEAD
      else InQuotes(NextUtf8(b => !Control(b), 1, b))
    else if 32 <= q <= 38 then InQuotes(NextUtf8(AnyByte, q - 30, b))
    else if q == 41 then InQuotes(NextUtf8(b => !Control(b), 1, b))
    else DEAD
  }

  function InQuotes(u: nat): nat { if u == DEAD then DEAD else 30 + u }

  const LOCALPART_UTF8: Dfa := Dfa(9, NextLocalpartUtf8, q => q == 1 || q == 50)

  // ------------------------------------------------------------------ the parsers

  /** A match that is followed by one of `term`. */
  function ParseUntil(d: Dfa, term: set<byte>, s: bytes): Outcome<bytes> {
    match ApplyRegex(d, s)
    case Ok(w, s1) => As(w, Peek(OneOf(term, s1), s1))
    case Error => Error
    case Incomplete => Incomplete
  }

  function AsciiHostname(f: Foreign, raw: bytes): Option<Hostname> {
    if |raw| == 0 || raw[0] != LBRACKET then Some(AsciiDomain(raw))
    else if |raw| >= 7 && raw[1] == 73 then if f.isIpv6(raw[6..|raw| - 1]) then Some(Ipv6(raw)) else None
    else if |raw| >= 2 && f.isIpv4(raw[1..|raw| - 1]) then Some(Ipv4(raw)) else None
  }

  function ParseAsciiHostname(f: Foreign, term: set<byte>, s: bytes): Outcome<Hostname> {
    match ParseUntil(HOSTNAME_ASCII, term, s)
    case Ok(raw, s1) => (match AsciiHostname(f, raw) { case Some(h) => Ok(h, s1) case None => Error })
    case Error => Error
    case Incomplete => Incomplete
  }

  function ParseUtf8Hostname(f: Foreign, term: set<byte>, s: bytes): Outcome<Hostname> {
    match ParseUntil(HOSTNAME_UTF8, term, s)
    case Ok(raw, s1) => if f.hasPunycode(raw) then Ok(Utf8Domain(raw), s1) else Error
    case Error => Error
    case Incomplete => Incomplete
  }

  function ParseHostname(f: Foreign, term: set<byte>, s: bytes): Outcome<Hostname> {
    Alt(ParseAsciiHostname(f, term, s), ParseUtf8Hostname(f, term, s))
  }

  function ParseLocalpart(term: set<byte>, s: bytes): Outcome<Localpart> {
    Alt((match ParseUntil(LOCALPART_ASCII, term, s)
         case Ok(raw, s1) => Ok(if |raw| > 0 && raw[0] == QUOTE then QuotedAscii(raw) else AsciiLocalpart(raw), s1)
         case Error => Error
         case Incomplete => Incomplete),
        (match ParseUntil(LOCALPART_UTF8, term, s)
         case Ok(raw, s1) => Ok(if |raw| > 0 && raw[0] == QUOTE then QuotedUtf8(raw) else Utf8Localpart(raw), s1)
         case Error => Error
         case Incomplete => Incomplete))
  }

  /** A host name after `@`. */
  function ParseAtHostname(f: Foreign, term: set<byte>, s: bytes): Outcome<Hostname> {
    match Tag([AT], s)
    case Ok(_, s1) => ParseHostname(f, term, s1)
    case Error => Error
    case Incomplete => Incomplete
  }

  function ParseEmail(f: Foreign, term: set<byte>, s: bytes): Outcome<Email> {
    match ParseLocalpart(term + {AT}, s)
    case Error => Error
    case Incomplete => Incomplete
    case Ok(localpart, s1) =>
      match Opt(ParseAtHostname(f, term, s1), s1)
      case Error => Error
      case Incomplete => Incomplete
      case Ok(hostname, s2) => Ok(Email(localpart, hostname), s2)
  }

  function ParseNextHost(f: Foreign, s: bytes): Outcome<Hostname> {
    match Tag([COMMA], s)
    case Ok(_, s1) => ParseAtHostname(f, {COLON, COMMA}, s1)
    case Error => Error
    case Incomplete => Incomplete
  }

  /** The further host names of a route, each after a comma; a comma without one is left. */
  function ParseMoreHosts(f: Foreign, s: bytes): Outcome<seq<Hostname>>
    decreases |s|
  {
    match ParseNextHost(f, s)
    case Error => Ok([], s)
    case Incomplete => Incomplete
    case Ok(host, s1) =>
      if |s1| >= |s| then Error
      else
        match ParseMoreHosts(f, s1)
        case Ok(hosts, s2) => Ok([host] + hosts, s2)
        case Error => Error
        case Incomplete => Incomplete
  }

  function ParseRouteEnd(f: Foreign, s: bytes): Outcome<seq<Hostname>> {
    match ParseMoreHosts(f, s)
    case Ok(hosts, s1) => As(hosts, Tag([COLON], s1))
    case Error => Error
    case Incomplete => Incomplete
  }

  /** A route and the colon after it. */
  function ParsePath(f: Foreign, s: bytes): Outcome<Path> {
    match ParseAtHostname(f, {COLON, COMMA}, s)
    case Error => Error
    case Incomplete => Incomplete
    case Ok(host, s1) =>
      match ParseRouteEnd(f, s1)
      case Ok(hosts, s2) => Ok(Path([host] + hosts), s2)
      case Error => Error
      case Incomplete => Incomplete
  }

  function ParseRoutedEmail(f: Foreign, term: set<byte>, s: bytes): Outcome<(Option<Path>, Email)> {
    match Opt(ParsePath(f, s), s)
    case Error => Error
    case Incomplete => Incomplete
    case Ok(path, s1) =>
      match ParseEmail(f, term, s1)
      case Ok(email, s2) => Ok((path, email), s2)
      case Error => Error
      case Incomplete => Incomplete
  }

  function ParseUntilGt(f: Foreign, term: set<byte>, s: bytes): Outcome<(Option<Path>, Email)> {
    match ParseRoutedEmail(f, term + {GT}, s)
    case Ok(email, s1) => As(email, Tag([GT], s1))
    case Error => Error
    case Incomplete => Incomplete
  }

  function ParseBracketed(f: Foreign, term: set<byte>, s: bytes): Outcome<(Option<Path>, Email)> {
    match Tag([LT], s)
    case Ok(_, s1) => ParseUntilGt(f, term, s1)
    case Error => Error
    case Incomplete => Incomplete
  }

  function ParseEmailWithPath(f: Foreign, term: set<byte>, s: bytes): Outcome<(Option<Path>, Email)> {
    Alt(ParseBracketed(f, term, s), ParseRoutedEmail(f, term, s))
  }

  // ------------------------------------------------------------------ the printers

  function PrintEmail(e: Email): bytes {
    e.localpart.raw + match e.hostname { case Some(h) => [AT] + h.raw case None => [] }
  }

  function PrintHosts(hosts: seq<Hostname>): bytes {
    if hosts == [] then [] else ([COMMA, AT] + hosts[0].raw) + PrintHosts(hosts[1..])
  }

  /** The hosts of a route, the first after `@` and the others after `,@`. */
  function PrintPath(p: Path): bytes {
    if p.domains == [] then [] else ([AT] + p.domains[0].raw) + PrintHosts(p.domains[1..])
  }

  function PrintRoutedEmail(path: Option<Path>, e: Email): bytes {
    (match path { case Some(p) => PrintPath(p) + [COLON] case None => [] }) + PrintEmail(e)
  }

  // ------------------------------------------------------------------ what can be printed

  predicate GoodHostname(f: Foreign, h: Hostname) {
    if h.Utf8Domain? then Accepts(HOSTNAME_UTF8, h.raw) && !Accepts(HOSTNAME_ASCII, h.raw) && f.hasPunycode(h.raw)
    else Accepts(HOSTNAME_ASCII, h.raw) && AsciiHostname(f, h.raw) == Some(h)
  }

  predicate GoodLocalpart(l: Localpart) {
    var quoted := |l.raw| > 0 && l.raw[0] == QUOTE;
    if Accepts(LOCALPART_ASCII, l.raw) then l == if quoted then QuotedAscii(l.raw) else AsciiLocalpart(l.raw)
    else Accepts(LOCALPART_UTF8, l.raw) && l == if quoted then QuotedUtf8(l.raw) else Utf8Localpart(l.raw)
  }

  predicate AsciiEmail(e: Email) {
    Accepts(LOCALPART_ASCII, e.localpart.raw) && (e.hostname.Some? ==> !e.hostname.value.Utf8Domain?)
  }

  /** Bytes that can be in no host name. */
  predicate DelimitsHosts(term: set<byte>) {
    forall b :: b in term ==> b < 0x80 && !HostByte(b)
  }

  /** Bytes that can be in no name. */
  predicate Delimits(term: set<byte>) {
    forall b :: b in term ==> b < 0x80 && !AtomByte(b)
  }

  predicate GoodEmail(f: Foreign, e: Email) {
    GoodLocalpart(e.localpart) && (e.hostname.Some? ==> GoodHostname(f, e.hostname.value))
  }

  predicate GoodPath(f: Foreign, p: Path) {
    p.domains != [] && forall i :: 0 <= i < |p.domains| ==> GoodHostname(f, p.domains[i])
  }

  // ------------------------------------------------------------------ round trips

  lemma UntilReads(d: Dfa, term: set<byte>, w: bytes, rest: bytes)
    requires WellFormed(d) && Accepts(d, w) && rest != [] && rest[0] in term && d.next(Run(d, w), rest[0]) == DEAD
    ensures ParseUntil(d, term, w + rest) == Ok(w, rest)
  {
    MatchThenDead(d, w, rest);
  }

  /** Where no match is followed by one of `term`. */
  lemma UntilFails(d: Dfa, term: set<byte>, w: bytes, rest: bytes)
    requires WellFormed(d) && !Accepts(d, w) && rest != [] && d.next(Run(d, w), rest[0]) == DEAD
    requires forall k: nat {:trigger w[..k]} :: k < |w| && Accepts(d, w[..k]) ==> w[k] !in term
    ensures ParseUntil(d, term, w + rest).Error?
  {
    var s := w + rest;
    assert s[..|w| + 1][..|w|] == s[..|w|] == w && s[..|s|] == s;
    forall k: nat | |w| < k <= |s| ensures Run(d, s[..k]) == DEAD { DeadEnds(d, s, |w| + 1, k); }
    LongestIsLongest(d, s);
    if Longest(d, s).Some? { assert s[..Longest(d, s).value] == w[..Longest(d, s).value]; }
  }

  lemma AddressesWellFormed()
    ensures WellFormed(HOSTNAME_ASCII) && WellFormed(LOCALPART_ASCII) && WellFormed(LOCALPART_UTF8)
  { }

  lemma Utf8PlusWellFormed(ascii: byte -> bool)
    ensures WellFormed(Utf8Plus(ascii))
  {
    forall b ensures Utf8Plus(ascii).next(DEAD, b) == DEAD { assert NextUtf8(ascii, DEAD, b) == DEAD; }
  }

  lemma {:induction false} Utf8PlusBytes(ascii: byte -> bool, s: bytes)
    requires Run(Utf8Plus(ascii), s) != DEAD
    ensures forall i :: 0 <= i < |s| ==> s[i] >= 0x80 || ascii(s[i])
    decreases |s|
  {
    if s != [] {
      Utf8PlusWellFormed(ascii);
      var q, b := Run(Utf8Plus(ascii), s[..|s| - 1]), s[|s| - 1];
      assert Run(Utf8Plus(ascii), s) == NextUtf8(ascii, if q == 9 then 1 else q, b);
      Utf8PlusBytes(ascii, s[..|s| - 1]);
    }
  }

  lemma {:induction false} NoBrackets(s: bytes)
    requires forall i :: 0 <= i < |s| ==> s[i] >= 0x80 || HostByte(s[i])
    ensures Run(HOSTNAME_ASCII, s) in (if s == [] then {1} else {2, 4, 5, DEAD})
    decreases |s|
  {
    if s != [] { NoBrackets(s[..|s| - 1]); }
  }

  lemma Utf8HostnameReads(f: Foreign, term: set<byte>, h: Hostname, rest: bytes)
    requires GoodHostname(f, h) && h.Utf8Domain? && DelimitsHosts(term) && rest != [] && rest[0] in term
    ensures ParseHostname(f, term, h.raw + rest) == Ok(h, rest)
  {
    AddressesWellFormed();
    Utf8PlusWellFormed(HostByte);
    Utf8PlusBytes(HostByte, h.raw);
    NoBrackets(h.raw);
    assert NextUtf8(HostByte, 1, rest[0]) == DEAD;
    UntilFails(HOSTNAME_ASCII, term, h.raw, rest);
    UntilReads(HOSTNAME_UTF8, term, h.raw, rest);
  }

  lemma HostnameReads(f: Foreign, term: set<byte>, h: Hostname, rest: bytes)
    requires GoodHostname(f, h) && rest != [] && rest[0] in term && !HostByte(rest[0]) && (h.Utf8Domain? ==> DelimitsHosts(term))
    ensures ParseHostname(f, term, h.raw + rest) == Ok(h, rest)
  {
    if h.Utf8Domain? {
      Utf8HostnameReads(f, term, h, rest);
    } else {
      AddressesWellFormed();
      UntilReads(HOSTNAME_ASCII, term, h.raw, rest);
    }
  }

  lemma AtHostnameReads(f: Foreign, term: set<byte>, h: Hostname, rest: bytes)
    requires GoodHostname(f, h) && rest != [] && rest[0] in term && !HostByte(rest[0]) && (h.Utf8Domain? ==> DelimitsHosts(term))
    ensures ParseAtHostname(f, term, [AT] + (h.raw + rest)) == Ok(h, rest)
  {
    assert ([AT] + (h.raw + rest))[1..] == h.raw + rest;
    HostnameReads(f, term, h, rest);
  }

  /** The state of the second alternative where the first is in state `q`. */
  function Wider(q: nat): nat {
    if q == 1 then 9 else if q == 2 then 1 else if q == 3 then 30 else if q == 4 then 31 else if q == 5 then 41 else 50
  }

  lemma {:induction false} LocalpartIsWider(s: bytes)
    requires Run(LOCALPART_ASCII, s) != DEAD
    ensures 1 <= Run(LOCALPART_ASCII, s) <= 6 && Run(LOCALPART_UTF8, s) == Wider(Run(LOCALPART_ASCII, s))
    decreases |s|
  {
    if s != [] { LocalpartIsWider(s[..|s| - 1]); }
  }

  /** In a localpart that is not ASCII, what the first alternative matches is followed by more of it. */
  lemma LocalpartGoesOn(raw: bytes, k: nat)
    requires Accepts(LOCALPART_UTF8, raw) && k < |raw| && Accepts(LOCALPART_ASCII, raw[..k])
    ensures raw[k] >= 0x80 || AtomByte(raw[k])
  {
    AddressesWellFormed();
    LocalpartIsWider(raw[..k]);
    assert raw[..k + 1][..k] == raw[..k] && raw[..|raw|] == raw;
    if Run(LOCALPART_UTF8, raw[..k + 1]) == DEAD { DeadEnds(LOCALPART_UTF8, raw, k + 1, |raw|); }
    assert Run(LOCALPART_UTF8, raw[..k + 1]) == NextLocalpartUtf8(Run(LOCALPART_UTF8, raw[..k]), raw[k]);
  }

  lemma Utf8LocalpartReads(term: set<byte>, l: Localpart, rest: bytes)
    requires GoodLocalpart(l) && !Accepts(LOCALPART_ASCII, l.raw) && Delimits(term) && rest != [] && rest[0] in term
    ensures ParseLocalpart(term, l.raw + rest) == Ok(l, rest)
  {
    AddressesWellFormed();
    if Run(LOCALPART_ASCII, l.raw) != DEAD { LocalpartIsWider(l.raw); }
    forall k: nat | k < |l.raw| && Accepts(LOCALPART_ASCII, l.raw[..k]) ensures l.raw[k] !in term { LocalpartGoesOn(l.raw, k); }
    UntilFails(LOCALPART_ASCII, term, l.raw, rest);
    UntilReads(LOCALPART_UTF8, term, l.raw, rest);
  }

  lemma LocalpartReads(term: set<byte>, l: Localpart, rest: bytes)
    requires GoodLocalpart(l) && rest != [] && rest[0] in term && !AtomByte(rest[0])
    requires Accepts(LOCALPART_ASCII, l.raw) || Delimits(term)
    ensures ParseLocalpart(term, l.raw + rest) == Ok(l, rest)
  {
    if Accepts(LOCALPART_ASCII, l.raw) {
      AddressesWellFormed();
      UntilReads(LOCALPART_ASCII, term, l.raw, rest);
    } else {
      Utf8LocalpartReads(term, l, rest);
    }
  }

  lemma EmailReads(f: Foreign, term: set<byte>, e: Email, rest: bytes)
    requires GoodEmail(f, e) && rest != [] && rest[0] in term && rest[0] != AT && !AtomByte(rest[0])
    requires AsciiEmail(e) || Delimits(term)
    ensures ParseEmail(f, term, PrintEmail(e) + rest) == Ok(e, rest)
  {
    match e.hostname
    case Some(h) =>
      var s1 := [AT] + (h.raw + rest);
      assert PrintEmail(e) + rest == e.localpart.raw + s1;
      LocalpartReads(term + {AT}, e.localpart, s1);
      AtHostnameReads(f, term, h, rest);
    case None =>
      assert PrintEmail(e) + rest == e.localpart.raw + rest;
      LocalpartReads(term + {AT}, e.localpart, rest);
      assert ParseAtHostname(f, term, rest) == Error;
  }

  lemma MoreHostsStep(f: Foreign, s: bytes, s1: bytes, h: Hostname, s2: bytes, hosts: seq<Hostname>, rest: bytes)
    requires s == [COMMA] + s1 && ParseAtHostname(f, {COLON, COMMA}, s1) == Ok(h, s2) && |s2| < |s|
    requires ParseMoreHosts(f, s2) == Ok(hosts, rest)
    ensures ParseMoreHosts(f, s) == Ok([h] + hosts, rest)
  {
    assert s[1..] == s1;
  }

  /** After a printed host comes a comma or the colon. */
  lemma NextHost(hosts: seq<Hostname>, rest: bytes)
    requires rest != [] && rest[0] == COLON
    ensures var s := PrintHosts(hosts) + rest; s != [] && (s[0] == COMMA || s[0] == COLON)
  {
    if hosts == [] { assert PrintHosts(hosts) + rest == rest; }
  }

  lemma HostAndRest(raw: bytes, more: bytes, rest: bytes)
    ensures (([COMMA, AT] + raw) + more) + rest == [COMMA] + ([AT] + (raw + (more + rest)))
  { }

  lemma NoMoreHosts(f: Foreign, rest: bytes)
    requires rest != [] && rest[0] == COLON
    ensures ParseMoreHosts(f, rest) == Ok([], rest)
  { }

  lemma AtRouteHost(f: Foreign, h: Hostname, more: bytes)
    requires GoodHostname(f, h) && more != [] && (more[0] == COLON || more[0] == COMMA)
    ensures ParseAtHostname(f, {COLON, COMMA}, [AT] + (h.raw + more)) == Ok(h, more)
  {
    RouteDelimits();
    AtHostnameReads(f, {COLON, COMMA}, h, more);
  }

  lemma RouteDelimits()
    ensures !HostByte(COLON) && !HostByte(COMMA) && DelimitsHosts({COLON, COMMA})
  { }

  lemma RouteHostReads(f: Foreign, h: Hostname, hosts: seq<Hostname>, rest: bytes)
    requires GoodHostname(f, h) && rest != [] && rest[0] == COLON
    ensures ParseAtHostname(f, {COLON, COMMA}, [AT] + (h.raw + (PrintHosts(hosts) + rest))) == Ok(h, PrintHosts(hosts) + rest)
  {
    NextHost(hosts, rest);
    AtRouteHost(f, h, PrintHosts(hosts) + rest);
  }

  lemma OneMoreHost(f: Foreign, h: Hostname, hosts: seq<Hostname>, rest: bytes)
    requires GoodHostname(f, h) && rest != [] && rest[0] == COLON
    requires ParseMoreHosts(f, PrintHosts(hosts) + rest) == Ok(hosts, rest)
    ensures ParseMoreHosts(f, [COMMA] + ([AT] + (h.raw + (PrintHosts(hosts) + rest)))) == Ok([h] + hosts, rest)
  {
    var more := PrintHosts(hosts) + rest;
    RouteHostReads(f, h, hosts, rest);
    MoreHostsStep(f, [COMMA] + ([AT] + (h.raw + more)), [AT] + (h.raw + more), h, more, hosts, rest);
  }

  lemma {:induction false} MoreHostsRead(f: Foreign, hosts: seq<Hostname>, rest: bytes)
    requires (forall i :: 0 <= i < |hosts| ==> GoodHostname(f, hosts[i])) && rest != [] && rest[0] == COLON
    ensures ParseMoreHosts(f, PrintHosts(hosts) + rest) == Ok(hosts, rest)
    decreases |hosts|
  {
    if hosts == [] {
      assert PrintHosts(hosts) + rest == rest;
      NoMoreHosts(f, rest);
    } else {
      MoreHostsRead(f, hosts[1..], rest);
      OneMoreHost(f, hosts[0], hosts[1..], rest);
      PrintedHosts(hosts, rest);
    }
  }

  lemma PrintedHosts(hosts: seq<Hostname>, rest: bytes)
    requires hosts != []
    ensures PrintHosts(hosts) + rest == [COMMA] + ([AT] + (hosts[0].raw + (PrintHosts(hosts[1..]) + rest))) && [hosts[0]] + hosts[1..] == hosts
  {
    HostAndRest(hosts[0].raw, PrintHosts(hosts[1..]), rest);
  }

  lemma PathAndRest(raw: bytes, more: bytes, rest: bytes)
    ensures ((([AT] + raw) + more) + [COLON]) + rest == [AT] + (raw + (more + ([COLON] + rest)))
  { }

  lemma PathOf(f: Foreign, s: bytes, h: Hostname, s1: bytes, hosts: seq<Hostname>, rest: bytes)
    requires ParseAtHostname(f, {COLON, COMMA}, s) == Ok(h, s1) && ParseMoreHosts(f, s1) == Ok(hosts, [COLON] + rest)
    ensures ParsePath(f, s) == Ok(Path([h] + hosts), rest)
  {
    assert ([COLON] + rest)[1..] == rest;
  }

  lemma RouteReads(f: Foreign, h: Hostname, hosts: seq<Hostname>, rest: bytes)
    requires GoodHostname(f, h) && forall i :: 0 <= i < |hosts| ==> GoodHostname(f, hosts[i])
    ensures ParsePath(f, [AT] + (h.raw + (PrintHosts(hosts) + ([COLON] + rest)))) == Ok(Path([h] + hosts), rest)
  {
    var colon := [COLON] + rest;
    var more := PrintHosts(hosts) + colon;
    RouteHostReads(f, h, hosts, colon);
    MoreHostsRead(f, hosts, colon);
    PathOf(f, [AT] + (h.raw + more), h, more, hosts, rest);
  }

  lemma PathReads(f: Foreign, p: Path, rest: bytes)
    requires GoodPath(f, p)
    ensures ParsePath(f, (PrintPath(p) + [COLON]) + rest) == Ok(p, rest)
  {
    var h, hosts := p.domains[0], p.domains[1..];
    PathAndRest(h.raw, PrintHosts(hosts), rest);
    RouteReads(f, h, hosts, rest);
    assert [h] + hosts == p.domains;
  }

  /** No localpart begins as a route does. */
  lemma {:induction false} LocalpartStart(l: Localpart)
    requires GoodLocalpart(l)
    ensures l.raw != [] && (AtomByte(l.raw[0]) || l.raw[0] == QUOTE || l.raw[0] >= 0x80)
  {
    AddressesWellFormed();
    if l.raw != [] && !AtomByte(l.raw[0]) && l.raw[0] != QUOTE && l.raw[0] < 0x80 {
      assert l.raw[..1][..0] == [] && l.raw[..|l.raw|] == l.raw;
      DeadEnds(LOCALPART_ASCII, l.raw, 1, |l.raw|);
      DeadEnds(LOCALPART_UTF8, l.raw, 1, |l.raw|);
    }
  }

  lemma NoRoute(f: Foreign, l: Localpart, rest: bytes)
    requires GoodLocalpart(l)
    ensures ParsePath(f, l.raw + rest) == Error
  {
    LocalpartStart(l);
    assert (l.raw + rest)[0] == l.raw[0] != AT;
  }

  lemma PlainEmailReads(f: Foreign, term: set<byte>, e: Email, rest: bytes)
    requires GoodEmail(f, e) && rest != [] && rest[0] in term && rest[0] != AT && !AtomByte(rest[0])
    requires AsciiEmail(e) || Delimits(term)
    ensures ParseRoutedEmail(f, term, PrintEmail(e) + rest) == Ok((None, e), rest)
  {
    var host := match e.hostname { case Some(h) => [AT] + h.raw case None => [] };
    NoRoute(f, e.localpart, host + rest);
    assert PrintEmail(e) + rest == e.localpart.raw + (host + rest);
    EmailReads(f, term, e, rest);
  }

  lemma RoutedEmailReads(f: Foreign, term: set<byte>, path: Option<Path>, e: Email, rest: bytes)
    requires GoodEmail(f, e) && (path.Some? ==> GoodPath(f, path.value))
    requires rest != [] && rest[0] in term && rest[0] != AT && !AtomByte(rest[0]) && (AsciiEmail(e) || Delimits(term))
    ensures ParseRoutedEmail(f, term, PrintRoutedEmail(path, e) + rest) == Ok((path, e), rest)
  {
    match path
    case Some(p) =>
      var route, email := PrintPath(p) + [COLON], PrintEmail(e) + rest;
      assert PrintRoutedEmail(path, e) + rest == route + email;
      PathReads(f, p, email);
      EmailReads(f, term, e, rest);
    case None =>
      assert PrintRoutedEmail(path, e) == PrintEmail(e);
      PlainEmailReads(f, term, e, rest);
  }

  lemma BracketedReads(f: Foreign, term: set<byte>, path: Option<Path>, e: Email, rest: bytes)
    requires GoodEmail(f, e) && (path.Some? ==> GoodPath(f, path.value)) && (AsciiEmail(e) || Delimits(term))
    ensures ParseEmailWithPath(f, term, [LT] + (PrintRoutedEmail(path, e) + ([GT] + rest))) == Ok((path, e), rest)
  {
    var inner := PrintRoutedEmail(path, e) + ([GT] + rest);
    assert ([LT] + inner)[1..] == inner && ([GT] + rest)[1..] == rest;
    RoutedEmailReads(f, term + {GT}, path, e, [GT] + rest);
  }
}
