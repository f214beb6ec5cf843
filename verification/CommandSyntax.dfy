/** The grammar of commands: a streaming parser, and the printer it undoes. */
module CommandSyntax {
  import opened AddressSyntax
  import opened Automata
  import opened Bytes
  import opened Combinators
  import opened Commands
  import opened Framing
  import opened Utf8

  const EQUALS: byte := 61
  const BLANKS: set<byte> := {SP, TAB}
  const WORD_END: set<byte> := {SP, TAB, CR}

  // ------------------------------------------------------------------ parameters

  function NextName(q: nat, b: byte): nat {
    if q == 1 && Alnum(b) then 2 else if q == 2 && (Alnum(b) || b == DASH) then 2 else DEAD
  }

  const PARAMETER_NAME: Dfa := Dfa(1, NextName, q => q == 2)

  predicate ValueByte(b: byte) { b != EQUALS && b != SP && !Control(b) }

  const VALUE_ASCII: Dfa := AsciiPlus(ValueByte)
  const VALUE_UTF8: Dfa := Utf8Plus(ValueByte)

  function ParseValue(s: bytes): Outcome<Text> {
    Alt((match ParseUntil(VALUE_ASCII, WORD_END, s)
         case Ok(v, s1) => Ok(Ascii(v), s1)
         case Error => Error
         case Incomplete => Incomplete),
        (match ParseUntil(VALUE_UTF8, WORD_END, s)
         case Ok(v, s1) => Ok(Text.Utf8(v), s1)
         case Error => Error
         case Incomplete => Incomplete))
  }

  function ParseEqualsValue(s: bytes): Outcome<Text> {
    match Tag([EQUALS], s)
    case Ok(_, s1) => ParseValue(s1)
    case Error => Error
    case Incomplete => Incomplete
  }

  /** A name, and perhaps a value. */
  function ParseNamed(s: bytes): Outcome<Parameter> {
    match ApplyRegex(PARAMETER_NAME, s)
    case Error => Error
    case Incomplete => Incomplete
    case Ok(name, s1) =>
      match Opt(ParseEqualsValue(s1), s1)
      case Ok(value, s2) => Ok(Parameter(name, value), s2)
      case Error => Error
      case Incomplete => Incomplete
  }

  function ParseParameter(s: bytes): Outcome<Parameter> {
    match IsA(BLANKS, s)
    case Ok(_, s1) => ParseNamed(s1)
    case Error => Error
    case Incomplete => Incomplete
  }

  function ParseParameters(s: bytes): Outcome<seq<Parameter>>
    decreases |s|
  {
    match ParseParameter(s)
    case Error => Ok([], s)
    case Incomplete => Incomplete
    case Ok(p, s1) =>
      if |s1| >= |s| then Error
      else
        match ParseParameters(s1)
        case Ok(ps, s2) => Ok([p] + ps, s2)
        case Error => Error
        case Incomplete => Incomplete
  }

  // ------------------------------------------------------------------ commands

  /** The keywords, in the order in which they are tried. */
  function Keyword(i: nat): bytes
    requires i < 13
  {
    if i == 0 then [68, 65, 84, 65]                                  // DATA
    else if i == 1 then [69, 72, 76, 79]                             // EHLO
    else if i == 2 then [69, 88, 80, 78]                             // EXPN
    else if i == 3 then [72, 69, 76, 79]                             // HELO
    else if i == 4 then [72, 69, 76, 80]                             // HELP
    else if i == 5 then [76, 72, 76, 79]                             // LHLO
    else if i == 6 then [77, 65, 73, 76, 32, 70, 82, 79, 77, 58]     // MAIL FROM:
    else if i == 7 then [78, 79, 79, 80]                             // NOOP
    else if i == 8 then [81, 85, 73, 84]                             // QUIT
    else if i == 9 then [82, 67, 80, 84, 32, 84, 79, 58]             // RCPT TO:
    else if i == 10 then [82, 83, 69, 84]                            // RSET
    else if i == 11 then [83, 84, 65, 82, 84, 84, 76, 83]            // STARTTLS
    else [86, 82, 70, 89]                                            // VRFY
  }

  /** Perhaps blanks, then the end of the line. */
  function ParseEnd(s: bytes): Outcome<bytes> {
    match Opt(IsA(BLANKS, s), s)
    case Ok(_, s1) => Tag(CRLF, s1)
    case Error => Error
    case Incomplete => Incomplete
  }

  function ParseLastHost(f: Foreign, s: bytes): Outcome<Hostname> {
    match ParseHostname(f, WORD_END, s)
    case Ok(h, s1) => As(h, ParseEnd(s1))
    case Error => Error
    case Incomplete => Incomplete
  }

  function ParseHost(f: Foreign, s: bytes): Outcome<Hostname> {
    match IsA(BLANKS, s)
    case Ok(_, s1) => ParseLastHost(f, s1)
    case Error => Error
    case Incomplete => Incomplete
  }

  /** The rest of a line. */
  function ParseLine(s: bytes): Outcome<bytes> {
    match TakeUntilCrLf(s)
    case Ok(w, s1) => As(w, Tag(CRLF, s1))
    case Error => Error
    case Incomplete => Incomplete
  }

  /** A blank and the rest of the line, which must be UTF-8. */
  function ParseWord(s: bytes): Outcome<bytes> {
    match OneOf(BLANKS, s)
    case Ok(_, s1) => ParseLine(s1)
    case Error => Error
    case Incomplete => Incomplete
  }

  function ParseOptionalWord(s: bytes): Outcome<bytes> {
    Alt(ParseWord(s), As([], Tag(CRLF, s)))
  }

  function AsText(w: bytes): Text {
    if forall i :: 0 <= i < |w| ==> w[i] < 0x80 then Ascii(w) else Text.Utf8(w)
  }

  function ParseSender(f: Foreign, s: bytes): Outcome<(Option<Path>, Option<Email>)> {
    match Tag([LT, GT], s)
    case Ok(_, s1) => Ok((None, None), s1)
    case Incomplete => Incomplete
    case Error =>
      match ParseEmailWithPath(f, WORD_END, s)
      case Ok(e, s1) => Ok((e.0, Some(e.1)), s1)
      case Error => Error
      case Incomplete => Incomplete
  }

  /** Parameters and the end of the line. */
  function ParseOptions(s: bytes): Outcome<seq<Parameter>> {
    match ParseParameters(s)
    case Ok(ps, s1) => As(ps, ParseEnd(s1))
    case Error => Error
    case Incomplete => Incomplete
  }

  function ParseMailFrom(f: Foreign, s: bytes): Outcome<Command> {
    match ParseSender(f, s)
    case Error => Error
    case Incomplete => Incomplete
    case Ok(sender, s1) =>
      match ParseOptions(s1)
      case Ok(ps, s2) => Ok(Mail(sender.0, sender.1, ps), s2)
      case Error => Error
      case Incomplete => Incomplete
  }

  function ParseMail(f: Foreign, s: bytes): Outcome<Command> {
    match Opt(IsA(BLANKS, s), s)
    case Ok(_, s1) => ParseMailFrom(f, s1)
    case Error => Error
    case Incomplete => Incomplete
  }

  function ParseRcptTo(f: Foreign, s: bytes): Outcome<Command> {
    match ParseEmailWithPath(f, WORD_END, s)
    case Error => Error
    case Incomplete => Incomplete
    case Ok(to, s1) =>
      match ParseOptions(s1)
      case Ok(ps, s2) => Ok(Rcpt(to.0, to.1, ps), s2)
      case Error => Error
      case Incomplete => Incomplete
  }

  function ParseRcpt(f: Foreign, s: bytes): Outcome<Command> {
    match Opt(IsA(BLANKS, s), s)
    case Ok(_, s1) => ParseRcptTo(f, s1)
    case Error => Error
    case Incomplete => Incomplete
  }

  function WithWord(i: nat, w: Outcome<bytes>): Outcome<Command> {
    match w
    case Ok(word, s1) =>
      if !Accepts(UTF8, word) then Error
      else Ok(if i == 2 then Expn(AsText(word)) else if i == 4 then Help(AsText(word)) else if i == 7 then Noop(AsText(word)) else Vrfy(AsText(word)), s1)
    case Error => Error
    case Incomplete => Incomplete
  }

  function WithHost(i: nat, h: Outcome<Hostname>): Outcome<Command> {
    match h
    case Ok(host, s1) => Ok(if i == 1 then Ehlo(host) else if i == 3 then Helo(host) else Lhlo(host), s1)
    case Error => Error
    case Incomplete => Incomplete
  }

  function ParseSimple(f: Foreign, i: nat, s: bytes): Outcome<Command> {
    if i == 0 then As(Data, ParseEnd(s))
    else if i == 1 || i == 3 || i == 5 then WithHost(i, ParseHost(f, s))
    else if i == 2 || i == 12 then WithWord(i, ParseWord(s))
    else if i == 4 || i == 7 then WithWord(i, ParseOptionalWord(s))
    else if i == 8 then As(Quit, ParseEnd(s))
    else if i == 10 then As(Rset, ParseEnd(s))
    else As(Starttls, ParseEnd(s))
  }

  /** What follows keyword `i`. */
  function ParseAfter(f: Foreign, i: nat, s: bytes): Outcome<Command> {
    if i == 6 then ParseMail(f, s) else if i == 9 then ParseRcpt(f, s) else ParseSimple(f, i, s)
  }

  function ParseAlternative(f: Foreign, i: nat, s: bytes): Outcome<Command>
    requires i < 13
  {
    match TagNoCase(Keyword(i), s)
    case Ok(_, s1) => ParseAfter(f, i, s1)
    case Error => Error
    case Incomplete => Incomplete
  }

  /** The alternatives from `i` on, in order. */
  function ParseFrom(f: Foreign, i: nat, s: bytes): Outcome<Command>
    requires i <= 13
    decreases 13 - i
  {
    if i == 13 then Error else Alt(ParseAlternative(f, i, s), ParseFrom(f, i + 1, s))
  }

  function ParseCommand(f: Foreign, s: bytes): Outcome<Command> {
    ParseFrom(f, 0, s)
  }

  // ------------------------------------------------------------------ the printer

  function PrintParameter(p: Parameter): bytes {
    [SP] + (p.name + match p.value { case Some(v) => [EQUALS] + v.s case None => [] })
  }

  function PrintParameters(ps: seq<Parameter>): bytes {
    if ps == [] then [] else PrintParameter(ps[0]) + PrintParameters(ps[1..])
  }

  /** The place of a command's keyword. */
  function Index(c: Command): (i: nat)
    ensures i < 13
  {
    match c
    case Data => 0 case Ehlo(_) => 1 case Expn(_) => 2 case Helo(_) => 3 case Help(_) => 4 case Lhlo(_) => 5
    case Mail(_, _, _) => 6 case Noop(_) => 7 case Quit => 8 case Rcpt(_, _, _) => 9 case Rset => 10 case Starttls => 11
    case Vrfy(_) => 12
  }

  /** What is printed between the keyword and the end of the line. */
  function PrintArguments(c: Command): bytes {
    match c
    case Ehlo(h) => [SP] + h.raw
    case Helo(h) => [SP] + h.raw
    case Lhlo(h) => [SP] + h.raw
    case Expn(w) => [SP] + w.s
    case Help(w) => [SP] + w.s
    case Noop(w) => [SP] + w.s
    case Vrfy(w) => [SP] + w.s
    case Mail(path, from, params) =>
      ([LT] + ((match path { case Some(p) => PrintPath(p) + [COLON] case None => [] })
               + (match from { case Some(e) => PrintEmail(e) case None => [] })) + [GT]) + PrintParameters(params)
    case Rcpt(path, to, params) => ([LT] + PrintRoutedEmail(path, to) + [GT]) + PrintParameters(params)
    case _ => []
  }

  function Print(c: Command): bytes {
    Keyword(Index(c)) + (PrintArguments(c) + CRLF)
  }

  // ------------------------------------------------------------------ what can be printed

  /** Text within a line. */
  predicate GoodWord(w: Text) {
    Accepts(UTF8, w.s) && w == AsText(w.s) && LineEnd(w.s).None?
  }

  predicate GoodValue(v: Text) {
    if v.Ascii? then Accepts(VALUE_ASCII, v.s) else Accepts(VALUE_UTF8, v.s) && !Accepts(VALUE_ASCII, v.s)
  }

  predicate GoodParameter(p: Parameter) {
    Accepts(PARAMETER_NAME, p.name) && (p.value.Some? ==> GoodValue(p.value.value))
  }

  predicate Good(f: Foreign, c: Command) {
    match c
    case Ehlo(h) => GoodHostname(f, h)
    case Helo(h) => GoodHostname(f, h)
    case Lhlo(h) => GoodHostname(f, h)
    case Expn(w) => GoodWord(w)
    case Help(w) => GoodWord(w)
    case Noop(w) => GoodWord(w)
    case Vrfy(w) => GoodWord(w)
    case Mail(path, from, params) =>
      && (path.Some? ==> from.Some? && GoodPath(f, path.value)) && (from.Some? ==> GoodEmail(f, from.value))
      && forall i :: 0 <= i < |params| ==> GoodParameter(params[i])
    case Rcpt(path, to, params) =>
      && (path.Some? ==> GoodPath(f, path.value)) && GoodEmail(f, to)
      && forall i :: 0 <= i < |params| ==> GoodParameter(params[i])
    case _ => true
  }
}
