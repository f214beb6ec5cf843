/**
 A session of the server as a function of the bytes it receives. The state of the
 session is not kept: it is read off the history, so what the server remembers is
 checked against what has happened.
 */
module SessionSpec {
  import opened Bytes
  import opened Commands
  import opened DataFormat
  import opened Framing

  datatype Protocol = Smtp | Lmtp

  datatype HelloInfo = HelloInfo(extended: bool, host: Hostname)

  datatype ConnectionMetadata = ConnectionMetadata(hello: Option<HelloInfo>, encrypted: bool)

  datatype MailMetadata = MailMetadata(from: Option<Email>, to: seq<Email>)

  /** The answer of a hook; `Kill` ends the session, with or without a last reply. */
  datatype Decision<+T> = Accept(reply: bytes, res: T) | Reject(reply: bytes) | Kill(last: Option<bytes>, ok: bool)

  datatype Canned =
    | WelcomeBanner | CommandUnrecognized | LineTooLong
    | AlreadyDidHello | MailBeforeHello | AlreadyInMail | RcptBeforeMail | DataBeforeMail | DataBeforeRcpt
    | StarttlsUnsupported | PipelineForbidden | DidNotCallComplete

  datatype Reply = Standard(c: Canned) | FromHook(text: bytes)

  /** What a command, with its reply or replies, came to. */
  datatype Entry =
    | Skipped(why: Canned)
    | Refused(cmd: Command, why: Canned)
    | Rejected(cmd: Command, reply: bytes)
    | Greeted(cmd: Command, info: HelloInfo, reply: bytes)
    | MailOpened(cmd: Command, from: Option<Email>, reply: bytes)
    | RcptAdded(cmd: Command, to: Email, reply: bytes)
    | MailHandled(mail: MailMetadata, ready: bytes, answers: seq<Reply>)
    | WasReset(reply: bytes)
    | TlsStarted(reply: bytes)
    | Answered(cmd: Command, reply: bytes)

  type History = seq<Entry>

  /**
   The configuration of a server. Hooks may depend on all that has happened. A mail
   handler goes on reading, or not, after the pieces of the data that it has got so far;
   having read it all it may call `complete`, and then its decisions count.
   */
  datatype Env = Env(
    protocol: Protocol,
    alreadyTls: bool,
    parse: bytes -> Outcome<Command>,
    needed: bytes -> Option<nat>,
    canDoTls: ConnectionMetadata -> bool,
    filterHello: (History, bool, Hostname) -> Decision<HelloInfo>,
    filterFrom: (History, Option<Email>) -> Decision<Option<Email>>,
    filterTo: (History, Email) -> Decision<Email>,
    filterData: History -> Decision<()>,
    readsOn: (History, MailMetadata, seq<bytes>) -> bool,
    completes: (History, MailMetadata, seq<bytes>) -> bool,
    handleMail: (History, MailMetadata, seq<bytes>) -> Decision<()>,
    handleMails: (History, MailMetadata, seq<bytes>) -> seq<Decision<()>>,
    handleRset: History -> Decision<()>,
    handleStarttls: History -> Decision<()>,
    handleOther: (History, Command) -> Decision<()>)

  // ------------------------------------------------------------------ the state, from the history

  function ConnectionAfter(conn: ConnectionMetadata, e: Entry): ConnectionMetadata {
    match e
    case Greeted(_, info, _) => conn.(hello := Some(info))
    case TlsStarted(_) => ConnectionMetadata(None, true)
    case _ => conn
  }

  function ConnectionOf(alreadyTls: bool, log: History): ConnectionMetadata {
    if log == [] then ConnectionMetadata(None, alreadyTls)
    else ConnectionAfter(ConnectionOf(alreadyTls, log[..|log| - 1]), log[|log| - 1])
  }

  /** These entries leave no transaction behind. DATA without recipients is one of them. */
  predicate EndsMail(e: Entry) {
    e.MailHandled? || e.WasReset? || e.TlsStarted? || (e.Refused? && e.cmd.Data?)
  }

  function MailAfter(mail: Option<MailMetadata>, e: Entry): Option<MailMetadata> {
    if EndsMail(e) then None
    else if e.MailOpened? then Some(MailMetadata(e.from, []))
    else if e.RcptAdded? && mail.Some? then Some(mail.value.(to := mail.value.to + [e.to]))
    else mail
  }

  function MailOf(log: History): Option<MailMetadata> {
    if log == [] then None else MailAfter(MailOf(log[..|log| - 1]), log[|log| - 1])
  }

  // ------------------------------------------------------------------ one command

  datatype Reaction =
    | Next(entry: Entry)
    | Stop(last: Option<bytes>, ok: bool)
    | ReadData(mail: MailMetadata, ready: bytes)
    | SwitchTls(reply: bytes)

  function Settle(cmd: Command, d: Decision<()>, accepted: bytes -> Reaction): Reaction {
    match d
    case Accept(reply, _) => accepted(reply)
    case Reject(reply) => Next(Rejected(cmd, reply))
    case Kill(last, ok) => Stop(last, ok)
  }

  function OnHello(env: Env, log: History, cmd: Command, protocol: Protocol, extended: bool, host: Hostname): Reaction {
    if protocol != env.protocol then Next(Refused(cmd, CommandUnrecognized))
    else if ConnectionOf(env.alreadyTls, log).hello.Some? then Next(Refused(cmd, AlreadyDidHello))
    else
      match env.filterHello(log, extended, host)
      case Accept(reply, info) => Next(Greeted(cmd, info, reply))
      case Reject(reply) => Next(Rejected(cmd, reply))
      case Kill(last, ok) => Stop(last, ok)
  }

  function OnMail(env: Env, log: History, cmd: Command, from: Option<Email>): Reaction {
    if ConnectionOf(env.alreadyTls, log).hello.None? then Next(Refused(cmd, MailBeforeHello))
    else if MailOf(log).Some? then Next(Refused(cmd, AlreadyInMail))
    else
      match env.filterFrom(log, from)
      case Accept(reply, res) => Next(MailOpened(cmd, res, reply))
      case Reject(reply) => Next(Rejected(cmd, reply))
      case Kill(last, ok) => Stop(last, ok)
  }

  function OnRcpt(env: Env, log: History, cmd: Command, to: Email): Reaction {
    if MailOf(log).None? then Next(Refused(cmd, RcptBeforeMail))
    else
      match env.filterTo(log, to)
      case Accept(reply, res) => Next(RcptAdded(cmd, res, reply))
      case Reject(reply) => Next(Rejected(cmd, reply))
      case Kill(last, ok) => Stop(last, ok)
  }

  function OnData(env: Env, log: History): Reaction {
    match MailOf(log)
    case None => Next(Refused(Data, DataBeforeMail))
    case Some(mail) =>
      if mail.to == [] then Next(Refused(Data, DataBeforeRcpt))
      else Settle(Data, env.filterData(log), ready => ReadData(mail, ready))
  }

  function OnStarttls(env: Env, log: History, pipelined: bool): Reaction {
    if !env.canDoTls(ConnectionOf(env.alreadyTls, log)) then Next(Refused(Starttls, StarttlsUnsupported))
    else if pipelined then Next(Refused(Starttls, PipelineForbidden))
    else Settle(Starttls, env.handleStarttls(log), reply => SwitchTls(reply))
  }

  function React(env: Env, log: History, cmd: Command, pipelined: bool): Reaction {
    match cmd
    case Ehlo(host) => OnHello(env, log, cmd, Smtp, true, host)
    case Helo(host) => OnHello(env, log, cmd, Smtp, false, host)
    case Lhlo(host) => OnHello(env, log, cmd, Lmtp, true, host)
    case Mail(_, from, _) => OnMail(env, log, cmd, from)
    case Rcpt(_, to, _) => OnRcpt(env, log, cmd, to)
    case Data => OnData(env, log)
    case Rset => Settle(cmd, env.handleRset(log), reply => Next(WasReset(reply)))
    case Starttls => OnStarttls(env, log, pipelined)
    case _ => Settle(cmd, env.handleOther(log, cmd), reply => Next(Answered(cmd, reply)))
  }

  // ------------------------------------------------------------------ a mail

  datatype Verdict = Answers(replies: seq<Reply>) | Stopped(replies: seq<Reply>, ok: bool) | Panic(replies: seq<Reply>)

  /** One reply for each decision; there must be exactly `expected` of them. */
  function Collect(decisions: seq<Decision<()>>, expected: nat, sent: seq<Reply>): Verdict {
    if decisions == [] then if expected == 0 then Answers(sent) else Panic(sent)
    else if expected == 0 then Panic(sent)
    else
      match decisions[0]
      case Accept(reply, _) => Collect(decisions[1..], expected - 1, sent + [FromHook(reply)])
      case Reject(reply) => Collect(decisions[1..], expected - 1, sent + [FromHook(reply)])
      case Kill(last, ok) => Stopped(sent + LastReply(last), ok)
  }

  function LastReply(last: Option<bytes>): seq<Reply> {
    match last { case Some(text) => [FromHook(text)] case None => [] }
  }

  function ExpectedDecisions(protocol: Protocol, mail: MailMetadata): nat {
    match protocol { case Smtp => 1 case Lmtp => |mail.to| }
  }

  function Decisions(env: Env, log: History, mail: MailMetadata, pieces: seq<bytes>): seq<Decision<()>> {
    match env.protocol { case Smtp => [env.handleMail(log, mail, pieces)] case Lmtp => env.handleMails(log, mail, pieces) }
  }

  /** A handler that has read `pieces` of the data `body` has read all of it, or has stopped by itself. */
  predicate HandlerRun(env: Env, log: History, mail: MailMetadata, body: bytes, pieces: seq<bytes>) {
    && Flatten(pieces) <= body && (Flatten(pieces) == body || !env.readsOn(log, mail, pieces))
    && forall i {:trigger pieces[..i]} :: 0 <= i < |pieces| ==> env.readsOn(log, mail, pieces[..i])
  }

  function Handle(env: Env, log: History, mail: MailMetadata, body: bytes, pieces: seq<bytes>): Verdict {
    var expected := ExpectedDecisions(env.protocol, mail);
    if Flatten(pieces) == body && env.completes(log, mail, pieces) then
      Collect(Decisions(env, log, mail, pieces), expected, [])
    else Answers(seq(expected, i => Standard(DidNotCallComplete)))
  }

  // ------------------------------------------------------------------ the session

  /** How a session ends, and the replies sent since the last entry of the log. */
  datatype End = Closed | Killed(tail: seq<Reply>, ok: bool) | Aborted(tail: seq<Reply>) | Panicked(tail: seq<Reply>)

  /** The history, the bytes that each entry answers, the bytes still to come, and the streams that TLS will bring. */
  datatype State = State(log: History, raws: seq<bytes>, rest: bytes, later: seq<bytes>)

  datatype Stepped = Go(next: State) | Halt(end: End)

  /** Entry `e` answers the next `n` bytes. */
  function Answer(st: State, n: nat, e: Entry): State
    requires n <= |st.rest|
  {
    State(st.log + [e], st.raws + [st.rest[..n]], st.rest[n..], st.later)
  }

  function Skip(st: State, why: Canned): Stepped {
    match LineEnd(st.rest)
    case Some(n) => Go(Answer(st, n, Skipped(why)))
    case None => Halt(Aborted([]))
  }

  lemma {:induction false} ScanEndBound(st: ScanState, s: bytes)
    ensures ScanEnd(st, s).Some? ==> ScanEnd(st, s).value <= |s|
    decreases |s|
  {
    if st != AtEnd && s != [] { ScanEndBound(NextScan(st, s[0]), s[1..]); }
  }

  /** Where the data of a mail ends in `s`, its terminator included. */
  function DataEnd(s: bytes): (r: Option<nat>)
    ensures r.Some? ==> r.value <= |s|
  {
    ScanEndBound(AtCrLf, s);
    ScanEnd(AtCrLf, s)
  }

  /** The mail that follows the `n` bytes of an accepted DATA, of which the handler gets `pieces`. */
  function TakeMail(env: Env, st: State, n: nat, mail: MailMetadata, ready: bytes, pieces: seq<bytes>): Stepped
    requires n <= |st.rest|
  {
    match DataEnd(st.rest[n..])
    case None => Halt(Aborted([FromHook(ready)]))
    case Some(m) =>
      var body := st.rest[n..n + m];
      match Handle(env, st.log, mail, body, pieces)
      case Answers(replies) => Go(Answer(st, n + m, MailHandled(mail, ready, replies)))
      case Stopped(replies, ok) => Halt(Killed([FromHook(ready)] + replies, ok))
      case Panic(replies) => Halt(Panicked([FromHook(ready)] + replies))
  }

  /** STARTTLS: what comes next is what is sent over TLS, if that comes about. */
  function Switched(st: State, n: nat, reply: bytes): Stepped
    requires n <= |st.rest|
  {
    if st.later == [] then Halt(Aborted([FromHook(reply)]))
    else Go(Answer(st, n, TlsStarted(reply)).(rest := st.later[0], later := st.later[1..]))
  }

  /** What a reaction comes to. */
  function Perform(env: Env, st: State, r: Reaction, n: nat, pieces: seq<bytes>): Stepped
    requires n <= |st.rest|
  {
    match r
    case Next(e) => Go(Answer(st, n, e))
    case Stop(last, ok) => Halt(Killed(LastReply(last), ok))
    case ReadData(mail, ready) => TakeMail(env, st, n, mail, ready, pieces)
    case SwitchTls(reply) => Switched(st, n, reply)
  }

  function Obey(env: Env, st: State, cmd: Command, n: nat, buffered: bool, pieces: seq<bytes>): Stepped
    requires n <= |st.rest|
  {
    Perform(env, st, React(env, st.log, cmd, buffered && |st.rest| > n), n, pieces)
  }

  /**
   What the network has to do with a step: what the server takes the next bytes for,
   whether something after a command had arrived along with it, and the pieces in which
   a mail handler gets the data.
   */
  datatype Arrival = Arrival(frame: Awaited<Command>, buffered: bool, pieces: seq<bytes>)

  predicate Within(frame: Awaited<Command>, s: bytes) {
    frame.Got? ==> frame.len <= |s|
  }

  /** What comes next. */
  function Step(env: Env, st: State, a: Arrival): Stepped
    requires Within(a.frame, st.rest)
  {
    match a.frame
    case Closed => Halt(End.Closed)
    case Cut => Halt(Aborted([]))
    case Bad => Skip(st, CommandUnrecognized)
    case Full => Skip(st, LineTooLong)
    case Got(cmd, n) => Obey(env, st, cmd, n, a.buffered, a.pieces)
  }

  /** If the reaction is to read a mail, `pieces` are what its handler may get. */
  predicate HandedOver(env: Env, st: State, r: Reaction, n: nat, pieces: seq<bytes>)
    requires n <= |st.rest|
  {
    var m := DataEnd(st.rest[n..]);
    r.ReadData? && m.Some? ==> HandlerRun(env, st.log, r.mail, st.rest[n..n + m.value], pieces)
  }

  predicate PiecesFit(env: Env, st: State, cmd: Command, n: nat, buffered: bool, pieces: seq<bytes>)
    requires n <= |st.rest|
  {
    HandedOver(env, st, React(env, st.log, cmd, buffered && |st.rest| > n), n, pieces)
  }

  /** What may happen: the frame is what the parser says of some first part of the stream. */
  ghost predicate Fits(env: Env, st: State, a: Arrival) {
    && Decided(env.parse, RDBUF_SIZE, st.rest, a.frame) && Within(a.frame, st.rest)
    && (a.frame.Got? ==> PiecesFit(env, st, a.frame.value, a.frame.len, a.buffered, a.pieces))
  }

  /** From `st`, with these arrivals, the session comes to `last`, and ends there if `end` says so. */
  ghost predicate Plays(env: Env, st: State, arrivals: seq<Arrival>, last: State, end: Option<End>)
    decreases |arrivals|
  {
    if arrivals == [] then last == st && end == None
    else
      Fits(env, st, arrivals[0]) &&
      match Step(env, st, arrivals[0])
      case Halt(e) => |arrivals| == 1 && last == st && end == Some(e)
      case Go(next) => Plays(env, next, arrivals[1..], last, end)
  }

  lemma {:induction false} PlaysOn(env: Env, st: State, arrivals: seq<Arrival>, last: State, a: Arrival)
    requires Plays(env, st, arrivals, last, None) && Fits(env, last, a)
    ensures match Step(env, last, a)
            case Halt(e) => Plays(env, st, arrivals + [a], last, Some(e))
            case Go(next) => Plays(env, st, arrivals + [a], next, None)
    decreases |arrivals|
  {
    if arrivals == [] {
      assert [] + [a] == [a] && [a][1..] == [];
    } else {
      assert (arrivals + [a])[1..] == arrivals[1..] + [a];
      PlaysOn(env, Step(env, st, arrivals[0]).next, arrivals[1..], last, a);
    }
  }

  lemma StepProgress(env: Env, st: State, a: Arrival)
    requires Advances(env.parse) && Fits(env, st, a)
    ensures var r := Step(env, st, a);
            r.Go? ==> |r.next.later| < |st.later| || (r.next.later == st.later && |r.next.rest| < |st.rest|)
  {
    DecidedProgress(env.parse, RDBUF_SIZE, st.rest, a.frame);
  }

  // ------------------------------------------------------------------ without the network

  /** The pieces in a world where all the data is there at once. */
  function UsualPieces(env: Env, st: State, cmd: Command, n: nat): seq<bytes>
    requires n <= |st.rest|
  {
    var r, m := React(env, st.log, cmd, false), DataEnd(st.rest[n..]);
    if r.ReadData? && m.Some? && env.readsOn(st.log, r.mail, []) then [st.rest[n..n + m.value]] else []
  }

  /** The arrival in a world where the buffer is always filled. */
  function Usual(env: Env, st: State): (a: Arrival)
    ensures Within(a.frame, st.rest)
  {
    var frame := Await(env.parse, RDBUF_SIZE, st.rest);
    Arrival(frame, false, if frame.Got? then UsualPieces(env, st, frame.value, frame.len) else [])
  }

  lemma UsualFits(env: Env, st: State)
    ensures Fits(env, st, Usual(env, st))
  {
    AwaitIsDecided(env.parse, RDBUF_SIZE, st.rest);
    var a := Usual(env, st);
    if a.frame.Got? {
      var n, m := a.frame.len, DataEnd(st.rest[a.frame.len..]);
      if m.Some? {
        var body := st.rest[n..n + m.value];
        assert Flatten([body]) == body + Flatten([]) == body && [body][..0] == [];
      }
    }
  }

  /** The whole session from `st` on, as a function of the bytes. */
  ghost function Session(env: Env, st: State): (State, End)
    requires Advances(env.parse)
    decreases |st.later|, |st.rest|
  {
    UsualFits(env, st);
    StepProgress(env, st, Usual(env, st));
    match Step(env, st, Usual(env, st))
    case Halt(end) => (st, end)
    case Go(next) => Session(env, next)
  }

  // ------------------------------------------------------------------ replies

  function RepliesTo(e: Entry): seq<Reply> {
    match e
    case Skipped(why) => [Standard(why)]
    case Refused(_, why) => [Standard(why)]
    case MailHandled(_, ready, answers) => [FromHook(ready)] + answers
    case _ => [FromHook(e.reply)]
  }

  function ReplyGroups(log: History): seq<seq<Reply>> {
    seq(|log|, i requires 0 <= i < |log| => RepliesTo(log[i]))
  }

  /** The first `n` groups, one after the other. */
  function Concat(groups: seq<seq<Reply>>, n: nat): seq<Reply>
    requires n <= |groups|
  {
    if n == 0 then [] else Concat(groups, n - 1) + groups[n - 1]
  }

  function Replies(log: History): seq<Reply> {
    Concat(ReplyGroups(log), |log|)
  }

  function Tail(end: End): seq<Reply> {
    match end { case Closed => [] case _ => end.tail }
  }
}
