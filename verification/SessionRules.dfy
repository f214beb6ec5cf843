/**
 The rules of a session: which answer a command may get, from what the hooks say of it
 and from what has happened before. They are written down here from the answers, and
 every session of the server keeps to them.
 */
module SessionRules {
  import opened Bytes
  import opened Commands
  import opened DataFormat
  import opened Framing
  import opened SessionSpec

  // ------------------------------------------------------------------ what has happened before

  /** The client was greeted at `h`, on the connection as it still is, and not since. */
  predicate GreetedAt(log: History, h: nat) {
    h < |log| && log[h].Greeted? && forall k :: h < k < |log| ==> !log[k].TlsStarted? && !log[k].Greeted?
  }

  /** The recipients accepted in a part of the history, in order. */
  function Recipients(log: History): seq<Email> {
    if log == [] then []
    else if log[|log| - 1].RcptAdded? then Recipients(log[..|log| - 1]) + [log[|log| - 1].to]
    else Recipients(log[..|log| - 1])
  }

  /**
   `mail` was opened at `j` and got its recipients since then; there has been no other
   MAIL, no mail, no RSET, no STARTTLS and no DATA without recipients after it.
   */
  predicate OpenedAt(log: History, j: nat, mail: MailMetadata) {
    && j < |log| && log[j].MailOpened? && log[j].from == mail.from
    && mail.to == Recipients(log[j + 1..])
    && (forall k :: j < k < |log| ==>
          && !log[k].MailOpened? && !log[k].MailHandled? && !log[k].WasReset? && !log[k].TlsStarted?
          && !(log[k].Refused? && log[k].cmd.Data?))
  }

  /** The hello that the server remembers is that of the last greeting on this connection. */
  lemma {:induction false} HelloIff(alreadyTls: bool, log: History, info: HelloInfo)
    ensures ConnectionOf(alreadyTls, log).hello == Some(info) <==> exists h: nat :: GreetedAt(log, h) && log[h].info == info
    decreases |log|
  {
    if log != [] {
      var n := |log| - 1;
      var before := log[..n];
      HelloIff(alreadyTls, before, info);
      if log[n].Greeted? { assert GreetedAt(log, n); }
      if h: nat :| GreetedAt(before, h) && before[h].info == info {
        if !log[n].Greeted? && !log[n].TlsStarted? { assert GreetedAt(log, h); }
      }
      if h: nat :| GreetedAt(log, h) && log[h].info == info {
        if h < n { assert GreetedAt(before, h); }
      }
    }
  }

  lemma {:induction false} EncryptedIff(alreadyTls: bool, log: History)
    ensures ConnectionOf(alreadyTls, log).encrypted <==> alreadyTls || exists k :: 0 <= k < |log| && log[k].TlsStarted?
    decreases |log|
  {
    if log != [] {
      var n := |log| - 1;
      EncryptedIff(alreadyTls, log[..n]);
      assert forall k :: 0 <= k < n ==> log[..n][k] == log[k];
    }
  }

  /** What one more entry does to the transaction. */
  lemma MailKept(log: History, e: Entry)
    ensures e.MailHandled? || e.WasReset? || e.TlsStarted? || (e.Refused? && e.cmd.Data?) ==> MailOf(log + [e]) == None
    ensures e.MailOpened? ==> MailOf(log + [e]) == Some(MailMetadata(e.from, []))
    ensures e.RcptAdded? && MailOf(log).Some? ==> MailOf(log + [e]) == Some(MailMetadata(MailOf(log).value.from, MailOf(log).value.to + [e.to]))
    ensures e.Skipped? || (e.Refused? && !e.cmd.Data?) || e.Rejected? || e.Greeted? || e.Answered? ==> MailOf(log + [e]) == MailOf(log)
  {
    assert (log + [e])[..|log|] == log;
  }

  lemma SameButLast(a: seq<Email>, b: seq<Email>, x: Email)
    ensures a + [x] == b + [x] <==> a == b
  {
    if a + [x] == b + [x] { assert a == (a + [x])[..|a|] && b == (b + [x])[..|b|]; }
  }

  /** This entry leaves an open transaction open. */
  predicate Continues(e: Entry) {
    !e.MailOpened? && !e.MailHandled? && !e.WasReset? && !e.TlsStarted? && !(e.Refused? && e.cmd.Data?)
  }

  lemma OpenedStays(log: History, j: nat, mail: MailMetadata, to: seq<Email>)
    requires log != [] && j < |log| - 1 && Continues(log[|log| - 1])
    requires var e := log[|log| - 1]; mail.to == if e.RcptAdded? then to + [e.to] else to
    ensures OpenedAt(log, j, mail) <==> OpenedAt(log[..|log| - 1], j, mail.(to := to))
  {
    var n := |log| - 1;
    var before, since := log[..n], log[j + 1..];
    assert since[..|since| - 1] == before[j + 1..] && since[|since| - 1] == log[n];
    assert forall k :: 0 <= k < n ==> before[k] == log[k];
    if log[n].RcptAdded? { SameButLast(to, Recipients(before[j + 1..]), log[n].to); }
    if OpenedAt(before, j, mail.(to := to)) {
      forall k | j < k < |log| ensures Continues(log[k]) { if k < n { assert Continues(before[k]); } }
    }
  }

  lemma {:induction false} MailIsOpened(log: History, mail: MailMetadata) returns (j: nat)
    requires MailOf(log) == Some(mail)
    ensures OpenedAt(log, j, mail)
    decreases |log|
  {
    var n := |log| - 1;
    var e := log[n];
    if e.MailOpened? {
      assert log[n + 1..] == [];
      j := n;
    } else {
      var was := MailOf(log[..n]).value;
      j := MailIsOpened(log[..n], was);
      OpenedStays(log, j, mail, was.to);
    }
  }

  lemma {:induction false} OpenedIsMail(log: History, j: nat, mail: MailMetadata)
    requires OpenedAt(log, j, mail)
    ensures MailOf(log) == Some(mail)
    decreases |log|
  {
    var n := |log| - 1;
    if j == n {
      assert log[n + 1..] == [];
    } else {
      var to := Recipients(log[..n][j + 1..]);
      assert log[j + 1..][..|log[j + 1..]| - 1] == log[..n][j + 1..] && log[j + 1..][|log[j + 1..]| - 1] == log[n];
      OpenedStays(log, j, mail, to);
      OpenedIsMail(log[..n], j, mail.(to := to));
    }
  }

  /** The transaction that the server remembers is the one opened last, with the recipients since, unless something has ended it. */
  lemma MailIff(log: History, mail: MailMetadata)
    ensures MailOf(log) == Some(mail) <==> exists j: nat :: OpenedAt(log, j, mail)
  {
    if MailOf(log) == Some(mail) { var j := MailIsOpened(log, mail); }
    if j: nat :| OpenedAt(log, j, mail) { OpenedIsMail(log, j, mail); }
  }

  // ------------------------------------------------------------------ the rules

  predicate IsHello(cmd: Command) { cmd.Ehlo? || cmd.Helo? || cmd.Lhlo? }

  /** EHLO and HELO are for SMTP, LHLO is for LMTP. */
  predicate RightHello(env: Env, cmd: Command) { IsHello(cmd) && (cmd.Lhlo? <==> env.protocol.Lmtp?) }

  predicate IsOther(cmd: Command) { cmd.Expn? || cmd.Help? || cmd.Noop? || cmd.Quit? || cmd.Vrfy? }

  /** The command comes where its hook is asked about it. */
  predicate MayAsk(env: Env, log: History, cmd: Command) {
    var conn, mail := ConnectionOf(env.alreadyTls, log), MailOf(log);
    && (IsHello(cmd) ==> RightHello(env, cmd) && conn.hello.None?)
    && (cmd.Mail? ==> conn.hello.Some? && mail.None?)
    && (cmd.Rcpt? ==> mail.Some?)
    && (cmd.Data? ==> mail.Some? && mail.value.to != [])
    && (cmd.Starttls? ==> env.canDoTls(conn))
  }

  predicate Accepted(d: Decision<()>, reply: bytes) { d.Accept? && d.reply == reply }

  /** The hook for the command says no to it. */
  predicate RejectedBy(env: Env, log: History, cmd: Command, reply: bytes) {
    match cmd
    case Ehlo(h) => env.filterHello(log, true, h) == Reject(reply)
    case Helo(h) => env.filterHello(log, false, h) == Reject(reply)
    case Lhlo(h) => env.filterHello(log, true, h) == Reject(reply)
    case Mail(_, from, _) => env.filterFrom(log, from) == Reject(reply)
    case Rcpt(_, to, _) => env.filterTo(log, to) == Reject(reply)
    case Data => env.filterData(log) == Reject(reply)
    case Rset => env.handleRset(log) == Reject(reply)
    case Starttls => env.handleStarttls(log) == Reject(reply)
    case _ => env.handleOther(log, cmd) == Reject(reply)
  }

  /** The hook for the command ends the session. */
  predicate KilledBy(env: Env, log: History, cmd: Command, last: Option<bytes>, ok: bool) {
    match cmd
    case Ehlo(h) => env.filterHello(log, true, h) == Kill(last, ok)
    case Helo(h) => env.filterHello(log, false, h) == Kill(last, ok)
    case Lhlo(h) => env.filterHello(log, true, h) == Kill(last, ok)
    case Mail(_, from, _) => env.filterFrom(log, from) == Kill(last, ok)
    case Rcpt(_, to, _) => env.filterTo(log, to) == Kill(last, ok)
    case Data => env.filterData(log) == Kill(last, ok)
    case Rset => env.handleRset(log) == Kill(last, ok)
    case Starttls => env.handleStarttls(log) == Kill(last, ok)
    case _ => env.handleOther(log, cmd) == Kill(last, ok)
  }

  /** The reasons for which the server refuses a command by itself. */
  predicate RefusedFor(env: Env, log: History, cmd: Command, why: Canned) {
    var conn, mail := ConnectionOf(env.alreadyTls, log), MailOf(log);
    match why
    case CommandUnrecognized => IsHello(cmd) && !RightHello(env, cmd)
    case AlreadyDidHello => RightHello(env, cmd) && conn.hello.Some?
    case MailBeforeHello => cmd.Mail? && conn.hello.None?
    case AlreadyInMail => cmd.Mail? && conn.hello.Some? && mail.Some?
    case RcptBeforeMail => cmd.Rcpt? && mail.None?
    case DataBeforeMail => cmd.Data? && mail.None?
    case DataBeforeRcpt => cmd.Data? && mail.Some? && mail.value.to == []
    case StarttlsUnsupported => cmd.Starttls? && !env.canDoTls(conn)
    case PipelineForbidden => cmd.Starttls? && env.canDoTls(conn)
    case _ => false
  }

  /** What an entry of the history says has been the case when it was made. */
  predicate LegalEntry(env: Env, before: History, e: Entry) {
    match e
    case Skipped(why) => why == CommandUnrecognized || why == LineTooLong
    case Refused(cmd, why) => RefusedFor(env, before, cmd, why)
    case Rejected(cmd, reply) => MayAsk(env, before, cmd) && RejectedBy(env, before, cmd, reply)
    case Greeted(cmd, info, reply) =>
      && IsHello(cmd) && MayAsk(env, before, cmd)
      && env.filterHello(before, !cmd.Helo?, cmd.hostname) == Accept(reply, info)
    case MailOpened(cmd, from, reply) => cmd.Mail? && MayAsk(env, before, cmd) && env.filterFrom(before, cmd.from) == Accept(reply, from)
    case RcptAdded(cmd, to, reply) => cmd.Rcpt? && MayAsk(env, before, cmd) && env.filterTo(before, cmd.to) == Accept(reply, to)
    case MailHandled(mail, ready, answers) =>
      && MayAsk(env, before, Data) && MailOf(before) == Some(mail) && Accepted(env.filterData(before), ready)
      && |answers| == if env.protocol.Smtp? then 1 else |mail.to|
    case WasReset(reply) => Accepted(env.handleRset(before), reply)
    case TlsStarted(reply) => MayAsk(env, before, Starttls) && Accepted(env.handleStarttls(before), reply)
    case Answered(cmd, reply) => IsOther(cmd) && Accepted(env.handleOther(before, cmd), reply)
  }

  predicate Legal(env: Env, log: History) {
    forall i :: 0 <= i < |log| ==> LegalEntry(env, log[..i], log[i])
  }

  /** The command that an entry answers. */
  function CommandOf(e: Entry): Option<Command> {
    match e
    case Skipped(_) => None
    case MailHandled(_, _, _) => Some(Data)
    case WasReset(_) => Some(Rset)
    case TlsStarted(_) => Some(Starttls)
    case _ => Some(e.cmd)
  }

  // ------------------------------------------------------------------ the verdict on a mail

  /** The first `n` decisions do not end the session, and these are the replies to them. */
  predicate AnswerEach(decisions: seq<Decision<()>>, n: nat, replies: seq<Reply>) {
    && n <= |decisions| && n <= |replies|
    && forall i :: 0 <= i < n ==> !decisions[i].Kill? && replies[i] == FromHook(decisions[i].reply)
  }

  /** Decision `k` ends the session. */
  predicate KilledAt(decisions: seq<Decision<()>>, k: nat, replies: seq<Reply>, ok: bool) {
    && k < |decisions| && decisions[k].Kill? && decisions[k].ok == ok && AnswerEach(decisions, k, replies)
    && replies == replies[..k] + match decisions[k].last { case Some(text) => [FromHook(text)] case None => [] }
  }

  /** What the decisions of a handler come to, of which `expected` are due. */
  ghost predicate Judged(decisions: seq<Decision<()>>, expected: nat, v: Verdict) {
    match v
    case Answers(replies) => |decisions| == |replies| == expected && AnswerEach(decisions, expected, replies)
    case Panic(replies) => |decisions| != expected && |replies| == Min(|decisions|, expected) && AnswerEach(decisions, |replies|, replies)
    case Stopped(replies, ok) => exists k: nat :: k < expected && KilledAt(decisions, k, replies, ok)
  }

  lemma {:induction false} CollectFrom(decisions: seq<Decision<()>>, expected: nat, n: nat, sent: seq<Reply>)
    requires n <= |decisions| && n <= expected && n == |sent| && AnswerEach(decisions, n, sent)
    ensures Judged(decisions, expected, Collect(decisions[n..], expected - n, sent))
    decreases |decisions| - n
  {
    if n < |decisions| && n < expected {
      var d := decisions[n];
      if d.Kill? {
        var replies := sent + LastReply(d.last);
        assert replies[..n] == sent;
        assert KilledAt(decisions, n, replies, d.ok);
      } else {
        assert decisions[n..][1..] == decisions[n + 1..];
        CollectFrom(decisions, expected, n + 1, sent + [FromHook(d.reply)]);
      }
    }
  }

  /** Every reply to a mail is that of the decision in its place. */
  lemma CollectJudged(decisions: seq<Decision<()>>, expected: nat)
    ensures Judged(decisions, expected, Collect(decisions, expected, []))
  {
    assert decisions[0..] == decisions;
    CollectFrom(decisions, expected, 0, []);
  }

  /** What a handler that got `pieces` of the data `body` comes to. */
  ghost predicate MailJudged(env: Env, log: History, mail: MailMetadata, body: bytes, pieces: seq<bytes>, v: Verdict) {
    if Flatten(pieces) == body && env.completes(log, mail, pieces) then
      if env.protocol.Smtp? then Judged([env.handleMail(log, mail, pieces)], 1, v)
      else Judged(env.handleMails(log, mail, pieces), |mail.to|, v)
    else
      && v.Answers? && |v.replies| == (if env.protocol.Smtp? then 1 else |mail.to|)
      && forall i :: 0 <= i < |v.replies| ==> v.replies[i] == Standard(DidNotCallComplete)
  }

  lemma HandleJudged(env: Env, log: History, mail: MailMetadata, body: bytes, pieces: seq<bytes>)
    ensures MailJudged(env, log, mail, body, pieces, Handle(env, log, mail, body, pieces))
  {
    CollectJudged(Decisions(env, log, mail, pieces), ExpectedDecisions(env.protocol, mail));
  }

  // ------------------------------------------------------------------ every session keeps to the rules

  /** What a reaction to a command says of the hooks and of what has happened before. */
  predicate LegalReaction(env: Env, log: History, cmd: Command, pipelined: bool, r: Reaction) {
    match r
    case Next(e) =>
      && LegalEntry(env, log, e) && CommandOf(e) == Some(cmd) && !e.TlsStarted? && !e.MailHandled?
      && (e == Refused(Starttls, PipelineForbidden) ==> pipelined)
    case Stop(last, ok) => MayAsk(env, log, cmd) && KilledBy(env, log, cmd, last, ok)
    case ReadData(mail, ready) =>
      cmd.Data? && MayAsk(env, log, cmd) && MailOf(log) == Some(mail) && Accepted(env.filterData(log), ready)
    case SwitchTls(reply) =>
      cmd.Starttls? && !pipelined && MayAsk(env, log, cmd) && Accepted(env.handleStarttls(log), reply)
  }

  lemma HelloLegal(env: Env, log: History, cmd: Command, pipelined: bool)
    requires IsHello(cmd)
    ensures LegalReaction(env, log, cmd, pipelined, React(env, log, cmd, pipelined))
  { }

  lemma MailLegal(env: Env, log: History, cmd: Command, pipelined: bool)
    requires cmd.Mail? || cmd.Rcpt? || cmd.Data?
    ensures LegalReaction(env, log, cmd, pipelined, React(env, log, cmd, pipelined))
  { }

  lemma ReactLegal(env: Env, log: History, cmd: Command, pipelined: bool)
    ensures LegalReaction(env, log, cmd, pipelined, React(env, log, cmd, pipelined))
  {
    if IsHello(cmd) {
      HelloLegal(env, log, cmd, pipelined);
    } else if cmd.Mail? || cmd.Rcpt? || cmd.Data? {
      MailLegal(env, log, cmd, pipelined);
    }
  }

  /** Entry `e` is what the server made of `frame`; for a mail, of the data `body` of which its handler got `pieces`. */
  ghost predicate Answering(env: Env, before: History, a: Arrival, e: Entry, raw: bytes) {
    && LegalEntry(env, before, e)
    && (match a.frame
        case Bad => e == Skipped(CommandUnrecognized)
        case Full => e == Skipped(LineTooLong)
        case Got(cmd, n) =>
          && CommandOf(e) == Some(cmd) && (e == Refused(Starttls, PipelineForbidden) ==> a.buffered)
          && (e.MailHandled? ==> n <= |raw| && MailJudged(env, before, e.mail, raw[n..], a.pieces, Answers(e.answers)))
        case _ => false)
  }

  /** DATA was accepted, and the data of the mail ends after `n` bytes. */
  ghost predicate MailAt(env: Env, st: State, a: Arrival, n: nat) {
    && a.frame.Got? && a.frame.value.Data? && MayAsk(env, st.log, Data) && env.filterData(st.log).Accept?
    && a.frame.len <= |st.rest| && IsDataEnd(st.rest[a.frame.len..], n)
  }

  /** The mail came to `v`, and the replies sent are that to DATA and those of `v`. */
  ghost predicate MailEnds(env: Env, st: State, a: Arrival, v: Verdict, tail: seq<Reply>) {
    exists n: nat :: MailAt(env, st, a, n)
      && MailJudged(env, st.log, MailOf(st.log).value, st.rest[a.frame.len..][..n], a.pieces, v)
      && tail == [FromHook(env.filterData(st.log).reply)] + v.replies
  }

  /**
   Why a session ends: the client is gone, before, in or after a command or amid a mail;
   or a hook or a handler ends it; or a handler gives too many decisions or too few.
   */
  ghost predicate EndedBy(env: Env, st: State, a: Arrival, end: End) {
    match end
    case Closed => a.frame.Closed?
    case Aborted(tail) =>
      if !a.frame.Got? then tail == [] && !a.frame.Closed?
      else if a.frame.value.Data? then
        && env.filterData(st.log).Accept? && tail == [FromHook(env.filterData(st.log).reply)] && a.frame.len <= |st.rest|
        && forall n: nat :: !IsDataEnd(st.rest[a.frame.len..], n)
      else
        && a.frame.value.Starttls? && env.handleStarttls(st.log).Accept? && st.later == []
        && tail == [FromHook(env.handleStarttls(st.log).reply)]
    case Killed(tail, ok) =>
      && a.frame.Got? && MayAsk(env, st.log, a.frame.value)
      && ((exists last :: KilledBy(env, st.log, a.frame.value, last, ok) && tail == LastReply(last))
          || (tail != [] && MailEnds(env, st, a, Stopped(tail[1..], ok), tail)))
    case Panicked(tail) => tail != [] && MailEnds(env, st, a, Panic(tail[1..]), tail)
  }

  lemma DataEndIs(s: bytes)
    ensures DataEnd(s).Some? ==> IsDataEnd(s, DataEnd(s).value)
    ensures DataEnd(s).None? ==> forall n: nat :: !IsDataEnd(s, n)
  {
    forall n: nat ensures DataEnd(s) == Some(n) <==> IsDataEnd(s, n) { ScanEndIsDataEnd(s, n); }
  }

  /** A step that goes on adds one entry, by the rules; one that does not ends the session by the rules. */
  ghost predicate LegalStep(env: Env, st: State, a: Arrival, r: Stepped) {
    match r
    case Go(next) =>
      && |next.log| == |st.log| + 1 && next.log[..|st.log|] == st.log
      && |next.raws| == |st.raws| + 1 && next.raws[..|st.raws|] == st.raws
      && Answering(env, st.log, a, next.log[|st.log|], next.raws[|st.raws|])
    case Halt(end) => EndedBy(env, st, a, end)
  }

  lemma TakeMailRules(env: Env, st: State, a: Arrival, mail: MailMetadata, ready: bytes)
    requires a.frame.Got? && a.frame.value.Data? && a.frame.len <= |st.rest| && MayAsk(env, st.log, Data)
    requires MailOf(st.log) == Some(mail) && Accepted(env.filterData(st.log), ready)
    ensures LegalStep(env, st, a, TakeMail(env, st, a.frame.len, mail, ready, a.pieces))
  {
    var n, s := a.frame.len, st.rest[a.frame.len..];
    DataEndIs(s);
    match DataEnd(s)
    case None =>
    case Some(m) =>
      var body := st.rest[n..n + m];
      assert s[..m] == body && st.rest[..n + m][n..] == body;
      HandleJudged(env, st.log, mail, body, a.pieces);
      MailRules(env, st, a, mail, ready, m, Handle(env, st.log, mail, body, a.pieces));
  }

  lemma MailRules(env: Env, st: State, a: Arrival, mail: MailMetadata, ready: bytes, m: nat, v: Verdict)
    requires MailAt(env, st, a, m) && MailOf(st.log) == Some(mail) && Accepted(env.filterData(st.log), ready)
    requires a.frame.len + m <= |st.rest|
    requires var body := st.rest[a.frame.len..][..m];
             MailJudged(env, st.log, mail, body, a.pieces, v) && st.rest[..a.frame.len + m][a.frame.len..] == body
    ensures v.Answers? ==> Answering(env, st.log, a, MailHandled(mail, ready, v.replies), st.rest[..a.frame.len + m])
    ensures v.Stopped? ==> EndedBy(env, st, a, Killed([FromHook(ready)] + v.replies, v.ok))
    ensures v.Panic? ==> EndedBy(env, st, a, Panicked([FromHook(ready)] + v.replies))
  {
    match v
    case Answers(replies) => JudgedCount(env, st.log, mail, st.rest[a.frame.len..][..m], a.pieces, replies);
    case _ =>
      var tail := [FromHook(ready)] + v.replies;
      assert tail[1..] == v.replies;
      assert MailEnds(env, st, a, v, tail);
  }

  lemma JudgedCount(env: Env, log: History, mail: MailMetadata, body: bytes, pieces: seq<bytes>, replies: seq<Reply>)
    requires MailJudged(env, log, mail, body, pieces, Answers(replies))
    ensures |replies| == if env.protocol.Smtp? then 1 else |mail.to|
  { }

  /** However it arrives, what the server makes of a command keeps to the rules. */
  lemma StepRules(env: Env, st: State, a: Arrival)
    requires Within(a.frame, st.rest) && |st.log| == |st.raws|
    ensures LegalStep(env, st, a, Step(env, st, a))
  {
    if a.frame.Got? {
      var cmd, pipelined := a.frame.value, a.buffered && |st.rest| > a.frame.len;
      ReactLegal(env, st.log, cmd, pipelined);
      var r := React(env, st.log, cmd, pipelined);
      if r.ReadData? { TakeMailRules(env, st, a, r.mail, r.ready); }
    }
  }
}
