/** What holds of every session of the server, whatever the client sends and the hooks decide. */
module SessionProperties {
  import opened Bytes
  import opened Commands
  import opened DataFormat
  import opened Framing
  import opened SessionRules
  import opened SessionSpec

  // ------------------------------------------------------------------ the history of a session

  lemma LegalAppend(env: Env, log: History, e: Entry)
    requires Legal(env, log) && LegalEntry(env, log, e)
    ensures Legal(env, log + [e])
  {
    var log' := log + [e];
    forall i | 0 <= i < |log'| ensures LegalEntry(env, log'[..i], log'[i]) {
      assert log'[..i] == if i < |log| then log[..i] else log;
    }
  }

  lemma {:induction false} CollectCount(decisions: seq<Decision<()>>, expected: nat, sent: seq<Reply>)
    ensures var v := Collect(decisions, expected, sent); v.Answers? ==> |v.replies| == |sent| + expected
    ensures Collect(decisions, expected, sent).Answers? <==>
              |decisions| == expected && forall i :: 0 <= i < |decisions| ==> !decisions[i].Kill?
    decreases |decisions|
  {
    if decisions != [] && expected > 0 && !decisions[0].Kill? {
      CollectCount(decisions[1..], expected - 1, sent + [FromHook(decisions[0].reply)]);
      assert forall i :: 0 <= i < |decisions| ==> decisions[i] == if i == 0 then decisions[0] else decisions[1..][i - 1];
      assert forall i :: 0 <= i < |decisions| - 1 ==> decisions[1..][i] == decisions[i + 1];
    } else if decisions != [] && expected > 0 {
      assert decisions[0].Kill?;
    }
  }

  lemma StepLegal(env: Env, st: State, a: Arrival)
    requires Legal(env, st.log) && |st.log| == |st.raws| && Within(a.frame, st.rest)
    ensures var r := Step(env, st, a); r.Go? ==> Legal(env, r.next.log) && |r.next.log| == |r.next.raws|
  {
    StepRules(env, st, a);
    var r := Step(env, st, a);
    if r.Go? {
      LegalAppend(env, st.log, r.next.log[|st.log|]);
      assert r.next.log == st.log + [r.next.log[|st.log|]];
    }
  }

  /** However the stream arrives, the history of a session is legal. */
  lemma {:induction false} SessionLegal(env: Env, st: State, arrivals: seq<Arrival>, last: State, end: Option<End>)
    requires Plays(env, st, arrivals, last, end) && Legal(env, st.log) && |st.log| == |st.raws|
    ensures Legal(env, last.log) && |last.log| == |last.raws|
    decreases |arrivals|
  {
    if arrivals != [] {
      StepLegal(env, st, arrivals[0]);
      var r := Step(env, st, arrivals[0]);
      if r.Go? { SessionLegal(env, r.next, arrivals[1..], last, end); }
    }
  }

  /** From entry `n` on, the history has one entry for each arrival, made from it by the rules. */
  ghost predicate AnswersAll(env: Env, n: nat, arrivals: seq<Arrival>, last: State) {
    && n <= |last.log| == |last.raws| && |last.log| - n <= |arrivals|
    && forall i {:trigger arrivals[i]} :: 0 <= i < |last.log| - n ==>
         Answering(env, last.log[..n + i], arrivals[i], last.log[n + i], last.raws[n + i])
  }

  lemma OneMoreAnswered(env: Env, st: State, a: Arrival, next: State, arrivals: seq<Arrival>, last: State)
    requires |st.log| == |st.raws| && LegalStep(env, st, a, Go(next)) && AnswersAll(env, |next.log|, arrivals, last)
    requires last.log[..|next.log|] == next.log && last.raws[..|next.log|] == next.raws
    ensures AnswersAll(env, |st.log|, [a] + arrivals, last) && last.log[..|st.log|] == st.log && last.raws[..|st.log|] == st.raws
  {
    var n, all := |st.log|, [a] + arrivals;
    assert last.log[..n] == next.log[..n] && last.raws[..n] == next.raws[..n];
    assert last.log[n] == next.log[n] && last.raws[n] == next.raws[n];
    forall i {:trigger all[i]} | 0 <= i < |last.log| - n
      ensures Answering(env, last.log[..n + i], all[i], last.log[n + i], last.raws[n + i])
    {
      if i > 0 { assert all[i] == arrivals[i - 1] && n + i == |next.log| + (i - 1); }
    }
  }

  /**
   Every entry answers what has arrived in its place: the command of that arrival, with
   what its hook said, or a line skipped for the reason that there was. And the session
   ends for the reason that it gives.
   */
  lemma {:induction false} SessionAnswers(env: Env, st: State, arrivals: seq<Arrival>, last: State, end: Option<End>)
    requires Plays(env, st, arrivals, last, end) && |st.log| == |st.raws|
    ensures AnswersAll(env, |st.log|, arrivals, last) && last.log[..|st.log|] == st.log && last.raws[..|st.log|] == st.raws
    ensures |arrivals| == |last.log| - |st.log| + if end.Some? then 1 else 0
    ensures end.Some? ==> EndedBy(env, last, arrivals[|arrivals| - 1], end.value)
    decreases |arrivals|
  {
    if arrivals != [] {
      StepRules(env, st, arrivals[0]);
      var r := Step(env, st, arrivals[0]);
      if r.Go? {
        SessionAnswers(env, r.next, arrivals[1..], last, end);
        OneMoreAnswered(env, st, arrivals[0], r.next, arrivals[1..], last);
        assert [arrivals[0]] + arrivals[1..] == arrivals;
      }
    }
  }

  // ------------------------------------------------------------------ transactions

  lemma LegalBefore(env: Env, log: History, i: nat)
    requires Legal(env, log) && i <= |log|
    ensures Legal(env, log[..i])
  {
    assert forall k :: 0 <= k < i ==> log[..i][..k] == log[..k];
  }

  /** The entries of a transaction are those for which the hooks have said yes, to the commands that they answer. */
  predicate AllAccepted(env: Env, log: History, j: nat) {
    && j < |log| && log[j].MailOpened? && log[j].cmd.Mail? && env.filterFrom(log[..j], log[j].cmd.from) == Accept(log[j].reply, log[j].from)
    && forall k :: j < k < |log| && log[k].RcptAdded? ==>
         log[k].cmd.Rcpt? && env.filterTo(log[..k], log[k].cmd.to) == Accept(log[k].reply, log[k].to)
  }

  lemma LegalIsAccepted(env: Env, log: History, j: nat)
    requires Legal(env, log) && j < |log| && log[j].MailOpened?
    ensures AllAccepted(env, log, j)
  {
    assert LegalEntry(env, log[..j], log[j]);
    forall k | j < k < |log| && log[k].RcptAdded?
      ensures log[k].cmd.Rcpt? && env.filterTo(log[..k], log[k].cmd.to) == Accept(log[k].reply, log[k].to)
    {
      assert LegalEntry(env, log[..k], log[k]);
    }
  }

  /** A hello was accepted at `h`, and before `j`. */
  lemma GreetedBefore(env: Env, log: History, j: nat) returns (h: nat)
    requires Legal(env, log) && j < |log| && log[j].MailOpened? && forall k :: j < k < |log| ==> !log[k].TlsStarted?
    ensures h < j && log[h].Greeted? && LegalEntry(env, log[..h], log[h]) && forall k :: h < k < |log| ==> !log[k].TlsStarted?
  {
    assert LegalEntry(env, log[..j], log[j]);
    HelloIff(env.alreadyTls, log[..j], ConnectionOf(env.alreadyTls, log[..j]).hello.value);
    h :| GreetedAt(log[..j], h);
    assert LegalEntry(env, log[..h], log[h]);
  }

  /**
   Whenever a mail is handled, DATA was accepted for it, and its sender and its
   recipients, of which there are some, are exactly those that the hooks have accepted
   since its MAIL; nothing has ended the transaction in between; and a hello had been
   accepted before, on this very connection.
   */
  lemma TransactionIntegrity(env: Env, log: History, i: nat) returns (j: nat, h: nat)
    requires Legal(env, log) && i < |log| && log[i].MailHandled?
    ensures log[i].mail.to != [] && Accepted(env.filterData(log[..i]), log[i].ready)
    ensures OpenedAt(log[..i], j, log[i].mail) && AllAccepted(env, log[..i], j)
    ensures h < j && log[h].Greeted? && IsHello(log[h].cmd) && (forall k :: h < k < i ==> !log[k].TlsStarted?)
    ensures env.filterHello(log[..h], !log[h].cmd.Helo?, log[h].cmd.hostname) == Accept(log[h].reply, log[h].info)
  {
    var before := log[..i];
    assert LegalEntry(env, before, log[i]);
    LegalBefore(env, log, i);
    j := MailIsOpened(before, log[i].mail);
    LegalIsAccepted(env, before, j);
    h := GreetedBefore(env, before, j);
    assert before[..h] == log[..h];
  }

  // ------------------------------------------------------------------ TLS

  function TlsStarts(log: History): nat {
    if log == [] then 0 else TlsStarts(log[..|log| - 1]) + if log[|log| - 1].TlsStarted? then 1 else 0
  }

  /** The default of `can_do_tls`. */
  predicate DefaultCanDoTls(conn: ConnectionMetadata) {
    !conn.encrypted && conn.hello.Some? && conn.hello.value.extended
  }

  /** With the default hook TLS starts at most once, and not on a connection that has it already. */
  lemma {:induction false} TlsAtMostOnce(env: Env, log: History)
    requires Legal(env, log) && forall c :: env.canDoTls(c) ==> DefaultCanDoTls(c)
    ensures TlsStarts(log) <= 1 && (env.alreadyTls ==> TlsStarts(log) == 0)
    ensures TlsStarts(log) + (if env.alreadyTls then 1 else 0) == if ConnectionOf(env.alreadyTls, log).encrypted then 1 else 0
    decreases |log|
  {
    if log != [] {
      var n := |log| - 1;
      var before := log[..n];
      assert LegalEntry(env, log[..n], log[n]);
      assert Legal(env, before) by { assert forall k :: 0 <= k < n ==> before[..k] == log[..k]; }
      TlsAtMostOnce(env, before);
    }
  }

  // ------------------------------------------------------------------ bytes

  /** The bytes answered on the present stream. */
  function Consumed(log: History, raws: seq<bytes>): bytes
    requires |log| == |raws|
  {
    var n := |log| - 1;
    if log == [] || log[n].TlsStarted? then [] else Consumed(log[..n], raws[..n]) + raws[n]
  }

  /** The stream in use: that of the connection, or the latest one that TLS brought. */
  function Stream(input: bytes, later: seq<bytes>, log: History): bytes {
    var k := TlsStarts(log);
    if 0 < k <= |later| then later[k - 1] else input
  }

  /** No byte is lost or seen twice: those answered, then the rest, are the stream. */
  predicate Conserved(input: bytes, later: seq<bytes>, st: State) {
    && |st.log| == |st.raws| && TlsStarts(st.log) <= |later| && st.later == later[TlsStarts(st.log)..]
    && Consumed(st.log, st.raws) + st.rest == Stream(input, later, st.log)
  }

  /** The step answers the next bytes of the stream, with one entry. */
  predicate Ate(st: State, next: State) {
    && |next.log| == |st.log| + 1 && next.log[..|st.log|] == st.log
    && exists n: nat :: n <= |st.rest| && next.raws == st.raws + [st.rest[..n]] && next.rest == st.rest[n..]
  }

  lemma AnswerAte(st: State, n: nat, e: Entry)
    requires n <= |st.rest|
    ensures Ate(st, Answer(st, n, e)) && Answer(st, n, e).log[|st.log|] == e
  { }

  /** The step answers the next bytes, or switches to the next stream. */
  predicate Follows(st: State, next: State) {
    if next.later == st.later then Ate(st, next) && !next.log[|st.log|].TlsStarted?
    else
      && |next.log| == |st.log| + 1 && |next.raws| == |st.raws| + 1 && next.log[..|st.log|] == st.log
      && next.log[|st.log|].TlsStarted? && st.later != [] && next.later == st.later[1..] && next.rest == st.later[0]
  }

  lemma ObeyFollows(env: Env, st: State, cmd: Command, n: nat, buffered: bool, pieces: seq<bytes>)
    requires n <= |st.rest|
    ensures var r := Obey(env, st, cmd, n, buffered, pieces); r.Go? ==> Follows(st, r.next)
  {
    assert st.later != [] ==> |st.later[1..]| < |st.later|;
    var r := Obey(env, st, cmd, n, buffered, pieces);
    var reaction := React(env, st.log, cmd, buffered && |st.rest| > n);
    ReactLegal(env, st.log, cmd, buffered && |st.rest| > n);
    if r.Go? {
      if reaction.Next? { AnswerAte(st, n, reaction.entry); }
      else if reaction.ReadData? { AnswerAte(st, n + DataEnd(st.rest[n..]).value, r.next.log[|st.log|]); }
    }
  }

  lemma StepFollows(env: Env, st: State, a: Arrival)
    requires Within(a.frame, st.rest)
    ensures var r := Step(env, st, a); r.Go? ==> Follows(st, r.next)
  {
    var r := Step(env, st, a);
    if a.frame.Got? { ObeyFollows(env, st, a.frame.value, a.frame.len, a.buffered, a.pieces); }
    else if r.Go? { AnswerAte(st, LineEnd(st.rest).value, r.next.log[|st.log|]); }
  }

  lemma AteConserves(input: bytes, later: seq<bytes>, st: State, next: State)
    requires Conserved(input, later, st) && Ate(st, next) && next.later == st.later && !next.log[|st.log|].TlsStarted?
    ensures Conserved(input, later, next)
  {
    var n: nat :| n <= |st.rest| && next.raws == st.raws + [st.rest[..n]] && next.rest == st.rest[n..];
    ConsumedMore(st, next, n);
    Regroup(Consumed(st.log, st.raws), st.rest[..n], st.rest[n..]);
    assert st.rest == st.rest[..n] + st.rest[n..];
  }

  lemma ConsumedMore(st: State, next: State, n: nat)
    requires |st.log| == |st.raws| && |next.log| == |st.log| + 1 && next.log[..|st.log|] == st.log && !next.log[|st.log|].TlsStarted?
    requires n <= |st.rest| && next.raws == st.raws + [st.rest[..n]]
    ensures Consumed(next.log, next.raws) == Consumed(st.log, st.raws) + st.rest[..n] && TlsStarts(next.log) == TlsStarts(st.log)
  {
    assert next.raws[..|st.log|] == st.raws;
  }

  lemma StepConserves(env: Env, input: bytes, later: seq<bytes>, st: State, a: Arrival)
    requires Conserved(input, later, st) && Within(a.frame, st.rest)
    ensures var r := Step(env, st, a); r.Go? ==> Conserved(input, later, r.next)
  {
    StepFollows(env, st, a);
    var r := Step(env, st, a);
    if r.Go? && r.next.later == st.later { AteConserves(input, later, st, r.next); }
  }

  /** However the stream arrives, no byte of it is lost or seen twice. */
  lemma {:induction false} SessionConserves(env: Env, input: bytes, later: seq<bytes>, st: State, arrivals: seq<Arrival>, last: State, end: Option<End>)
    requires Plays(env, st, arrivals, last, end) && Conserved(input, later, st)
    ensures Conserved(input, later, last)
    decreases |arrivals|
  {
    if arrivals != [] {
      StepConserves(env, input, later, st, arrivals[0]);
      var r := Step(env, st, arrivals[0]);
      if r.Go? { SessionConserves(env, input, later, r.next, arrivals[1..], last, end); }
    }
  }

  lemma OnlyDataReads(env: Env, st: State, cmd: Command, n: nat, buffered: bool, pieces: seq<bytes>)
    requires n <= |st.rest|
    requires var r := Obey(env, st, cmd, n, buffered, pieces); r.Go? && r.next.log[|st.log|].MailHandled?
    ensures var m := DataEnd(st.rest[n..]);
            && cmd.Data? && m.Some?
            && var r := Obey(env, st, cmd, n, buffered, pieces); r == Go(Answer(st, n + m.value, r.next.log[|st.log|]))
  {
    ReactLegal(env, st.log, cmd, buffered && |st.rest| > n);
    var r := Obey(env, st, cmd, n, buffered, pieces);
    var m := DataEnd(st.rest[n..]);
    assert r == Go(Answer(st, n + m.value, r.next.log[|st.log|]));
  }

  /** The bytes of a mail are its DATA command and then the data: up to the first terminator, and no further. */
  lemma MailIsData(env: Env, st: State, a: Arrival)
    requires Within(a.frame, st.rest) && var r := Step(env, st, a); r.Go? && r.next.log[|st.log|].MailHandled?
    ensures var r := Step(env, st, a);
            && a.frame.Got? && a.frame.value.Data? && a.frame.len <= |r.next.raws[|st.raws|]| <= |st.rest|
            && r.next.rest == st.rest[|r.next.raws[|st.raws|]|..]
            && IsDataEnd(st.rest[a.frame.len..], |r.next.raws[|st.raws|]| - a.frame.len)
  {
    var n := a.frame.len;
    OnlyDataReads(env, st, a.frame.value, n, a.buffered, a.pieces);
    ScanEndIsDataEnd(st.rest[n..], DataEnd(st.rest[n..]).value);
  }

  // ------------------------------------------------------------------ replies

  /** How many replies an entry gets. */
  function RepliesDue(protocol: Protocol, e: Entry): nat {
    if e.MailHandled? then 1 + ExpectedDecisions(protocol, e.mail) else 1
  }

  /** How many the first `n` entries get. */
  function DueUpTo(protocol: Protocol, log: History, n: nat): nat
    requires n <= |log|
  {
    if n == 0 then 0 else DueUpTo(protocol, log, n - 1) + RepliesDue(protocol, log[n - 1])
  }

  lemma GroupSize(env: Env, log: History, n: nat)
    requires Legal(env, log) && n < |log|
    ensures |ReplyGroups(log)[n]| == RepliesDue(env.protocol, log[n])
  {
    assert LegalEntry(env, log[..n], log[n]);
  }

  /** Every command and every skipped line has its replies, and no other is ever sent. */
  lemma {:induction false} RepliesAreDue(env: Env, log: History, n: nat)
    requires Legal(env, log) && n <= |log|
    ensures |Concat(ReplyGroups(log), n)| == DueUpTo(env.protocol, log, n)
  {
    if n > 0 {
      GroupSize(env, log, n - 1);
      RepliesAreDue(env, log, n - 1);
    }
  }

  predicate ReplyAt(replies: seq<Reply>, p: nat, r: Reply) {
    p < |replies| && replies[p] == r
  }

  lemma ReplyStays(replies: seq<Reply>, more: seq<Reply>, p: nat, r: Reply)
    requires ReplyAt(replies, p, r)
    ensures ReplyAt(replies + more, p, r)
  { }

  lemma ReplyNext(before: seq<Reply>, replies: seq<Reply>, j: nat)
    requires j < |replies|
    ensures ReplyAt(before + replies, |before| + j, replies[j])
  { }

  /** Reply `j` of group `i` stands right after the groups before it, in any number `k` of groups. */
  lemma {:induction false} GroupsInOrder(groups: seq<seq<Reply>>, i: nat, j: nat, k: nat)
    requires i < k <= |groups| && j < |groups[i]|
    ensures ReplyAt(Concat(groups, k), |Concat(groups, i)| + j, groups[i][j])
    decreases k
  {
    if i < k - 1 {
      GroupsInOrder(groups, i, j, k - 1);
      ReplyStays(Concat(groups, k - 1), groups[k - 1], |Concat(groups, i)| + j, groups[i][j]);
    } else {
      ReplyNext(Concat(groups, i), groups[i], j);
    }
  }

  /** Reply `j` to entry `i` stands right after the replies to the entries before it. */
  lemma RepliesInOrder(log: History, i: nat, j: nat)
    requires i < |log| && j < |RepliesTo(log[i])|
    ensures ReplyAt(Replies(log), |Concat(ReplyGroups(log), i)| + j, RepliesTo(log[i])[j])
  {
    GroupsInOrder(ReplyGroups(log), i, j, |log|);
  }

  /**
   The replies from `p` on are those of entry `e`: to a refusal and to a skipped line the
   canned reply for their reason, to all else what the hook said; and after that, to a
   mail, the answers of its handler.
   */
  predicate OwnReplies(replies: seq<Reply>, p: nat, e: Entry) {
    && (e.Skipped? || e.Refused? ==> ReplyAt(replies, p, Standard(e.why)))
    && (e.MailHandled? ==>
          && ReplyAt(replies, p, FromHook(e.ready))
          && forall j :: 0 <= j < |e.answers| ==> ReplyAt(replies, p + (j + 1), e.answers[j]))
    && (!e.Skipped? && !e.Refused? && !e.MailHandled? ==> ReplyAt(replies, p, FromHook(e.reply)))
  }

  predicate GroupAt(replies: seq<Reply>, p: nat, group: seq<Reply>) {
    forall j :: 0 <= j < |group| ==> ReplyAt(replies, p + j, group[j])
  }

  lemma GroupInPlace(log: History, i: nat)
    requires i < |log|
    ensures GroupAt(Replies(log), |Concat(ReplyGroups(log), i)|, RepliesTo(log[i]))
  {
    forall j | 0 <= j < |RepliesTo(log[i])|
      ensures ReplyAt(Replies(log), |Concat(ReplyGroups(log), i)| + j, RepliesTo(log[i])[j])
    {
      RepliesInOrder(log, i, j);
    }
  }

  lemma OwnIsGroup(replies: seq<Reply>, p: nat, e: Entry)
    requires GroupAt(replies, p, RepliesTo(e))
    ensures OwnReplies(replies, p, e)
  {
    assert ReplyAt(replies, p + 0, RepliesTo(e)[0]);
    if e.MailHandled? {
      forall j | 0 <= j < |e.answers| ensures ReplyAt(replies, p + (j + 1), e.answers[j]) {
        assert RepliesTo(e)[j + 1] == e.answers[j];
      }
    }
  }

  /** Every entry gets the replies that are its own, right after all those that are due before it. */
  lemma EachGetsItsOwn(env: Env, log: History, i: nat)
    requires Legal(env, log) && i < |log|
    ensures OwnReplies(Replies(log), DueUpTo(env.protocol, log, i), log[i])
  {
    RepliesAreDue(env, log, i);
    GroupInPlace(log, i);
    OwnIsGroup(Replies(log), |Concat(ReplyGroups(log), i)|, log[i]);
  }

  // ------------------------------------------------------------------ the network

  /** The verdict on a mail does not depend on the pieces in which its handler got the data. */
  ghost predicate Impartial(env: Env) {
    forall log: History, mail: MailMetadata, body: bytes, p: seq<bytes>, q: seq<bytes>
      {:trigger HandlerRun(env, log, mail, body, p), HandlerRun(env, log, mail, body, q)} ::
      HandlerRun(env, log, mail, body, p) && HandlerRun(env, log, mail, body, q) ==>
        Handle(env, log, mail, body, p) == Handle(env, log, mail, body, q)
  }

  /** Whatever part of the stream has arrived, the parser takes what comes next for the same; at every step from `st` on. */
  ghost predicate AlwaysDecides(env: Env, st: State)
    requires Advances(env.parse)
    decreases |st.later|, |st.rest|
  {
    UsualFits(env, st);
    StepProgress(env, st, Usual(env, st));
    && Decides(env.parse, RDBUF_SIZE, st.rest)
    && match Step(env, st, Usual(env, st)) { case Halt(_) => true case Go(next) => AlwaysDecides(env, next) }
  }

  /** A STARTTLS comes up in the session from `st` on. */
  ghost predicate SeesStarttls(env: Env, st: State)
    requires Advances(env.parse)
    decreases |st.later|, |st.rest|
  {
    UsualFits(env, st);
    StepProgress(env, st, Usual(env, st));
    var frame := Usual(env, st).frame;
    || (frame.Got? && frame.value.Starttls?)
    || match Step(env, st, Usual(env, st)) { case Halt(_) => false case Go(next) => SeesStarttls(env, next) }
  }

  lemma ReactUsually(env: Env, log: History, cmd: Command, pipelined: bool)
    requires !cmd.Starttls?
    ensures React(env, log, cmd, pipelined) == React(env, log, cmd, false)
  { }

  lemma ObeyUsually(env: Env, st: State, cmd: Command, n: nat, buffered: bool, pieces: seq<bytes>, pieces': seq<bytes>)
    requires Impartial(env) && !cmd.Starttls? && n <= |st.rest|
    requires PiecesFit(env, st, cmd, n, buffered, pieces) && PiecesFit(env, st, cmd, n, false, pieces')
    ensures Obey(env, st, cmd, n, buffered, pieces) == Obey(env, st, cmd, n, false, pieces')
  {
    ReactUsually(env, st.log, cmd, buffered && |st.rest| > n);
  }

  lemma StepIsUsual(env: Env, st: State, a: Arrival)
    requires Impartial(env) && Decides(env.parse, RDBUF_SIZE, st.rest) && Fits(env, st, a)
    requires var frame := Usual(env, st).frame; !(frame.Got? && frame.value.Starttls?)
    ensures Step(env, st, a) == Step(env, st, Usual(env, st))
  {
    DecidesOnce(env.parse, RDBUF_SIZE, st.rest, a.frame);
    UsualFits(env, st);
    if a.frame.Got? { ObeyUsually(env, st, a.frame.value, a.frame.len, a.buffered, a.pieces, Usual(env, st).pieces); }
  }

  /**
   Where the parser takes every first part of the stream for the same and no STARTTLS
   comes up, how the network splits the stream makes no difference at all.
   */
  lemma {:induction false} NetworkIsIrrelevant(env: Env, st: State, arrivals: seq<Arrival>, last: State, end: End)
    requires Advances(env.parse) && Impartial(env) && AlwaysDecides(env, st) && !SeesStarttls(env, st)
    requires Plays(env, st, arrivals, last, Some(end))
    ensures (last, end) == Session(env, st)
    decreases |arrivals|
  {
    UsualFits(env, st);
    StepProgress(env, st, Usual(env, st));
    StepIsUsual(env, st, arrivals[0]);
    var r := Step(env, st, arrivals[0]);
    if r.Go? { NetworkIsIrrelevant(env, r.next, arrivals[1..], last, end); }
  }

  /** A stable parser is one with which that holds of every stream. */
  lemma {:induction false} StableAlwaysDecides(env: Env, st: State)
    requires Stable(env.parse)
    ensures Advances(env.parse) && AlwaysDecides(env, st)
    decreases |st.later|, |st.rest|
  {
    StableDecides(env.parse, RDBUF_SIZE, st.rest);
    UsualFits(env, st);
    StepProgress(env, st, Usual(env, st));
    var r := Step(env, st, Usual(env, st));
    if r.Go? { StableAlwaysDecides(env, r.next); }
  }

  /**
   A line is too long only if its command is still incomplete after as many bytes as the
   buffer holds; and then, if no part of it was taken for something before.
   */
  lemma TooLongIff(env: Env, st: State, a: Arrival)
    requires |st.log| == |st.raws| && LineEnd(st.rest).Some? && Fits(env, st, a)
    ensures var long := Step(env, st, a) == Go(Answer(st, LineEnd(st.rest).value, Skipped(LineTooLong)));
            var incomplete := |st.rest| >= RDBUF_SIZE && env.parse(st.rest[..RDBUF_SIZE]).Incomplete?;
            && (long ==> incomplete) && (Decides(env.parse, RDBUF_SIZE, st.rest) ==> (long <==> incomplete))
  {
    LongIsFull(st, env, a);
    if a.frame.Full? {
      var k: nat :| 0 < k <= Min(RDBUF_SIZE, |st.rest|) && a.frame == AwaitFrom(env.parse, RDBUF_SIZE, st.rest, k);
    }
    if Decides(env.parse, RDBUF_SIZE, st.rest) { DecidesOnce(env.parse, RDBUF_SIZE, st.rest, a.frame); }
  }

  lemma LongIsFull(st: State, env: Env, a: Arrival)
    requires |st.log| == |st.raws| && LineEnd(st.rest).Some? && Within(a.frame, st.rest)
    ensures Step(env, st, a) == Go(Answer(st, LineEnd(st.rest).value, Skipped(LineTooLong))) <==> a.frame.Full?
  {
    var r := Step(env, st, a);
    if a.frame.Got? && r.Go? {
      StepRules(env, st, a);
      assert CommandOf(r.next.log[|st.log|]).Some?;
    } else if r.Go? {
      assert r.next.log[|st.log|].why == if a.frame.Full? then LineTooLong else CommandUnrecognized;
    }
  }
}
