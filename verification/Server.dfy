/** The server at work: one connection, its buffer, and what it remembers of the session. */
module Server {
  import opened Bytes
  import opened Commands
  import opened DataFormat
  import opened DataReader
  import opened Framing
  import opened ReadBuffers
  import opened SessionProperties
  import opened SessionRules
  import opened SessionSpec
  import opened Streams

  const IGNORE_BUF_SIZE: nat := 128

  lemma FoldSnoc(alreadyTls: bool, log: History, e: Entry)
    ensures Replies(log + [e]) == Replies(log) + RepliesTo(e)
    ensures ConnectionOf(alreadyTls, log + [e]) == ConnectionAfter(ConnectionOf(alreadyTls, log), e)
    ensures MailOf(log + [e]) == MailAfter(MailOf(log), e)
  {
    assert (log + [e])[..|log|] == log;
    ConcatMore(ReplyGroups(log), RepliesTo(e), |log|);
    assert ReplyGroups(log + [e]) == ReplyGroups(log) + [RepliesTo(e)];
  }

  lemma {:induction false} ConcatMore(groups: seq<seq<Reply>>, more: seq<Reply>, n: nat)
    requires n <= |groups|
    ensures Concat(groups + [more], n) == Concat(groups, n)
  {
    if n > 0 { ConcatMore(groups, more, n - 1); }
  }

  lemma RegroupReplies(a: seq<Reply>, b: seq<Reply>, c: seq<Reply>)
    ensures a + b + c == a + (b + c)
  { }

  // ------------------------------------------------------------------ the data of a mail

  function Blank(size: nat): bytes { seq(size, i => 0) }

  lemma ReaderAtEnd(reader: EscapedDataReader)
    requires reader.Valid()
    ensures reader.IsFinished() ==> DataEnd(reader.stream) == Some(|reader.returned|) && reader.stream[..|reader.returned|] == reader.returned
    ensures reader.IsFinished() ==> reader.Rest() == reader.stream[|reader.returned|..]
    ensures !reader.IsFinished() && reader.Rest() == [] ==> DataEnd(reader.stream) == None
  {
    reader.FinishedAtDataEnd();
    if reader.IsFinished() {
      ScanEndIsDataEnd(reader.stream, |reader.returned|);
    } else if reader.Rest() == [] {
      assert reader.stream == reader.returned;
    }
  }

  lemma ReaderBeforeEnd(reader: EscapedDataReader)
    requires reader.Valid() && !reader.IsFinished()
    ensures DataEnd(reader.stream).Some? ==>
              |reader.returned| < DataEnd(reader.stream).value && reader.returned <= reader.stream[..DataEnd(reader.stream).value]
  {
    reader.FinishedAtDataEnd();
    var end := DataEnd(reader.stream);
    if end.Some? {
      ScanEndIsDataEnd(reader.stream, end.value);
      assert reader.stream[..end.value][..|reader.returned|] == reader.stream[..|reader.returned|] == reader.returned;
    }
  }

  ghost function DataIn(s: bytes): bytes
    requires DataEnd(s).Some?
  {
    s[..DataEnd(s).value]
  }

  /** One read of a mail handler, or of the server in its place. */
  method ReadSome(reader: EscapedDataReader, size: nat) returns (got: bytes, alive: bool)
    requires reader.Valid() && 0 < size <= reader.buf.Length
    modifies reader`start, reader`end, reader`state, reader`returned, reader.buf, reader.read
    ensures reader.Valid() && reader.returned == old(reader.returned) + got
    ensures |reader.Rest()| == |old(reader.Rest())| - |got|
    ensures got == [] && alive ==> reader.IsFinished()
    ensures !alive ==> got == [] && !reader.IsFinished() && reader.Rest() == []
  {
    var filled, r := reader.PollRead(Blank(size));
    match r
    case ReadOk(n) => got, alive := filled[..n], true;
    case ConnectionAborted => got, alive := [], false;
  }

  lemma FlattenOneMore(pieces: seq<bytes>, got: bytes)
    ensures Flatten(pieces + [got]) == Flatten(pieces) + got
  {
    FlattenAppend(pieces, [got]);
    assert Flatten([got]) == got + Flatten([]) == got;
  }

  /** A mail handler reads on as long as it likes, in pieces of any size. */
  method HandlerReads(env: Env, log: History, m: MailMetadata, reader: EscapedDataReader) returns (pieces: seq<bytes>, alive: bool)
    requires reader.Valid() && reader.buf.Length > 0 && reader.returned == []
    modifies reader`start, reader`end, reader`state, reader`returned, reader.buf, reader.read
    ensures reader.Valid() && Flatten(pieces) == reader.returned
    ensures alive ==> reader.IsFinished() || !env.readsOn(log, m, pieces)
    ensures forall i {:trigger pieces[..i]} :: 0 <= i < |pieces| ==> env.readsOn(log, m, pieces[..i])
    ensures !alive ==> !reader.IsFinished() && reader.Rest() == []
  {
    pieces, alive := [], true;
    while !reader.IsFinished() && env.readsOn(log, m, pieces)
      invariant reader.Valid() && Flatten(pieces) == reader.returned
      invariant forall i {:trigger pieces[..i]} :: 0 <= i < |pieces| ==> env.readsOn(log, m, pieces[..i])
      decreases |reader.Rest()| + if reader.IsFinished() then 0 else 1
    {
      var size :| 0 < size <= reader.buf.Length;
      var got;
      got, alive := ReadSome(reader, size);
      if !alive {
        return;
      }
      FlattenOneMore(pieces, got);
      assert forall i {:trigger (pieces + [got])[..i]} :: 0 <= i <= |pieces| ==> (pieces + [got])[..i] == pieces[..i];
      assert pieces[..|pieces|] == pieces;
      pieces := pieces + [got];
    }
  }

  /** The server reads what the handler has left. */
  method Drain(reader: EscapedDataReader) returns (alive: bool)
    requires reader.Valid() && reader.buf.Length >= IGNORE_BUF_SIZE
    modifies reader`start, reader`end, reader`state, reader`returned, reader.buf, reader.read
    ensures reader.Valid() && (alive <==> reader.IsFinished())
    ensures !alive ==> reader.Rest() == []
  {
    var got := [0];
    alive := true;
    while alive && got != []
      invariant reader.Valid()
      invariant got == [] && alive ==> reader.IsFinished()
      invariant !alive ==> !reader.IsFinished() && reader.Rest() == []
      decreases alive, |got| > 0, |reader.Rest()|
    {
      got, alive := ReadSome(reader, IGNORE_BUF_SIZE);
    }
  }

  /** The step that a mail comes to, of whose data `v` is the verdict. */
  function Concluded(st: State, m: MailMetadata, ready: bytes, v: Option<Verdict>, raw: bytes, rest: bytes): Stepped {
    match v
    case None => Halt(Aborted([FromHook(ready)]))
    case Some(Answers(replies)) => Go(State(st.log + [MailHandled(m, ready, replies)], st.raws + [raw], rest, st.later))
    case Some(Stopped(replies, ok)) => Halt(Killed([FromHook(ready)] + replies, ok))
    case Some(Panic(replies)) => Halt(Panicked([FromHook(ready)] + replies))
  }

  /** Of what was to be read, `body` is the data, of which the handler got `pieces` and gave the verdict; or there is no end of data. */
  ghost predicate HandledMail(env: Env, log: History, m: MailMetadata, was: bytes, v: Option<Verdict>, body: bytes, pieces: seq<bytes>, rest: bytes) {
    match v
    case None => DataEnd(was) == None
    case Some(verdict) =>
      && DataEnd(was) == Some(|body|) && was == body + rest
      && HandlerRun(env, log, m, body, pieces) && verdict == Handle(env, log, m, body, pieces)
  }

  lemma TakeMailIs(env: Env, st: State, n: nat, m: MailMetadata, ready: bytes, pieces: seq<bytes>, v: Option<Verdict>, body: bytes, rest: bytes)
    requires n <= |st.rest| && HandledMail(env, st.log, m, st.rest[n..], v, body, pieces, rest)
    ensures v.Some? ==> n + |body| <= |st.rest|
    ensures TakeMail(env, st, n, m, ready, pieces) == Concluded(st, m, ready, v, if v.Some? then st.rest[..n + |body|] else [], rest)
    ensures HandedOver(env, st, ReadData(m, ready), n, pieces)
  {
    if v.Some? {
      assert st.rest == st.rest[..n] + (body + rest);
      assert st.rest[n..n + |body|] == body && st.rest[n + |body|..] == rest;
    }
  }

  lemma FitsGot(env: Env, st: State, a: Arrival)
    requires Decided(env.parse, RDBUF_SIZE, st.rest, a.frame) && a.frame.Got? && a.frame.len <= |st.rest|
    requires PiecesFit(env, st, a.frame.value, a.frame.len, a.buffered, a.pieces)
    ensures Fits(env, st, a) && Step(env, st, a) == Obey(env, st, a.frame.value, a.frame.len, a.buffered, a.pieces)
  { }

  // ------------------------------------------------------------------ the server

  class Server {
    const env: Env
    const io: ReadBuffer
    var later: seq<bytes>
    var conn: ConnectionMetadata
    var mail: Option<MailMetadata>
    var history: History
    var sent: seq<Reply>
    ghost var raws: seq<bytes>

    constructor (env: Env, source: Source, later: seq<bytes>)
      ensures Valid() && this.env == env && fresh(io) && fresh(io.buf) && io.source == source
      ensures Now() == State([], [], source.unread, later)
    {
      this.env := env;
      this.later := later;
      io := new ReadBuffer(RDBUF_SIZE, source);
      conn := ConnectionMetadata(None, env.alreadyTls);
      mail, history, raws := None, [], [];
      sent := [Standard(WelcomeBanner)];
    }

    /** What the server remembers is what has happened, and all due replies have been sent. */
    ghost predicate Remembers()
      reads this
    {
      && conn == ConnectionOf(env.alreadyTls, history) && mail == MailOf(history)
      && sent == [Standard(WelcomeBanner)] + Replies(history)
    }

    ghost predicate Valid()
      reads this, io
    {
      io.Valid() && io.buf.Length == RDBUF_SIZE && Remembers()
    }

    ghost function Now(): State
      requires io.Valid()
      reads this, io, io.buf, io.source
    {
      State(history, raws, io.Rest(), later)
    }

    /** What a command has done to the server, as the reaction `r` says; `raw` are its bytes. */
    ghost predicate Reacted(h: History, past: seq<bytes>, replies: seq<Reply>, r: Reaction, raw: bytes)
      reads this
    {
      match r
      case Next(e) => history == h + [e] && raws == past + [raw] && Remembers()
      case Stop(last, _) => history == h && raws == past && sent == replies + LastReply(last)
      case ReadData(_, ready) =>
        && history == h && raws == past && sent == replies + [FromHook(ready)]
        && conn == ConnectionOf(env.alreadyTls, h) && mail == None
      case SwitchTls(reply) =>
        history == h && raws == past && sent == replies + [FromHook(reply)]
    }

    method Send(r: Reply)
      modifies this`sent
      ensures sent == old(sent) + [r]
    {
      sent := sent + [r];
    }

    /** Sends the reply of an entry and puts the entry down, the state being already as it says. */
    method Enter(e: Entry, ghost raw: bytes) returns (r: Reaction)
      requires !e.MailHandled? && sent == [Standard(WelcomeBanner)] + Replies(history)
      requires conn == ConnectionAfter(ConnectionOf(env.alreadyTls, history), e) && mail == MailAfter(MailOf(history), e)
      modifies this`history, this`raws, this`sent
      ensures r == Next(e) && Reacted(old(history), old(raws), old(sent), r, raw)
    {
      FoldSnoc(env.alreadyTls, history, e);
      Send(RepliesTo(e)[0]);
      history := history + [e];
      raws := raws + [raw];
      r := Next(e);
    }

    method SendLast(last: Option<bytes>)
      modifies this`sent
      ensures sent == old(sent) + LastReply(last)
    {
      if last.Some? { Send(FromHook(last.value)); }
    }

    method OnHello(cmd: Command, protocol: Protocol, extended: bool, host: Hostname, ghost raw: bytes) returns (r: Reaction)
      requires Remembers() && !cmd.Data?
      modifies this`conn, this`history, this`raws, this`sent
      ensures r == SessionSpec.OnHello(env, old(history), cmd, protocol, extended, host)
      ensures Reacted(old(history), old(raws), old(sent), r, raw)
    {
      if protocol != env.protocol {
        r := Enter(Refused(cmd, CommandUnrecognized), raw);
      } else if conn.hello.Some? {
        r := Enter(Refused(cmd, AlreadyDidHello), raw);
      } else {
        match env.filterHello(history, extended, host)
        case Accept(reply, info) =>
          conn := conn.(hello := Some(info));
          r := Enter(Greeted(cmd, info, reply), raw);
        case Reject(reply) => r := Enter(Rejected(cmd, reply), raw);
        case Kill(last, ok) => SendLast(last); r := Stop(last, ok);
      }
    }

    method OpenMail(cmd: Command, res: Option<Email>, reply: bytes, ghost raw: bytes) returns (r: Reaction)
      requires Remembers()
      modifies this`mail, this`history, this`raws, this`sent
      ensures r == Next(MailOpened(cmd, res, reply)) && Reacted(old(history), old(raws), old(sent), r, raw)
    {
      mail := Some(MailMetadata(res, []));
      r := Enter(MailOpened(cmd, res, reply), raw);
    }

    method OnMail(cmd: Command, from: Option<Email>, ghost raw: bytes) returns (r: Reaction)
      requires Remembers() && !cmd.Data?
      modifies this`mail, this`history, this`raws, this`sent
      ensures r == SessionSpec.OnMail(env, old(history), cmd, from)
      ensures Reacted(old(history), old(raws), old(sent), r, raw)
    {
      if conn.hello.None? {
        r := Enter(Refused(cmd, MailBeforeHello), raw);
      } else if mail.Some? {
        r := Enter(Refused(cmd, AlreadyInMail), raw);
      } else {
        match env.filterFrom(history, from)
        case Accept(reply, res) => r := OpenMail(cmd, res, reply, raw);
        case Reject(reply) => r := Enter(Rejected(cmd, reply), raw);
        case Kill(last, ok) => SendLast(last); r := Stop(last, ok);
      }
    }

    method OnRcpt(cmd: Command, to: Email, ghost raw: bytes) returns (r: Reaction)
      requires Remembers() && !cmd.Data?
      modifies this`mail, this`history, this`raws, this`sent
      ensures r == SessionSpec.OnRcpt(env, old(history), cmd, to)
      ensures Reacted(old(history), old(raws), old(sent), r, raw)
    {
      if mail.None? {
        r := Enter(Refused(cmd, RcptBeforeMail), raw);
      } else {
        match env.filterTo(history, to)
        case Accept(reply, res) =>
          mail := Some(mail.value.(to := mail.value.to + [res]));
          r := Enter(RcptAdded(cmd, res, reply), raw);
        case Reject(reply) => r := Enter(Rejected(cmd, reply), raw);
        case Kill(last, ok) => SendLast(last); r := Stop(last, ok);
      }
    }

    /** DATA takes the transaction out of the session first; only a refusal by the hook puts it back. */
    method OnData(ghost raw: bytes) returns (r: Reaction)
      requires Remembers()
      modifies this`mail, this`history, this`raws, this`sent
      ensures r == SessionSpec.OnData(env, old(history))
      ensures Reacted(old(history), old(raws), old(sent), r, raw)
    {
      var taken := mail;
      mail := None;
      if taken.None? || taken.value.to == [] {
        var why := if taken.None? then DataBeforeMail else DataBeforeRcpt;
        r := Enter(Refused(Data, why), raw);
      } else {
        match env.filterData(history)
        case Accept(ready, _) =>
          Send(FromHook(ready));
          r := ReadData(taken.value, ready);
        case Reject(reply) =>
          mail := taken;
          r := Enter(Rejected(Data, reply), raw);
        case Kill(last, ok) => SendLast(last); r := Stop(last, ok);
      }
    }

    method OnRset(ghost raw: bytes) returns (r: Reaction)
      requires Remembers()
      modifies this`mail, this`history, this`raws, this`sent
      ensures r == Settle(Rset, env.handleRset(old(history)), reply => Next(WasReset(reply)))
      ensures Reacted(old(history), old(raws), old(sent), r, raw)
    {
      match env.handleRset(history)
      case Accept(reply, _) =>
        mail := None;
        r := Enter(WasReset(reply), raw);
      case Reject(reply) => r := Enter(Rejected(Rset, reply), raw);
      case Kill(last, ok) => SendLast(last); r := Stop(last, ok);
    }

    method OnStarttls(ghost raw: bytes) returns (r: Reaction)
      requires Remembers()
      modifies this`history, this`raws, this`sent
      ensures r == SessionSpec.OnStarttls(env, old(history), old(io.start < io.end))
      ensures Reacted(old(history), old(raws), old(sent), r, raw)
    {
      if !env.canDoTls(conn) {
        r := Enter(Refused(Starttls, StarttlsUnsupported), raw);
      } else if io.start < io.end {
        r := Enter(Refused(Starttls, PipelineForbidden), raw);
      } else {
        match env.handleStarttls(history)
        case Accept(reply, _) =>
          Send(FromHook(reply));
          r := SwitchTls(reply);
        case Reject(reply) => r := Enter(Rejected(Starttls, reply), raw);
        case Kill(last, ok) => SendLast(last); r := Stop(last, ok);
      }
    }

    method OnOther(cmd: Command, ghost raw: bytes) returns (r: Reaction)
      requires Remembers()
      modifies this`history, this`raws, this`sent
      ensures r == Settle(cmd, env.handleOther(old(history), cmd), reply => Next(Answered(cmd, reply)))
      ensures Reacted(old(history), old(raws), old(sent), r, raw)
    {
      match env.handleOther(history, cmd)
      case Accept(reply, _) =>
        r := Enter(Answered(cmd, reply), raw);
      case Reject(reply) => r := Enter(Rejected(cmd, reply), raw);
      case Kill(last, ok) => SendLast(last); r := Stop(last, ok);
    }

    method Dispatch(cmd: Command, ghost raw: bytes) returns (r: Reaction)
      requires Remembers()
      modifies this`conn, this`mail, this`history, this`raws, this`sent
      ensures r == React(env, old(history), cmd, old(io.start < io.end))
      ensures Reacted(old(history), old(raws), old(sent), r, raw)
    {
      match cmd
      case Ehlo(host) => r := OnHello(cmd, Smtp, true, host, raw);
      case Helo(host) => r := OnHello(cmd, Smtp, false, host, raw);
      case Lhlo(host) => r := OnHello(cmd, Lmtp, true, host, raw);
      case Mail(_, from, _) => r := OnMail(cmd, from, raw);
      case Rcpt(_, to, _) => r := OnRcpt(cmd, to, raw);
      case Data => r := OnData(raw);
      case Rset => r := OnRset(raw);
      case Starttls => r := OnStarttls(raw);
      case _ => r := OnOther(cmd, raw);
    }

    /** Sends the decisions of a handler, of which there must be just as many as expected. */
    method SendDecisions(decisions: seq<Decision<()>>, expected: nat) returns (v: Verdict)
      modifies this`sent
      ensures v == Collect(decisions, expected, []) && sent == old(sent) + v.replies
    {
      var n, before := 0, |sent|;
      ghost var replies := [];
      while n < |decisions|
        invariant 0 <= n <= |decisions| && n <= expected
        invariant Collect(decisions, expected, []) == Collect(decisions[n..], expected - n, replies)
        invariant sent == old(sent) + replies
      {
        if n + 1 > expected {
          return Panic(sent[before..]);
        }
        assert decisions[n..][1..] == decisions[n + 1..];
        match decisions[n]
        case Kill(last, ok) =>
          SendLast(last);
          return Stopped(sent[before..], ok);
        case _ =>
          Send(FromHook(decisions[n].reply));
          replies := replies + [FromHook(decisions[n].reply)];
        n := n + 1;
      }
      v := if n == expected then Answers(sent[before..]) else Panic(sent[before..]);
    }

    /** The replies for a handler that did not call `complete`. */
    method SendExcuses(expected: nat)
      modifies this`sent
      ensures sent == old(sent) + seq(expected, i => Standard(DidNotCallComplete))
    {
      for i := 0 to expected
        invariant sent == old(sent) + seq(i, k => Standard(DidNotCallComplete))
      {
        Send(Standard(DidNotCallComplete));
      }
    }

    /** Lets the mail handler read the data; it may call `complete` when it has read it all. */
    method LetRead(reader: EscapedDataReader, m: MailMetadata) returns (completed: bool, pieces: seq<bytes>)
      requires reader.Valid() && reader.buf.Length > 0 && reader.returned == [] && !reader.completed
      modifies reader, reader.buf, reader.read
      ensures reader.Valid() && (reader.completed <==> completed)
      ensures DataEnd(reader.stream).Some? ==>
                && var body := DataIn(reader.stream);
                && HandlerRun(env, history, m, body, pieces)
                && completed == (Flatten(pieces) == body && env.completes(history, m, pieces))
    {
      var alive;
      pieces, alive := HandlerReads(env, history, m, reader);
      ReaderAtEnd(reader);
      if !reader.IsFinished() {
        ReaderBeforeEnd(reader);
      }
      completed := reader.IsFinished() && env.completes(history, m, pieces);
      if completed {
        reader.Complete();
      }
    }

    /** Has all the data read, by the mail handler or else by the server; `alive` unless the stream ends amid the data. */
    method Exhaust(reader: EscapedDataReader, m: MailMetadata) returns (alive: bool, completed: bool, pieces: seq<bytes>)
      requires reader.Valid() && reader.buf.Length == RDBUF_SIZE && reader.returned == [] && !reader.completed
      modifies reader, reader.buf, reader.read
      ensures reader.Valid() && reader.completed == alive
      ensures !alive ==> DataEnd(reader.stream) == None
      ensures alive ==>
                && DataEnd(reader.stream) == Some(|reader.returned|) && reader.stream == reader.returned + reader.Rest()
                && HandlerRun(env, history, m, reader.returned, pieces)
                && completed == (Flatten(pieces) == reader.returned && env.completes(history, m, pieces))
    {
      completed, pieces := LetRead(reader, m);
      alive := true;
      if !completed {
        alive := Drain(reader);
        if alive {
          reader.Complete();
        }
      }
      ReaderAtEnd(reader);
    }

    /** Hands the data over to a reader on the same buffer, and takes the window back from it. */
    method TakeData(m: MailMetadata) returns (alive: bool, completed: bool, pieces: seq<bytes>, ghost body: bytes)
      requires io.Valid() && io.buf.Length == RDBUF_SIZE
      modifies io`start, io`end, io.buf, io.source
      ensures io.Valid()
      ensures !alive ==> DataEnd(old(io.Rest())) == None
      ensures alive ==> DataEnd(old(io.Rest())) == Some(|body|) && old(io.Rest()) == body + io.Rest()
      ensures alive ==>
                && HandlerRun(env, history, m, body, pieces)
                && completed == (Flatten(pieces) == body && env.completes(history, m, pieces))
    {
      var reader := new EscapedDataReader(io.buf, io.start, io.end, io.source);
      alive, completed, pieces := Exhaust(reader, m);
      body := reader.returned;
      var unhandled := reader.GetUnhandled();
      if unhandled.Some? {
        io.start, io.end := unhandled.value.0, unhandled.value.1;
      }
    }

    /** A mail and its replies; no verdict if the stream ends amid the data. */
    method HandleMail(m: MailMetadata) returns (v: Option<Verdict>, ghost body: bytes, ghost pieces: seq<bytes>)
      requires io.Valid() && io.buf.Length == RDBUF_SIZE
      modifies this`sent, io`start, io`end, io.buf, io.source
      ensures io.Valid()
      ensures HandledMail(env, history, m, old(io.Rest()), v, body, pieces, io.Rest())
      ensures sent == old(sent) + if v.Some? then v.value.replies else []
    {
      var expected := ExpectedDecisions(env.protocol, m);
      var alive, completed, got;
      alive, completed, got, body := TakeData(m);
      pieces := got;
      if !alive {
        v := None;
      } else if completed {
        var verdict := SendDecisions(Decisions(env, history, m, got), expected);
        v := Some(verdict);
      } else {
        SendExcuses(expected);
        v := Some(Answers(seq(expected, i => Standard(DidNotCallComplete))));
      }
    }

    method ReadMail(m: MailMetadata, ready: bytes, ghost st: State, ghost n: nat) returns (halt: Option<End>, ghost pieces: seq<bytes>)
      requires io.Valid() && io.buf.Length == RDBUF_SIZE && n <= |st.rest| && io.Rest() == st.rest[n..]
      requires st.log == history && st.raws == raws && st.later == later
      requires conn == ConnectionOf(env.alreadyTls, history) && mail == None
      requires sent == [Standard(WelcomeBanner)] + Replies(history) + [FromHook(ready)]
      modifies this`sent, this`history, this`raws, io`start, io`end, io.buf, io.source
      ensures After(TakeMail(env, st, n, m, ready, pieces), halt, st.log, st.raws)
      ensures HandedOver(env, st, ReadData(m, ready), n, pieces)
    {
      ghost var body;
      var v;
      v, body, pieces := HandleMail(m);
      TakeMailIs(env, st, n, m, ready, pieces, v, body, io.Rest());
      halt := Conclude(m, ready, v, if v.Some? then st.rest[..n + |body|] else [], st, io.Rest());
    }

    method Conclude(m: MailMetadata, ready: bytes, v: Option<Verdict>, ghost raw: bytes, ghost st: State, ghost rest: bytes) returns (halt: Option<End>)
      requires sent == [Standard(WelcomeBanner)] + Replies(history) + [FromHook(ready)] + if v.Some? then v.value.replies else []
      requires conn == ConnectionOf(env.alreadyTls, history) && mail == None
      requires st.log == history && st.raws == raws && st.later == later
      modifies this`history, this`raws
      ensures halt.None? ==> Concluded(st, m, ready, v, raw, rest) == Go(State(history, raws, rest, later)) && Remembers()
      ensures halt.Some? ==>
                && Concluded(st, m, ready, v, raw, rest) == Halt(halt.value)
                && history == old(history) && raws == old(raws)
                && sent == [Standard(WelcomeBanner)] + Replies(history) + Tail(halt.value)
    {
      if v.Some? { RegroupReplies([Standard(WelcomeBanner)] + Replies(history), [FromHook(ready)], v.value.replies); }
      match v
      case None => halt := Some(Aborted([FromHook(ready)]));
      case Some(Answers(replies)) =>
        EnterMail(MailHandled(m, ready, replies), raw);
        halt := None;
      case Some(Stopped(replies, ok)) => halt := Some(Killed([FromHook(ready)] + replies, ok));
      case Some(Panic(replies)) => halt := Some(Panicked([FromHook(ready)] + replies));
    }

    method EnterMail(e: Entry, ghost raw: bytes)
      requires e.MailHandled? && sent == [Standard(WelcomeBanner)] + Replies(history) + RepliesTo(e)
      requires conn == ConnectionOf(env.alreadyTls, history) && mail == None
      modifies this`history, this`raws
      ensures history == old(history) + [e] && raws == old(raws) + [raw] && Remembers()
    {
      FoldSnoc(env.alreadyTls, history, e);
      RegroupReplies([Standard(WelcomeBanner)], Replies(history), RepliesTo(e));
      history := history + [e];
      raws := raws + [raw];
    }

    /** The TLS switch: nothing received in the clear is left in the buffer. */
    method SwitchToTls(reply: bytes, ghost raw: bytes)
      requires io.Valid() && io.buf.Length == RDBUF_SIZE && io.start == io.end && later != []
      requires sent == [Standard(WelcomeBanner)] + Replies(history) + [FromHook(reply)]
      modifies this`conn, this`mail, this`history, this`raws, this`later, io`source
      ensures Valid() && fresh(io.source)
      ensures history == old(history) + [TlsStarted(reply)] && raws == old(raws) + [raw]
      ensures io.Rest() == old(later)[0] && later == old(later)[1..]
    {
      ForgetAll(reply, raw);
      io.source := new Source(later[0]);
      later := later[1..];
      assert io.buf[io.start..io.end] == [];
    }

    method ForgetAll(reply: bytes, ghost raw: bytes)
      requires sent == [Standard(WelcomeBanner)] + Replies(history) + [FromHook(reply)]
      modifies this`conn, this`mail, this`history, this`raws
      ensures history == old(history) + [TlsStarted(reply)] && raws == old(raws) + [raw] && Remembers()
    {
      ghost var e := TlsStarted(reply);
      assert RepliesTo(e) == [FromHook(reply)];
      FoldSnoc(env.alreadyTls, history, e);
      RegroupReplies([Standard(WelcomeBanner)], Replies(history), RepliesTo(e));
      mail := None;
      conn := ConnectionMetadata(None, true);
      history := history + [TlsStarted(reply)];
      raws := raws + [raw];
    }

    /** The server after a step: it goes on as `r` says, or ends with its replies sent. */
    ghost predicate After(r: Stepped, halt: Option<End>, h: History, past: seq<bytes>)
      reads this, io, io.buf, io.source
    {
      match halt
      case None => Valid() && r == Go(Now())
      case Some(end) =>
        && r == Halt(end) && history == h && raws == past
        && sent == [Standard(WelcomeBanner)] + Replies(h) + Tail(end)
    }

    method Obey(cmd: Command, ghost all: bytes, ghost n: nat) returns (halt: Option<End>, ghost pieces: seq<bytes>)
      requires Valid() && n <= |all| && io.Rest() == all[n..]
      modifies this, io, io.buf, io.source
      ensures io.source == old(io.source) || fresh(io.source)
      ensures PiecesFit(env, State(old(history), old(raws), all, old(later)), cmd, n, old(io.start < io.end), pieces)
      ensures After(SessionSpec.Obey(env, State(old(history), old(raws), all, old(later)), cmd, n, old(io.start < io.end), pieces),
                    halt, old(history), old(raws))
    {
      ghost var st, pipelined := State(history, raws, all, later), io.start < io.end;
      assert pipelined ==> io.Rest() != [];
      ReactLegal(env, history, cmd, pipelined);
      var r := Dispatch(cmd, all[..n]);
      halt, pieces := Perform(r, st, n);
    }

    /** Does what is left to do after a reaction to a command of `n` bytes, which came in state `st`. */
    method Perform(r: Reaction, ghost st: State, ghost n: nat) returns (halt: Option<End>, ghost pieces: seq<bytes>)
      requires io.Valid() && io.buf.Length == RDBUF_SIZE && later == st.later && n <= |st.rest| && io.Rest() == st.rest[n..]
      requires Reacted(st.log, st.raws, [Standard(WelcomeBanner)] + Replies(st.log), r, st.rest[..n])
      requires r.SwitchTls? ==> io.start == io.end
      modifies this, io, io.buf, io.source
      ensures io.source == old(io.source) || fresh(io.source)
      ensures HandedOver(env, st, r, n, pieces)
      ensures After(SessionSpec.Perform(env, st, r, n, pieces), halt, st.log, st.raws)
    {
      pieces := [];
      match r
      case Next(e) => halt := None;
      case Stop(last, ok) => halt := Some(Killed(LastReply(last), ok));
      case ReadData(m, ready) => halt, pieces := ReadMail(m, ready, st, n);
      case SwitchTls(reply) => halt := StartTls(reply, st.rest, n);
    }

    method StartTls(reply: bytes, ghost all: bytes, ghost n: nat) returns (halt: Option<End>)
      requires io.Valid() && io.buf.Length == RDBUF_SIZE && io.start == io.end && n <= |all|
      requires sent == [Standard(WelcomeBanner)] + Replies(history) + [FromHook(reply)]
      modifies this, io`source
      ensures io.source == old(io.source) || fresh(io.source)
      ensures After(Switched(State(old(history), old(raws), all, old(later)), n, reply), halt, old(history), old(raws))
    {
      if later == [] {
        halt := Some(Aborted([FromHook(reply)]));
      } else {
        SwitchToTls(reply, all[..n]);
        halt := None;
      }
    }

    method EnterSkipped(why: Canned, ghost raw: bytes)
      requires Remembers()
      modifies this`history, this`raws, this`sent
      ensures history == old(history) + [Skipped(why)] && raws == old(raws) + [raw] && Remembers()
    {
      var _ := Enter(Skipped(why), raw);
    }

    method SkipLine(why: Canned) returns (halt: Option<End>)
      requires Valid()
      modifies this`history, this`raws, this`sent, io`start, io`end, io.buf, io.source
      ensures After(Skip(old(Now()), why), halt, old(history), old(raws))
    {
      ghost var st := Now();
      var found := io.AdvanceUntilCrLf();
      if found {
        ghost var n := LineEnd(st.rest).value;
        EnterSkipped(why, st.rest[..n]);
        assert Now() == Answer(st, n, Skipped(why));
        halt := None;
      } else {
        halt := Some(Aborted([]));
      }
    }

    /** One turn of the loop is one step of the session, for some arrival that fits the stream. */
    method Turn() returns (halt: Option<End>, ghost a: Arrival)
      requires Valid() && Consumes(env.parse)
      modifies this, io, io.buf, io.source
      ensures io.source == old(io.source) || fresh(io.source)
      ensures Fits(env, old(Now()), a) && After(Step(env, old(Now()), a), halt, old(history), old(raws))
    {
      ghost var all := io.Rest();
      var frame := io.Receive(env.parse, env.needed);
      a := Arrival(frame, io.start < io.end, []);
      match frame
      case Closed => halt := Some(End.Closed);
      case Cut => halt := Some(Aborted([]));
      case Bad => halt := SkipLine(CommandUnrecognized);
      case Full => halt := SkipLine(LineTooLong);
      case Got(cmd, n) =>
        ghost var st, pieces := State(history, raws, all, later), [];
        halt, pieces := Obey(cmd, all, n);
        a := a.(pieces := pieces);
        FitsGot(env, st, a);
    }

    /**
     The whole session, for any parser that consumes what it accepts: the history is legal,
     every byte before the last step has been answered once, and just the replies due have
     been sent. Where the parser takes all first parts of the stream for the same and no
     STARTTLS comes up, it runs as the bytes of the stream say, however they arrive.
     */
    method Interact() returns (end: End, ghost arrivals: seq<Arrival>, ghost last: State)
      requires Valid() && Advances(env.parse) && history == [] && raws == []
      modifies this, io, io.buf, io.source
      ensures Plays(env, old(Now()), arrivals, last, Some(end)) && history == last.log && raws == last.raws
      ensures Legal(env, history) && Conserved(old(io.Rest()), old(later), last)
      ensures AnswersAll(env, 0, arrivals, last) && arrivals != [] && EndedBy(env, last, arrivals[|arrivals| - 1], end)
      ensures sent == [Standard(WelcomeBanner)] + Replies(history) + Tail(end)
      ensures Impartial(env) && AlwaysDecides(env, old(Now())) && !SeesStarttls(env, old(Now())) ==> (last, end) == Session(env, old(Now()))
    {
      ghost var st0 := Now();
      arrivals, last := [], st0;
      var halt: Option<End> := None;
      while true
        invariant Valid() && last == Now() && Plays(env, st0, arrivals, last, None)
        invariant io.source == old(io.source) || fresh(io.source)
        decreases |later|, |io.Rest()|
      {
        ghost var a;
        halt, a := Turn();
        PlaysOn(env, st0, arrivals, last, a);
        arrivals := arrivals + [a];
        if halt.Some? {
          SessionLegal(env, st0, arrivals, last, halt);
          SessionAnswers(env, st0, arrivals, last, halt);
          SessionConserves(env, st0.rest, st0.later, st0, arrivals, last, halt);
          if Impartial(env) && AlwaysDecides(env, st0) && !SeesStarttls(env, st0) {
            NetworkIsIrrelevant(env, st0, arrivals, last, halt.value);
          }
          return halt.value, arrivals, last;
        }
        StepProgress(env, last, a);
        last := Step(env, last, a).next;
      }
    }
  }
}
