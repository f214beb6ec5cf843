/** The server with the grammar of commands: when the network makes a difference, and when it does not. */
module CommandFraming {
  import opened AddressSyntax
  import opened Automata
  import opened Bytes
  import opened Combinators
  import opened Commands
  import opened CommandSpelling
  import opened CommandSyntax
  import opened Framing
  import opened GrammarStability
  import opened SessionProperties
  import opened SessionSpec
  import opened Utf8

  function CommandParser(f: Foreign): bytes -> Outcome<Command> {
    s => ParseCommand(f, s)
  }

  lemma CommandAdvances(f: Foreign)
    ensures Advances(CommandParser(f))
  {
    forall s | ParseCommand(f, s).Ok? ensures |ParseCommand(f, s).rest| < |s| { CommandIsLine(f, s); }
  }

  // ------------------------------------------------------------------ one line

  /** Its first `k` bytes are cut inside a character, and taken for an error. */
  predicate CutError(f: Foreign, s: bytes, k: nat) {
    k <= |s| && !Settled(s[..k]) && ParseCommand(f, s[..k]).Error?
  }

  lemma DecidesAt(f: Foreign, size: nat, s: bytes, k: nat)
    requires 0 < k <= Min(size, |s|) && !ParseCommand(f, s[..k]).Incomplete?
    ensures AwaitFrom(CommandParser(f), size, s, k) == Await(CommandParser(f), size, s) ||
            (CutError(f, s, k) && !Await(CommandParser(f), size, s).Bad?)
  {
    var held := s[..Min(size, |s|)];
    assert held == s[..k] + held[k..];
    CommandFollows(f, s[..k], held[k..]);
    CommandIsLine(f, s[..k]);
  }

  /** What the pieces are in which a line arrives matters exactly if some of them end inside a character and look bad, and the line is not. */
  lemma CommandDecidesIff(f: Foreign, size: nat, s: bytes)
    ensures Decides(CommandParser(f), size, s) <==>
            Await(CommandParser(f), size, s).Bad? || forall k: nat :: 0 < k <= Min(size, |s|) ==> !CutError(f, s, k)
  {
    var parse := CommandParser(f);
    if Await(parse, size, s).Bad? || forall k: nat :: 0 < k <= Min(size, |s|) ==> !CutError(f, s, k) {
      forall k: nat | 0 < k <= Min(size, |s|) && !parse(s[..k]).Incomplete?
        ensures AwaitFrom(parse, size, s, k) == Await(parse, size, s)
      {
        DecidesAt(f, size, s, k);
      }
    } else {
      var k: nat :| 0 < k <= Min(size, |s|) && CutError(f, s, k);
      assert AwaitFrom(parse, size, s, k).Bad?;
    }
  }

  /** The first line is ASCII; so is all there is, if there is no line end yet. */
  predicate AsciiLine(s: bytes) {
    forall i :: 0 <= i < (match LineEnd(s) { case Some(n) => n case None => |s| }) ==> s[i] < 0x80
  }

  /** Of an ASCII line, all first parts are taken for the same. */
  lemma AsciiDecides(f: Foreign, size: nat, s: bytes)
    requires AsciiLine(s)
    ensures Decides(CommandParser(f), size, s)
  {
    LineEndIsFirst(s);
    forall k: nat | 0 < k <= Min(size, |s|) ensures !CutError(f, s, k) {
      if LineEnd(s).Some? && k >= LineEnd(s).value {
        assert s[..k][LineEnd(s).value - 2] == CR;
      } else {
        AllAscii(s[..k]);
      }
    }
    CommandDecidesIff(f, size, s);
  }

  /** What the parser accepts is the first line. */
  ghost predicate TakesLines<T(!new)>(parse: bytes -> Outcome<T>) {
    forall t: bytes :: parse(t).Ok? ==> LineEnd(t).Some? && parse(t).rest == t[LineEnd(t).value..]
  }

  lemma FrameIsLine<T(!new)>(parse: bytes -> Outcome<T>, size: nat, s: bytes, r: Awaited<T>)
    requires TakesLines(parse) && Decided(parse, size, s, r) && r.Got?
    ensures LineEnd(s) == Some(r.len)
  {
    var k := GotMeans(parse, size, s, r);
    LineEndMore(s[..k], s[k..]);
    assert s[..k] + s[k..] == s;
  }

  lemma CommandTakesLines(f: Foreign)
    ensures TakesLines(CommandParser(f))
  {
    forall t: bytes | CommandParser(f)(t).Ok? ensures LineEnd(t).Some? && CommandParser(f)(t).rest == t[LineEnd(t).value..] {
      CommandIsLine(f, t);
    }
  }

  /** However it arrives, a command is the first line. */
  lemma CommandFrameIsLine(f: Foreign, size: nat, s: bytes, r: Awaited<Command>)
    requires Decided(CommandParser(f), size, s, r) && r.Got?
    ensures LineEnd(s) == Some(r.len)
  {
    CommandTakesLines(f);
    FrameIsLine(CommandParser(f), size, s, r);
  }

  /** A line is called too long only if it is longer than the buffer. */
  lemma CommandTooLong(f: Foreign, size: nat, s: bytes)
    requires Decided(CommandParser(f), size, s, Full)
    ensures |s| >= size && LineEnd(s[..size]).None? && (LineEnd(s).Some? ==> LineEnd(s).value > size)
  {
    FullIsIncomplete(CommandParser(f), size, s);
    CommandIsLine(f, s[..size]);
    LineBeyond(s, size);
  }

  lemma LineBeyond(s: bytes, n: nat)
    requires n <= |s| && LineEnd(s[..n]).None?
    ensures LineEnd(s).Some? ==> LineEnd(s).value > n
  {
    LineEndIsFirst(s);
    LineEndIsFirst(s[..n]);
    assert forall j :: CrLfAt(s, j) && j + 2 <= n ==> CrLfAt(s[..n], j);
  }

  // ------------------------------------------------------------------ a character that is cut

  /** `EHLO aé`, the last letter of which is two bytes, and its end of line. */
  const HELLO: bytes := [69, 72, 76, 79, 32, 97, 0xC3, 0xA9, 13, 10]

  const HOST: bytes := [97, 0xC3, 0xA9]

  lemma HostRuns()
    ensures Run(HOSTNAME_UTF8, [97]) == 1 && Run(HOSTNAME_UTF8, [97, 0xC3]) == 2 && Run(HOSTNAME_UTF8, HOST) == 1
  {
    assert HostByte(97) && [97][..0] == [];
    assert Run(HOSTNAME_UTF8, [97]) == NextUtf8(HostByte, 1, 97) == 1;
    assert [97, 0xC3][..1] == [97] && HOST[..2] == [97, 0xC3];
    assert Run(HOSTNAME_UTF8, [97, 0xC3]) == NextUtf8(HostByte, 1, 0xC3);
    assert Run(HOSTNAME_UTF8, HOST) == NextUtf8(HostByte, 2, 0xA9);
  }

  lemma CutHostIsError(f: Foreign)
    ensures ParseHostname(f, WORD_END, [97, 0xC3]).Error?
  {
    var w, b := [97], [0xC3];
    assert w + b == [97, 0xC3] && w[..0] == [] && [97, 0xC3][..1] == w;
    HostRuns();
    assert Run(HOSTNAME_ASCII, w) == 2;
    MatchThenDead(HOSTNAME_ASCII, w, b);
    assert Longest(HOSTNAME_UTF8, [97, 0xC3]) == Longest(HOSTNAME_UTF8, w) == Some(1);
  }

  lemma WholeHostIsGood(f: Foreign)
    requires f.hasPunycode(HOST)
    ensures GoodHostname(f, Utf8Domain(HOST))
  {
    HostRuns();
    AddressesWellFormed();
    assert HOST[..1] == [97] && HOST[..2] == [97, 0xC3] && [97, 0xC3][..1] == [97] && [97][..0] == [] && HOST[..3] == HOST;
    assert Run(HOSTNAME_ASCII, [97, 0xC3]) == DEAD;
    DeadEnds(HOSTNAME_ASCII, HOST, 2, 3);
  }

  lemma BadHello(f: Foreign, s: bytes)
    requires s != [] && s[0] !in BLANKS && ParseLastHost(f, s).Error?
    ensures ParseCommand(f, Keyword(1) + ([SP] + s)).Error?
  {
    var x := [SP] + s;
    BlanksRead([SP], s);
    NoKeywordFrom(f, 2, x);
    BadFirstHello(f, x);
  }

  lemma BadFirstHello(f: Foreign, x: bytes)
    requires ParseHost(f, x).Error? && ParseFrom(f, 2, Keyword(1) + x).Error?
    ensures ParseCommand(f, Keyword(1) + x).Error?
  {
    var line := Keyword(1) + x;
    assert line[|Keyword(1)|..] == x && forall k :: 0 <= k < |Keyword(1)| ==> line[k] == Keyword(1)[k];
    OthersFail(f, 1, 1, line);
    BadHost(f, line, x);
  }

  lemma BadHost(f: Foreign, line: bytes, x: bytes)
    requires Begins(1, line) && line[|Keyword(1)|..] == x && ParseHost(f, x).Error?
    ensures ParseAlternative(f, 1, line).Error?
  {
    AfterHost(f, 1, x);
  }

  /** After EHLO, no later keyword can match. */
  lemma {:induction false} NoKeywordFrom(f: Foreign, i: nat, x: bytes)
    requires 2 <= i <= 13
    ensures ParseFrom(f, i, Keyword(1) + x).Error?
    decreases 13 - i
  {
    if i < 13 {
      var d := Difference(1, i);
      assert (Keyword(1) + x)[d] == Keyword(1)[d];
      assert ToUpper(Keyword(1)[d]) != ToUpper(Keyword(i)[d]);
      OtherFails(f, i, Keyword(1) + x);
      NoKeywordFrom(f, i + 1, x);
    }
  }

  /** A hello that is a command when it arrives at once is a bad line when it arrives cut inside a character. */
  lemma CutCharacter(f: Foreign)
    requires f.hasPunycode(HOST)
    ensures ParseCommand(f, HELLO) == Ok(Ehlo(Utf8Domain(HOST)), []) && ParseCommand(f, HELLO[..7]).Error?
    ensures Decided(CommandParser(f), RDBUF_SIZE, HELLO, Got(Ehlo(Utf8Domain(HOST)), 10)) && Decided(CommandParser(f), RDBUF_SIZE, HELLO, Bad)
    ensures !Decides(CommandParser(f), RDBUF_SIZE, HELLO)
  {
    var cut, hello := [97, 0xC3], Ehlo(Utf8Domain(HOST));
    assert HELLO[..7] == Keyword(1) + ([SP] + cut) && HELLO == Print(hello) + [] && HELLO[..10] == HELLO;
    CutHostIsError(f);
    BadHello(f, cut);
    WholeHostIsGood(f);
    CommandRoundTrip(f, hello, []);
    var parse := CommandParser(f);
    assert AwaitFrom(parse, RDBUF_SIZE, HELLO, 10) == Got(Ehlo(Utf8Domain(HOST)), 10);
    assert AwaitFrom(parse, RDBUF_SIZE, HELLO, 7) == Bad;
  }

  // ------------------------------------------------------------------ sessions

  /** A step takes one line and answers it; a mail's takes the line of its DATA command and then its data. */
  lemma StepTakesALine(f: Foreign, env: Env, st: State, a: Arrival, next: State)
    requires env.parse == CommandParser(f) && Fits(env, st, a) && Step(env, st, a) == Go(next)
    ensures LineEnd(st.rest).Some? && AnswersLine(st, LineEnd(st.rest).value, next)
  {
    if a.frame.Got? {
      CommandFrameIsLine(f, RDBUF_SIZE, st.rest, a.frame);
      ObeyAnswersLine(env, st, a.frame.value, a.frame.len, a.buffered, a.pieces, next);
    }
  }

  /** One more entry answers the first `n` bytes, and a mail's its data as well. */
  predicate AnswersLine(st: State, n: nat, next: State) {
    && n <= |st.rest| && |next.log| == |st.log| + 1 && |next.raws| == |st.raws| + 1
    && st.rest[..n] <= next.raws[|st.raws|]
    && (!next.log[|st.log|].MailHandled? ==> next.raws[|st.raws|] == st.rest[..n])
  }

  lemma ObeyAnswersLine(env: Env, st: State, cmd: Command, n: nat, buffered: bool, pieces: seq<bytes>, next: State)
    requires n <= |st.rest| && Obey(env, st, cmd, n, buffered, pieces) == Go(next)
    ensures AnswersLine(st, n, next)
  {
    var r := React(env, st.log, cmd, buffered && |st.rest| > n);
    if r.ReadData? {
      var m := DataEnd(st.rest[n..]).value;
      assert st.rest[..n + m][..n] == st.rest[..n];
    }
  }

  /** Every line that is read for a command, from `st` on, is ASCII. */
  ghost predicate AsciiCommands(env: Env, st: State)
    requires Advances(env.parse)
    decreases |st.later|, |st.rest|
  {
    UsualFits(env, st);
    StepProgress(env, st, Usual(env, st));
    && AsciiLine(st.rest)
    && match Step(env, st, Usual(env, st)) { case Halt(_) => true case Go(next) => AsciiCommands(env, next) }
  }

  lemma {:induction false} AsciiAlwaysDecides(f: Foreign, env: Env, st: State)
    requires env.parse == CommandParser(f) && Advances(env.parse) && AsciiCommands(env, st)
    ensures AlwaysDecides(env, st)
    decreases |st.later|, |st.rest|
  {
    AsciiDecides(f, RDBUF_SIZE, st.rest);
    UsualFits(env, st);
    StepProgress(env, st, Usual(env, st));
    var r := Step(env, st, Usual(env, st));
    if r.Go? { AsciiAlwaysDecides(f, env, r.next); }
  }

  predicate AsciiBytes(s: bytes) {
    forall i :: 0 <= i < |s| ==> s[i] < 0x80
  }

  predicate AsciiStreams(st: State) {
    AsciiBytes(st.rest) && forall i :: 0 <= i < |st.later| ==> AsciiBytes(st.later[i])
  }

  lemma {:induction false} AsciiStreamsHaveAsciiCommands(env: Env, st: State)
    requires Advances(env.parse) && AsciiStreams(st)
    ensures AsciiCommands(env, st)
    decreases |st.later|, |st.rest|
  {
    UsualFits(env, st);
    StepProgress(env, st, Usual(env, st));
    var r := Step(env, st, Usual(env, st));
    if r.Go? {
      AsciiNext(env, st, Usual(env, st));
      AsciiStreamsHaveAsciiCommands(env, r.next);
    }
  }

  lemma AsciiNext(env: Env, st: State, a: Arrival)
    requires Within(a.frame, st.rest) && AsciiStreams(st) && Step(env, st, a).Go?
    ensures AsciiStreams(Step(env, st, a).next)
  { }

  /** A session of ASCII command lines is the same however its bytes arrive. */
  lemma AsciiSessionIsOne(f: Foreign, env: Env, st: State, arrivals: seq<Arrival>, last: State, end: End)
    requires env.parse == CommandParser(f) && Advances(env.parse) && Impartial(env) && AsciiCommands(env, st) && !SeesStarttls(env, st)
    requires Plays(env, st, arrivals, last, Some(end))
    ensures (last, end) == Session(env, st)
  {
    AsciiAlwaysDecides(f, env, st);
    NetworkIsIrrelevant(env, st, arrivals, last, end);
  }
}
