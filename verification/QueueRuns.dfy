/** Runs that do happen: mail is delivered, and each of the limits of the queue is met. */
module QueueRuns {
  import opened QueueModel
  import opened QueueSafety
  import opened QueueSolo
  import QueueCleanup

  // ------------------------------------------------------------------ reachable states

  ghost predicate Reachable(s: State) {
    exists run :: Execution(run) && run[|run| - 1] == s
  }

  /** Reachable without two processes alive at the same time. */
  ghost predicate SoloReachable(s: State) {
    exists run :: SoloExecution(run) && run[|run| - 1] == s
  }

  lemma SoloIsReachable(s: State)
    requires SoloReachable(s)
    ensures Reachable(s)
  {
    var run: seq<State> :| SoloExecution(run) && run[|run| - 1] == s;
    forall i | 0 <= i < |run| - 1 ensures Next(run[i], run[i + 1]) {
      assert SoloNext(run[i], run[i + 1]);
    }
    assert Execution(run);
  }

  lemma Step(s: State, a: Action)
    requires Reachable(s) && Enabled(s, a)
    ensures Reachable(Apply(s, a))
  {
    var run :| Execution(run) && run[|run| - 1] == s;
    var run' := run + [Apply(s, a)];
    assert Next(s, Apply(s, a));
    forall i | 0 <= i < |run'| - 1 ensures Next(run'[i], run'[i + 1]) {
      if i < |run| - 1 { assert run'[i] == run[i] && run'[i + 1] == run[i + 1]; }
    }
    assert run'[|run'| - 1] == Apply(s, a);
  }

  lemma SoloStepOn(s: State, a: Action)
    requires SoloReachable(s) && Enabled(s, a) && (a.Start? ==> s.processes == map[])
    ensures SoloReachable(Apply(s, a))
  {
    var run :| SoloExecution(run) && run[|run| - 1] == s;
    var run' := run + [Apply(s, a)];
    assert SoloNext(s, Apply(s, a));
    forall i | 0 <= i < |run'| - 1 ensures SoloNext(run'[i], run'[i + 1]) {
      if i < |run| - 1 { assert run'[i] == run[i] && run'[i + 1] == run[i + 1]; }
    }
    assert run'[|run'| - 1] == Apply(s, a);
  }

  // ------------------------------------------------------------------ a process comes up

  const EMPTY: Fs := Fs(map[], map[], map[], map[])

  predicate Idle(s: State, p: Process) {
    s.fs == EMPTY && s.processes == map[0 := p] && s.tasks == map[] && s.committed == map[] && s.mails == map[] && s.deliveries == map[]
  }

  lemma Booted() returns (s: State)
    ensures SoloReachable(s) && Idle(s, Running(false))
  {
    s := INITIAL;
    assert SoloExecution([INITIAL]) && [INITIAL][|[INITIAL]| - 1] == INITIAL;
    s := BootStep(s, Action.Start(0), Booting(false, false));
    s := BootStep(s, Action.ScanInflight(0, map[]), Booting(true, false));
    s := BootStep(s, Action.ScanCleanup(0, map[]), Booting(true, true));
    s := BootStep(s, Action.EndBoot(0), Running(false));
  }

  lemma BootStep(s: State, a: Action, p: Process) returns (s': State)
    requires SoloReachable(s) && (s == INITIAL || exists q :: Idle(s, q))
    requires match a
             case Start(x) => x == 0 && s == INITIAL && p == Booting(false, false)
             case ScanInflight(x, spawned) => x == 0 && spawned == map[] && Idle(s, Booting(false, false)) && p == Booting(true, false)
             case ScanCleanup(x, spawned) => x == 0 && spawned == map[] && Idle(s, Booting(true, false)) && p == Booting(true, true)
             case EndBoot(x) => x == 0 && Idle(s, Booting(true, true)) && p == Running(false)
             case _ => false
    ensures SoloReachable(s') && Idle(s', p)
  {
    SoloStepOn(s, a);
    s' := Apply(s, a);
    assert s'.tasks == map[];
  }

  /** A mail without destinations: from then on its directory stays. */
  lemma EmptyCommit() returns (s: State)
    ensures SoloReachable(s) && 0 in s.mails && s.mails[0] == map[]
  {
    s := Booted();
    var a := Action.Commit(0, 0, map[], MailDir(true, map[]), map[], map[]);
    assert Snapshot(s, 0, map[], Waiting, map[]);
    SoloStepOn(s, a);
    s := Apply(s, a);
  }

  // ------------------------------------------------------------------ one mail, one destination

  datatype Place = InQueue | InInflight | InCleanup

  const T: Target := Target(0, 0)

  function Links(there: bool): map<QueueId, Target> { if there then map[0 := T] else map[] }

  function OneFs(place: Place, tmps: set<nat>): Fs {
    Fs(Links(place == InQueue), Links(place == InInflight), Links(place == Place.InCleanup), map[0 := MailDir(true, map[0 := DestDir(true, true, tmps)])])
  }

  /** Process 0 is up, and its task 0 is in charge of the only destination there is. */
  predicate OneMail(s: State, stage: Stage, place: Place, tmps: set<nat>, count: nat) {
    && s.fs == OneFs(place, tmps) && s.processes == map[0 := Running(false)] && s.tasks == map[0 := Task(0, 0, stage)]
    && s.committed == map[0 := T] && Count(s, 0) == count
  }

  lemma Committed() returns (s: State)
    ensures SoloReachable(s) && OneMail(s, Waiting, InQueue, {}, 0)
  {
    s := Booted();
    OneDestination(s);
    var a := Action.Commit(0, 0, map[0 := 0], ONE_DIR, map[0 := T], WAITING);
    SoloStepOn(s, a);
    s := Apply(s, a);
  }

  const WAITING: map<TaskId, Task> := map[0 := Task(0, 0, Waiting)]
  const ONE_DIR: MailDir := MailDir(true, map[0 := DestDir(true, true, {})])

  lemma OneDestination(s: State)
    requires s.tasks == map[]
    ensures Snapshot(s, 0, WAITING, Waiting, map[0 := T]) && LinksTo(map[0 := T], 0, map[0 := 0]) && NewMail(ONE_DIR, map[0 := 0])
  {
    assert 0 in WAITING && WAITING[0].id == 0;
  }

  /** From `queue` into the hands of the transport, whose answer is given. */
  lemma Sent(s: State, tmps: set<nat>, count: nat, success: bool) returns (s': State)
    requires SoloReachable(s) && OneMail(s, Waiting, InQueue, tmps, count)
    ensures SoloReachable(s') && OneMail(s', if success then Delivered else Failed, InInflight, tmps, count + if success then 1 else 0)
  {
    s' := Started(s, tmps, count);
    SoloStepOn(s', Action.Transport(0, success));
    s' := Apply(s', Action.Transport(0, success));
  }

  lemma Taken(s: State, tmps: set<nat>, count: nat) returns (s': State)
    requires SoloReachable(s) && OneMail(s, Waiting, InQueue, tmps, count)
    ensures SoloReachable(s') && OneMail(s', Reading, InInflight, tmps, count)
  {
    SoloStepOn(s, Action.SendStart(0));
    s' := ApplySendStart(s, 0);
  }

  lemma Started(s: State, tmps: set<nat>, count: nat) returns (s': State)
    requires SoloReachable(s) && OneMail(s, Waiting, InQueue, tmps, count)
    ensures SoloReachable(s') && OneMail(s', Sending, InInflight, tmps, count)
  {
    s' := Taken(s, tmps, count);
    SoloStepOn(s', Action.ReadInflight(0));
    s' := Goto(s', 0, Sending);
  }

  lemma Done(s: State, tmps: set<nat>, count: nat) returns (s': State)
    requires SoloReachable(s) && OneMail(s, Delivered, InInflight, tmps, count)
    ensures SoloReachable(s') && OneMail(s', Cleaning(ReadLink), Place.InCleanup, tmps, count)
  {
    SoloStepOn(s, Action.SendDone(0));
    s' := Apply(s, Action.SendDone(0));
  }

  /** A mail is committed, sent and put up for cleanup. */
  lemma DeliveryRun() returns (s: State)
    ensures SoloReachable(s) && 0 in s.committed && Count(s, 0) == 1 && 0 in s.fs.cleanup
  {
    s := Committed();
    s := Sent(s, {}, 0, true);
    s := Done(s, {}, 1);
  }

  // ------------------------------------------------------------------ a temporary file is left behind

  lemma CancelMoves(s: State, tmps: set<nat>, count: nat)
    requires OneMail(s, Failed, InInflight, tmps, count)
    ensures OneMail(ApplySendCancel(s, 0), Deciding, InQueue, tmps, count)
  { }

  lemma Cancelled(s: State) returns (s': State)
    requires SoloReachable(s) && OneMail(s, Failed, InInflight, {}, 0)
    ensures SoloReachable(s') && OneMail(s', Rescheduling(OpenQueued), InQueue, {}, 0)
  {
    SoloStepOn(s, Action.SendCancel(0));
    CancelMoves(s, {}, 0);
    s' := ApplySendCancel(s, 0);
    s' := Decided(s');
  }

  lemma Decided(s: State) returns (s': State)
    requires SoloReachable(s) && OneMail(s, Deciding, InQueue, {}, 0)
    ensures SoloReachable(s') && OneMail(s', Rescheduling(OpenQueued), InQueue, {}, 0)
  {
    SoloStepOn(s, Action.Decide(0, true));
    s' := ApplyDecide(s, 0, true);
  }

  lemma OpenOp(tmps: set<nat>, tmp: nat)
    ensures RescheduleOp(OneFs(InQueue, tmps), 0, OpenQueued, tmp) == (Rescheduling(CreateTmp(T)), OneFs(InQueue, tmps))
  { }

  lemma CreateOp(tmps: set<nat>, tmp: nat)
    requires tmp !in tmps
    ensures RescheduleOp(OneFs(InQueue, tmps), 0, CreateTmp(T), tmp) == (Rescheduling(RenameTmp(T, tmp)), OneFs(InQueue, tmps + {tmp}))
  {
    SameMail(tmps, tmps + {tmp});
  }

  lemma RenameOp(tmps: set<nat>, tmp: nat)
    requires tmp in tmps
    ensures RescheduleOp(OneFs(InQueue, tmps), 0, RenameTmp(T, tmp), tmp) == (Waiting, OneFs(InQueue, tmps - {tmp}))
  {
    SameMail(tmps, tmps - {tmp});
  }

  lemma SameMail(tmps: set<nat>, tmps': set<nat>)
    ensures OneFs(InQueue, tmps).SetDest(T, DestDir(true, true, tmps')) == OneFs(InQueue, tmps')
  {
    var d, d' := DestDir(true, true, tmps), DestDir(true, true, tmps');
    assert map[0 as DestId := d][0 := d'] == map[0 := d'];
    var m, m' := MailDir(true, map[0 := d]), MailDir(true, map[0 := d']);
    assert map[0 as MailId := m][0 := m'] == map[0 := m'];
  }

  /** One operation of the rescheduling, whose effect on the directory is known. */
  lemma Rescheduled(s: State, r: RescheduleStep, tmps: set<nat>, tmp: nat, stage: Stage, tmps': set<nat>) returns (s': State)
    requires SoloReachable(s) && OneMail(s, Rescheduling(r), InQueue, tmps, 0)
    requires RescheduleOp(OneFs(InQueue, tmps), 0, r, tmp) == (stage, OneFs(InQueue, tmps'))
    ensures SoloReachable(s') && OneMail(s', stage, InQueue, tmps', 0)
  {
    SoloStepOn(s, Action.Reschedule(0, tmp));
    s' := ApplyReschedule(s, 0, tmp);
  }

  /** The new schedule is written to file `tmp`. */
  lemma TmpWritten(s: State, tmps: set<nat>, tmp: nat) returns (s': State)
    requires SoloReachable(s) && OneMail(s, Rescheduling(OpenQueued), InQueue, tmps, 0) && tmp !in tmps
    ensures SoloReachable(s') && OneMail(s', Rescheduling(RenameTmp(T, tmp)), InQueue, tmps + {tmp}, 0)
  {
    OpenOp(tmps, tmp);
    s' := Rescheduled(s, OpenQueued, tmps, tmp, Rescheduling(CreateTmp(T)), tmps);
    CreateOp(tmps, tmp);
    s' := Rescheduled(s', CreateTmp(T), tmps, tmp, Rescheduling(RenameTmp(T, tmp)), tmps + {tmp});
  }

  lemma Renamed(s: State, tmps: set<nat>, tmp: nat) returns (s': State)
    requires SoloReachable(s) && OneMail(s, Rescheduling(RenameTmp(T, tmp)), InQueue, tmps, 0) && tmp in tmps
    ensures SoloReachable(s') && OneMail(s', Waiting, InQueue, tmps - {tmp}, 0)
  {
    RenameOp(tmps, tmp);
    s' := Rescheduled(s, RenameTmp(T, tmp), tmps, tmp, Waiting, tmps - {tmp});
  }

  lemma RescheduleFails(s: State, tmps: set<nat>, tmp: nat) returns (s': State)
    requires SoloReachable(s) && OneMail(s, Rescheduling(RenameTmp(T, tmp)), InQueue, tmps, 0)
    ensures SoloReachable(s') && OneMail(s', Rescheduling(OpenQueued), InQueue, tmps, 0)
  {
    SoloStepOn(s, Action.RescheduleError(0));
    s' := Apply(s, Action.RescheduleError(0));
  }

  /** A rescheduling fails after it has written its file; once the mail is delivered, its cleanup never ends. */
  lemma CleanupBlocked() returns (s: State)
    ensures SoloReachable(s) && 0 in s.tasks && s.tasks[0].stage.Cleaning? && QueueCleanup.Blocked(s.fs, 0)
    ensures forall n :: !QueueCleanup.Run(s.fs, 0, ReadLink, n).Done?
  {
    s := Committed();
    s := Sent(s, {}, 0, false);
    s := Cancelled(s);
    s := TmpWritten(s, {}, 1);
    s := RescheduleFails(s, {} + {1}, 1);
    s := TmpWritten(s, {} + {1}, 2);
    s := Renamed(s, {} + {1} + {2}, 2);
    s := Sent(s, {} + {1} + {2} - {2}, 0, true);
    s := Done(s, {} + {1} + {2} - {2}, 1);
    assert 1 in s.fs.data[0].dests[0].tmps;
    QueueCleanup.CleanupEndsIff(s.fs, 0);
  }

  // ------------------------------------------------------------------ a second process

  /** While process 0 is sending, process 1 lists the link, gives it back to the queue and takes it. */
  predicate TwoTasks(s: State, p: Process, stage: Stage, place: Place) {
    && s.fs == OneFs(place, {}) && s.processes == map[0 := Running(false), 1 := p]
    && s.tasks == map[0 := Task(0, 0, Sending), 1 := Task(1, 0, stage)]
  }

  lemma SecondProcess() returns (s: State)
    ensures Reachable(s) && TwoTasks(s, Booting(true, false), FoundInflight, InInflight)
  {
    s := Committed();
    s := Started(s, {}, 0);
    SoloIsReachable(s);
    Step(s, Action.Start(1));
    s := Apply(s, Action.Start(1));
    assert s.processes == map[0 := Running(false), 1 := Booting(false, false)];
    s := FoundBySecond(s);
  }

  /** A first process is sending, and a second one has just started. */
  predicate SecondUp(s: State) {
    && s.fs == OneFs(InInflight, {}) && s.tasks == map[0 := Task(0, 0, Sending)]
    && s.processes == map[0 := Running(false), 1 := Booting(false, false)]
  }

  lemma FoundBySecond(s: State) returns (s': State)
    requires Reachable(s) && SecondUp(s)
    ensures Reachable(s') && TwoTasks(s', Booting(true, false), FoundInflight, InInflight)
  {
    SecondSnapshot(s);
    Step(s, Action.ScanInflight(1, SECOND_FOUND));
    s' := Apply(s, Action.ScanInflight(1, SECOND_FOUND));
    SecondTasks(s);
  }

  lemma SecondSnapshot(s: State)
    requires SecondUp(s)
    ensures Snapshot(s, 1, SECOND_FOUND, FoundInflight, s.fs.inflight)
  {
    assert 1 in SECOND_FOUND && SECOND_FOUND[1].id == 0;
  }

  lemma SecondTasks(s: State)
    requires SecondUp(s)
    ensures s.tasks + SECOND_FOUND == map[0 := Task(0, 0, Sending), 1 := Task(1, 0, FoundInflight)]
    ensures s.processes[1 := Booting(true, false)] == map[0 := Running(false), 1 := Booting(true, false)]
  { }

  const SECOND_FOUND: map<TaskId, Task> := map[1 := Task(1, 0, FoundInflight)]

  lemma Looked(s: State) returns (s': State)
    requires Reachable(s) && TwoTasks(s, Booting(true, false), FoundInflight, InInflight)
    ensures Reachable(s') && TwoTasks(s', Booting(true, false), Recovering, InInflight)
  {
    Step(s, Action.LookAtFound(1));
    s' := ApplyLook(s, 1);
  }

  lemma GivenBack(s: State) returns (s': State)
    requires Reachable(s) && TwoTasks(s, Booting(true, false), Recovering, InInflight)
    ensures Reachable(s') && TwoTasks(s', Booting(true, false), Waiting, InQueue)
  {
    Step(s, Action.SendCancel(1));
    s' := ApplySendCancel(s, 1);
  }

  /** With two live processes two tasks may be sending the same destination. */
  lemma TwoSenders() returns (s: State)
    ensures Reachable(s) && 0 in s.tasks && 1 in s.tasks && s.tasks[0].id == s.tasks[1].id
    ensures InSend(s.tasks[0].stage) && InSend(s.tasks[1].stage)
  {
    s := SecondProcess();
    s := Looked(s);
    s := GivenBack(s);
    Step(s, Action.SendStart(1));
    s := Apply(s, Action.SendStart(1));
  }

  // ------------------------------------------------------------------ a link that cannot be read

  /** What is left after a crash while the mail was being sent. */
  predicate AfterCrash(s: State, p: Process, tasks: map<TaskId, Task>) {
    s.fs == OneFs(InInflight, {}) && s.processes == map[0 := p] && s.tasks == tasks
  }

  const FOUND: map<TaskId, Task> := map[0 := Task(0, 0, FoundInflight)]

  lemma Crashed() returns (s: State)
    ensures SoloReachable(s) && s.fs == OneFs(InInflight, {}) && s.processes == map[] && s.tasks == map[]
  {
    s := Committed();
    s := Started(s, {}, 0);
    SoloStepOn(s, Action.Crash(0));
    assert TasksOf(s, 0) == {0};
    s := Apply(s, Action.Crash(0));
  }

  lemma Restarted() returns (s: State)
    ensures SoloReachable(s) && AfterCrash(s, Booting(true, false), FOUND)
  {
    s := Crashed();
    SoloStepOn(s, Action.Start(0));
    s := Apply(s, Action.Start(0));
    s := FoundAgain(s);
  }

  lemma FoundAgain(s: State) returns (s': State)
    requires SoloReachable(s) && AfterCrash(s, Booting(false, false), map[])
    ensures SoloReachable(s') && AfterCrash(s', Booting(true, false), FOUND)
  {
    assert Snapshot(s, 0, FOUND, FoundInflight, s.fs.inflight);
    SoloStepOn(s, Action.ScanInflight(0, FOUND));
    s' := Apply(s, Action.ScanInflight(0, FOUND));
  }

  lemma ScanFails(s: State) returns (s': State)
    requires SoloReachable(s) && AfterCrash(s, Booting(true, false), FOUND)
    ensures SoloReachable(s') && AfterCrash(s', Booting(true, true), map[])
  {
    SoloStepOn(s, Action.ScanError(0));
    s' := Apply(s, Action.ScanError(0));
    assert s'.tasks == map[];
    s' := NothingToClean(s');
  }

  lemma NothingToClean(s: State) returns (s': State)
    requires SoloReachable(s) && AfterCrash(s, Booting(true, false), map[])
    ensures SoloReachable(s') && AfterCrash(s', Booting(true, true), map[])
  {
    assert Snapshot(s, 0, map[], FoundCleanup, s.fs.cleanup);
    SoloStepOn(s, Action.ScanCleanup(0, map[]));
    s' := Apply(s, Action.ScanCleanup(0, map[]));
  }

  /** A link whose schedule could not be read at the start has no task, however long the process goes on. */
  lemma LinkLeftAlone() returns (s: State)
    ensures SoloReachable(s) && 0 in s.processes && s.processes[0] == Running(true) && 0 in s.fs.inflight && s.tasks == map[]
  {
    s := Restarted();
    s := ScanFails(s);
    SoloStepOn(s, Action.EndBoot(0));
    s := Apply(s, Action.EndBoot(0));
    assert AfterCrash(s, Running(false), map[]);
    assert Snapshot(s, 0, map[], FoundQueued, s.fs.queue);
    SoloStepOn(s, Action.ScanQueue(0, map[]));
    s := Apply(s, Action.ScanQueue(0, map[]));
  }
}
