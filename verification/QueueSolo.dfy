/** What holds besides when processes do not overlap: one sender at a time, and somebody in charge of every link. */
module QueueSolo {
  import opened QueueModel
  import opened QueueSafety

  /** A step where a process starts only when no other is alive. */
  ghost predicate SoloNext(s: State, s': State) {
    exists a :: Enabled(s, a) && (a.Start? ==> s.processes == map[]) && s' == Apply(s, a)
  }

  ghost predicate SoloExecution(run: seq<State>) {
    && |run| > 0 && run[0] == INITIAL
    && forall i {:trigger run[i]} :: 0 <= i < |run| - 1 ==> SoloNext(run[i], run[i + 1])
  }

  /** The task believes that its link is in `inflight`; in `queue`. */
  predicate HoldsInflight(stage: Stage) {
    stage.FoundInflight? || stage.Reading? || stage.Sending? || stage.Delivered? || stage.Failed? || stage.Recovering?
  }

  predicate HoldsQueued(stage: Stage) {
    stage.FoundQueued? || stage.Waiting? || stage.Deciding? || stage.Rescheduling? || stage.Dropping?
  }

  predicate InCleanup(stage: Stage) {
    stage.FoundCleanup? || stage.Cleaning?
  }

  predicate Holder(s: State, k: TaskId, id: QueueId) {
    k in s.tasks && s.tasks[k].id == id && HoldsInflight(s.tasks[k].stage)
  }

  predicate Keeper(s: State, k: TaskId, id: QueueId) {
    k in s.tasks && s.tasks[k].id == id && HoldsQueued(s.tasks[k].stage)
  }

  /** A live process has listed `inflight`; `queue`. */
  predicate InflightListed(s: State) {
    exists p :: p in s.processes && (s.processes[p].Running? || s.processes[p].scannedInflight)
  }

  predicate QueueListed(s: State) {
    exists p :: p in s.processes && s.processes[p] == Running(true)
  }

  ghost predicate AtMostOneHolder(s: State) {
    && (forall k, id :: Holder(s, k, id) ==> id in s.fs.inflight)
    && (forall k, l, id :: Holder(s, k, id) && Holder(s, l, id) ==> k == l)
  }

  /** A live process could not read the link, or what is behind it, when it listed it. */
  predicate Missed(s: State, id: QueueId) {
    exists p :: p in s.processes && (p, id) in s.missed
  }

  ghost predicate Held(s: State, id: QueueId) {
    Missed(s, id) || exists k :: Holder(s, k, id)
  }

  ghost predicate Kept(s: State, id: QueueId) {
    Missed(s, id) || exists k :: Keeper(s, k, id)
  }

  ghost predicate SomebodyInCharge(s: State) {
    && (InflightListed(s) ==> forall id :: id in s.fs.inflight ==> Held(s, id))
    && (QueueListed(s) ==> forall id :: id in s.fs.queue ==> Kept(s, id))
  }

  predicate Handed(s: State, k: TaskId, id: QueueId) {
    k in s.tasks && s.tasks[k].id == id && s.tasks[k].stage == Delivered
  }

  /** `id` has been delivered for good, or a task knows it and is about to record it. */
  ghost predicate Recorded(s: State, id: QueueId) {
    !ToSend(s, id) || exists k :: Handed(s, k, id)
  }

  ghost predicate DeliveriesOk(s: State, id: QueueId) {
    Count(s, id) <= (if id in s.committed then s.crashes + if Recorded(s, id) then 1 else 0 else 0)
  }

  ghost predicate FewDeliveries(s: State) {
    forall id :: DeliveriesOk(s, id)
  }

  ghost predicate OneProcess(s: State) {
    && (forall p, q :: p in s.processes && q in s.processes ==> p == q)
    && (forall k :: k in s.tasks ==> s.tasks[k].process in s.processes)
    && (!InflightListed(s) ==> forall k :: k in s.tasks ==> InCleanup(s.tasks[k].stage))
  }

  ghost predicate SoloInv(s: State) {
    OneProcess(s) && AtMostOneHolder(s) && SomebodyInCharge(s) && FewDeliveries(s)
  }

  // ------------------------------------------------------------------ steps of a task

  predicate SameLinks(s: State, s': State, id: QueueId) {
    SameBut(s.fs.queue, s'.fs.queue, id) && SameBut(s.fs.inflight, s'.fs.inflight, id)
  }

  predicate OnlyTask(s: State, s': State, k: TaskId) {
    if k in s'.tasks then s'.tasks == s.tasks[k := s'.tasks[k]] else s'.tasks == s.tasks - {k}
  }

  /** What a step of task `k`, on destination `id`, does to handles, links and counts. */
  ghost predicate SoloStep(s: State, s': State, k: TaskId, id: QueueId) {
    && k in s.tasks && s.tasks[k].id == id && s'.processes == s.processes && s'.crashes == s.crashes && s.missed <= s'.missed
    && OnlyTask(s, s', k) && SameLinks(s, s', id)
    && (k in s'.tasks ==> s'.tasks[k].id == id && s'.tasks[k].process == s.tasks[k].process)
    && (k in s'.tasks && InCleanup(s.tasks[k].stage) ==> InCleanup(s'.tasks[k].stage))
    && (id in s.fs.inflight && id !in s'.fs.inflight ==> Holder(s, k, id))
    && (Holder(s', k, id) ==> id in s'.fs.inflight && (Holder(s, k, id) || id !in s.fs.inflight))
    && (id in s'.fs.inflight && (Holder(s, k, id) || id !in s.fs.inflight) ==> Holder(s', k, id) || Missed(s', id))
    && (id in s'.fs.queue && (Keeper(s, k, id) || id !in s.fs.queue) ==> Keeper(s', k, id) || Missed(s', id))
    && (forall x :: x != id ==> Count(s', x) == Count(s, x))
    && (Count(s', id) == Count(s, id) || (AtStage(s, k, Sending) && Handed(s', k, id) && Count(s', id) == Count(s, id) + 1))
    && (Handed(s, k, id) ==> Handed(s', k, id) || !ToSend(s', id))
    && s'.committed == s.committed && id in s.committed && (!ToSend(s, id) ==> !ToSend(s', id))
  }

  lemma StepKeepsHolders(s: State, s': State, k: TaskId, id: QueueId)
    requires SoloStep(s, s', k, id) && AtMostOneHolder(s)
    ensures AtMostOneHolder(s')
  {
    forall j, x | Holder(s', j, x) ensures x in s'.fs.inflight {
      if j != k { assert Holder(s, j, x); }
    }
    forall j, l, x | Holder(s', j, x) && Holder(s', l, x) ensures j == l {
      if j != k { assert Holder(s, j, x); }
      if l != k { assert Holder(s, l, x); }
    }
  }

  lemma StepKeepsCharge(s: State, s': State, k: TaskId, id: QueueId)
    requires SoloStep(s, s', k, id) && SomebodyInCharge(s)
    ensures SomebodyInCharge(s')
  {
    if InflightListed(s') {
      forall x | x in s'.fs.inflight ensures Held(s', x) {
        if x in s.fs.inflight { StepKeepsHeld(s, s', k, id, x); } else { assert Missed(s', id) || Holder(s', k, id); }
      }
    }
    if QueueListed(s') {
      forall x | x in s'.fs.queue ensures Kept(s', x) {
        if x in s.fs.queue { StepKeepsKept(s, s', k, id, x); } else { assert Missed(s', id) || Keeper(s', k, id); }
      }
    }
  }

  lemma MissedStays(s: State, s': State, id: QueueId)
    requires s.processes.Keys <= s'.processes.Keys && s.missed <= s'.missed && Missed(s, id)
    ensures Missed(s', id)
  {
    var p :| p in s.processes && (p, id) in s.missed;
    assert p in s'.processes && (p, id) in s'.missed;
  }

  lemma StepKeepsHeld(s: State, s': State, k: TaskId, id: QueueId, x: QueueId)
    requires SoloStep(s, s', k, id) && Held(s, x) && x in s'.fs.inflight
    ensures Held(s', x)
  {
    if Missed(s, x) {
      MissedStays(s, s', x);
    } else {
      var j :| Holder(s, j, x);
      assert j != k ==> Holder(s', j, x);
      assert j == k ==> Missed(s', id) || Holder(s', k, id);
    }
  }

  lemma StepKeepsKept(s: State, s': State, k: TaskId, id: QueueId, x: QueueId)
    requires SoloStep(s, s', k, id) && Kept(s, x) && x in s'.fs.queue
    ensures Kept(s', x)
  {
    if Missed(s, x) {
      MissedStays(s, s', x);
    } else {
      var j :| Keeper(s, j, x);
      assert j != k ==> Keeper(s', j, x);
      assert j == k ==> Missed(s', id) || Keeper(s', k, id);
    }
  }

  lemma StepKeepsDeliveries(s: State, s': State, k: TaskId, id: QueueId)
    requires SoloStep(s, s', k, id) && FewDeliveries(s) && AtMostOneHolder(s)
    ensures FewDeliveries(s')
  {
    forall x ensures DeliveriesOk(s', x) {
      assert DeliveriesOk(s, x);
      if x in s.committed {
        if Count(s', x) == Count(s, x) {
          if Recorded(s, x) && ToSend(s, x) {
            var j :| Handed(s, j, x);
            assert j != k ==> Handed(s', j, x);
          }
          assert Recorded(s, x) ==> Recorded(s', x);
        } else {
          assert Holder(s, k, id);
          if Recorded(s, x) {
            var j :| Handed(s, j, x);
            assert Holder(s, j, x);
            assert false;
          }
        }
      }
    }
  }

  lemma StepKeepsProcess(s: State, s': State, k: TaskId, id: QueueId)
    requires SoloStep(s, s', k, id) && OneProcess(s)
    ensures OneProcess(s')
  {
  }

  ghost predicate SoloLocal(s: State, k: TaskId) {
    Local(s, k) && (HoldsInflight(s.tasks[k].stage) ==> s.tasks[k].id in s.fs.inflight)
  }

  /** Steps that move no link, count no delivery and keep what the task believes. */
  predicate Quiet(s: State, s': State, k: TaskId) {
    && k in s.tasks && s'.processes == s.processes && s'.crashes == s.crashes && s'.committed == s.committed && s.missed <= s'.missed
    && s'.fs.queue == s.fs.queue && s'.fs.inflight == s.fs.inflight && s'.deliveries == s.deliveries && OnlyTask(s, s', k)
    && s.tasks[k].stage != Delivered
    && if k in s'.tasks then
         var stage, stage' := s.tasks[k].stage, s'.tasks[k].stage;
         && s'.tasks[k].id == s.tasks[k].id && s'.tasks[k].process == s.tasks[k].process && stage' != Delivered
         && (HoldsInflight(stage) <==> HoldsInflight(stage')) && (HoldsQueued(stage) <==> HoldsQueued(stage'))
         && (InCleanup(stage) ==> InCleanup(stage'))
       else Missed(s', s.tasks[k].id) || (!HoldsInflight(s.tasks[k].stage) && (HoldsQueued(s.tasks[k].stage) ==> s.tasks[k].id !in s.fs.queue))
  }

  lemma QuietIsSolo(s: State, s': State, k: TaskId)
    requires SoloLocal(s, k) && Quiet(s, s', k)
    ensures SoloStep(s, s', k, s.tasks[k].id)
  { }

  lemma RescheduleIsQuiet(s: State, k: TaskId, tmp: nat)
    requires k in s.tasks && s.tasks[k].stage.Rescheduling?
    ensures Quiet(s, ApplyReschedule(s, k, tmp), k)
  { }

  lemma CleanupIsQuiet(s: State, k: TaskId)
    requires k in s.tasks && s.tasks[k].stage.Cleaning?
    ensures Quiet(s, ApplyCleanup(s, k), k)
  {
    CleanupOpKeeps(s.fs, s.tasks[k].id, s.tasks[k].stage.c);
  }

  lemma CleanupOpKeeps(fs: Fs, id: QueueId, c: CleanupStep)
    ensures var r := CleanupOp(fs, id, c); r.fs.queue == fs.queue && r.fs.inflight == fs.inflight
  { }

  lemma LookIsQuiet(s: State, k: TaskId)
    requires SoloLocal(s, k) && Enabled(s, LookAtFound(k))
    ensures Quiet(s, ApplyLook(s, k), k)
  { }

  lemma ScanErrorIsQuiet(s: State, k: TaskId)
    requires SoloLocal(s, k) && Listed(s, k) && s.tasks[k].process in s.processes
    ensures Quiet(s, ApplyScanError(s, k), k)
  {
    var s' := ApplyScanError(s, k);
    assert (s.tasks[k].process, s.tasks[k].id) in s'.missed;
  }

  lemma SendStartIsSolo(s: State, k: TaskId)
    requires SoloLocal(s, k) && AtStage(s, k, Waiting)
    ensures SoloStep(s, ApplySendStart(s, k), k, s.tasks[k].id)
  { }

  lemma SendDoneIsSolo(s: State, k: TaskId)
    requires SoloLocal(s, k) && AtStage(s, k, Delivered)
    ensures SoloStep(s, ApplySendDone(s, k), k, s.tasks[k].id)
  { }

  lemma SendCancelIsSolo(s: State, k: TaskId)
    requires SoloLocal(s, k) && (AtStage(s, k, Failed) || AtStage(s, k, Recovering))
    ensures SoloStep(s, ApplySendCancel(s, k), k, s.tasks[k].id)
  { }

  lemma DropIsSolo(s: State, k: TaskId)
    requires SoloLocal(s, k) && AtStage(s, k, Dropping)
    ensures SoloStep(s, ApplyDrop(s, k), k, s.tasks[k].id)
  { }

  lemma TransportIsSolo(s: State, k: TaskId, success: bool)
    requires SoloLocal(s, k) && AtStage(s, k, Sending)
    ensures SoloStep(s, ApplyTransport(s, k, success), k, s.tasks[k].id)
  { }

  lemma TaskStepIsSolo(s: State, a: Action)
    requires Enabled(s, a) && OfTask(a) && SoloLocal(s, a.task) && s.tasks[a.task].process in s.processes
    ensures SoloStep(s, Apply(s, a), a.task, s.tasks[a.task].id)
  {
    var k := a.task;
    if a.SendStart? { SendStartIsSolo(s, k); }
    else if a.Transport? { TransportIsSolo(s, k, a.success); }
    else if a.SendDone? { SendDoneIsSolo(s, k); }
    else if a.SendCancel? { SendCancelIsSolo(s, k); }
    else if a.Drop? { DropIsSolo(s, k); }
    else { RestIsQuiet(s, a); QuietIsSolo(s, Apply(s, a), k); }
  }

  lemma RestIsQuiet(s: State, a: Action)
    requires Enabled(s, a) && OfTask(a) && SoloLocal(s, a.task) && s.tasks[a.task].process in s.processes
    requires !a.SendStart? && !a.Transport? && !a.SendDone? && !a.SendCancel? && !a.Drop?
    ensures Quiet(s, Apply(s, a), a.task)
  {
    var k := a.task;
    if a.LookAtFound? { LookIsQuiet(s, k); }
    else if a.ScanError? { ScanErrorIsQuiet(s, k); }
    else if a.Reschedule? { RescheduleIsQuiet(s, k, a.tmp); }
    else if a.Cleanup? { CleanupIsQuiet(s, k); }
  }

  lemma SoloInvTask(s: State, a: Action)
    requires Inv(s) && SoloInv(s) && Enabled(s, a) && OfTask(a)
    ensures SoloInv(Apply(s, a))
  {
    var k, id, s' := a.task, s.tasks[a.task].id, Apply(s, a);
    assert SoloLocal(s, k) by {
      assert TaskOk(s, s.tasks[k]) && IdOk(s, id);
      assert HoldsInflight(s.tasks[k].stage) ==> Holder(s, k, id);
    }
    TaskStepIsSolo(s, a);
    StepKeepsProcess(s, s', k, id);
    StepKeepsHolders(s, s', k, id);
    StepKeepsCharge(s, s', k, id);
    StepKeepsDeliveries(s, s', k, id);
  }

  // ------------------------------------------------------------------ steps of a process

  /** Tasks are added; the links of those that hold one are listed, once each. */
  lemma SpawnKeepsHolders(s: State, s': State, p: ProcessId, spawned: map<TaskId, Task>, stage: Stage)
    requires AtMostOneHolder(s) && s'.tasks == s.tasks + spawned && AllNew(p, spawned, stage) && spawned.Keys !! s.tasks.Keys
    requires s'.fs.inflight == s.fs.inflight
    requires HoldsInflight(stage) ==> Snapshot(s, p, spawned, stage, s.fs.inflight) && forall k, id :: !Holder(s, k, id)
    ensures AtMostOneHolder(s')
  {
    forall k, id | Holder(s', k, id) && k !in spawned ensures Holder(s, k, id) { }
  }

  lemma SpawnKeepsDeliveries(s: State, s': State, p: ProcessId, spawned: map<TaskId, Task>, stage: Stage)
    requires FewDeliveries(s) && s'.tasks == s.tasks + spawned && AllNew(p, spawned, stage) && spawned.Keys !! s.tasks.Keys
    requires s'.fs == s.fs && s'.deliveries == s.deliveries && s'.committed == s.committed && s'.crashes == s.crashes
    ensures FewDeliveries(s')
  {
    forall id ensures DeliveriesOk(s', id) {
      assert DeliveriesOk(s, id);
      if exists k :: Handed(s, k, id) {
        var k :| Handed(s, k, id);
        assert Handed(s', k, id);
      }
    }
  }

  lemma SpawnKeepsCharge(s: State, s': State, p: ProcessId, spawned: map<TaskId, Task>, stage: Stage)
    requires s'.tasks == s.tasks + spawned && AllNew(p, spawned, stage) && spawned.Keys !! s.tasks.Keys
    requires s.processes.Keys <= s'.processes.Keys && s.missed <= s'.missed
    ensures forall id :: Held(s, id) ==> Held(s', id)
    ensures forall id :: Kept(s, id) ==> Kept(s', id)
    ensures HoldsInflight(stage) ==> forall k :: k in spawned ==> Held(s', spawned[k].id)
    ensures HoldsQueued(stage) ==> forall k :: k in spawned ==> Kept(s', spawned[k].id)
  {
    SpawnFindsAll(s, s', p, spawned, stage);
    forall id | Missed(s, id) ensures Missed(s', id) { MissedStays(s, s', id); }
    forall id | Held(s, id) ensures Held(s', id) { if !Missed(s, id) { var k :| Holder(s, k, id); assert Holder(s', k, id); } }
    forall id | Kept(s, id) ensures Kept(s', id) { if !Missed(s, id) { var k :| Keeper(s, k, id); assert Keeper(s', k, id); } }
  }

  lemma SpawnFindsAll(s: State, s': State, p: ProcessId, spawned: map<TaskId, Task>, stage: Stage)
    requires s'.tasks == s.tasks + spawned && AllNew(p, spawned, stage) && spawned.Keys !! s.tasks.Keys
    ensures forall k, id :: Holder(s, k, id) ==> Holder(s', k, id)
    ensures forall k, id :: Keeper(s, k, id) ==> Keeper(s', k, id)
    ensures HoldsInflight(stage) ==> forall k :: k in spawned ==> Holder(s', k, spawned[k].id)
    ensures HoldsQueued(stage) ==> forall k :: k in spawned ==> Keeper(s', k, spawned[k].id)
  { }

  lemma SoloInvStart(s: State, p: ProcessId)
    requires SoloInv(s) && s.processes == map[]
    ensures SoloInv(Apply(s, Action.Start(p)))
  {
    var s' := Apply(s, Action.Start(p));
    assert s.tasks == map[];
    forall id ensures DeliveriesOk(s', id) { assert DeliveriesOk(s, id); }
  }

  lemma SoloInvCrash(s: State, p: ProcessId)
    requires SoloInv(s) && p in s.processes
    ensures SoloInv(Apply(s, Action.Crash(p)))
  {
    var s' := Apply(s, Action.Crash(p));
    assert s'.processes == map[];
    assert s'.tasks == map[];
    forall id ensures DeliveriesOk(s', id) { assert DeliveriesOk(s, id); }
  }

  lemma SoloInvScanInflight(s: State, p: ProcessId, spawned: map<TaskId, Task>)
    requires SoloInv(s) && Enabled(s, Action.ScanInflight(p, spawned))
    ensures SoloInv(Apply(s, Action.ScanInflight(p, spawned)))
  {
    var s' := Apply(s, Action.ScanInflight(p, spawned));
    assert !InflightListed(s) && !QueueListed(s');
    SpawnKeepsHolders(s, s', p, spawned, FoundInflight);
    SpawnKeepsDeliveries(s, s', p, spawned, FoundInflight);
    SpawnKeepsCharge(s, s', p, spawned, FoundInflight);
  }

  lemma SoloInvScanCleanup(s: State, p: ProcessId, spawned: map<TaskId, Task>)
    requires SoloInv(s) && Enabled(s, Action.ScanCleanup(p, spawned))
    ensures SoloInv(Apply(s, Action.ScanCleanup(p, spawned)))
  {
    var s' := Apply(s, Action.ScanCleanup(p, spawned));
    assert p in s'.processes && s'.processes[p].scannedInflight == s.processes[p].scannedInflight;
    assert InflightListed(s') <==> InflightListed(s);
    assert !QueueListed(s');
    SpawnKeepsHolders(s, s', p, spawned, FoundCleanup);
    SpawnKeepsDeliveries(s, s', p, spawned, FoundCleanup);
    SpawnKeepsCharge(s, s', p, spawned, FoundCleanup);
  }

  lemma SoloInvEndBoot(s: State, p: ProcessId)
    requires SoloInv(s) && Enabled(s, Action.EndBoot(p))
    ensures SoloInv(Apply(s, Action.EndBoot(p)))
  {
    var s' := Apply(s, Action.EndBoot(p));
    assert p in s'.processes && s'.processes[p] == Running(false);
    assert InflightListed(s) && InflightListed(s') && !QueueListed(s');
    assert forall k, id :: Holder(s', k, id) <==> Holder(s, k, id);
    assert s'.tasks == s.tasks + map[];
    SpawnKeepsCharge(s, s', p, map[], FoundQueued);
    forall id ensures DeliveriesOk(s', id) {
      assert DeliveriesOk(s, id);
      assert forall k :: Handed(s', k, id) <==> Handed(s, k, id);
    }
  }

  lemma SoloInvScanQueue(s: State, p: ProcessId, spawned: map<TaskId, Task>)
    requires SoloInv(s) && Enabled(s, Action.ScanQueue(p, spawned))
    ensures SoloInv(Apply(s, Action.ScanQueue(p, spawned)))
  {
    var s' := Apply(s, Action.ScanQueue(p, spawned));
    assert p in s'.processes && s'.processes[p] == Running(true);
    assert InflightListed(s) && InflightListed(s') && QueueListed(s');
    SpawnKeepsHolders(s, s', p, spawned, FoundQueued);
    SpawnKeepsDeliveries(s, s', p, spawned, FoundQueued);
    SpawnKeepsCharge(s, s', p, spawned, FoundQueued);
  }

  lemma SoloInvCommit(s: State, p: ProcessId, mail: MailId, dests: map<DestId, QueueId>, dir: MailDir, links: map<QueueId, Target>, spawned: map<TaskId, Task>)
    requires SoloInv(s) && Enabled(s, Action.Commit(p, mail, dests, dir, links, spawned))
    ensures SoloInv(ApplyCommit(s, p, mail, dests, dir, links, spawned))
  {
    SpawnKeepsHolders(s, ApplyCommit(s, p, mail, dests, dir, links, spawned), p, spawned, Waiting);
    CommitKeepsProcess(s, p, mail, dests, dir, links, spawned);
    CommitKeepsCharge(s, p, mail, dests, dir, links, spawned);
    CommitKeepsDeliveries(s, p, mail, dests, dir, links, spawned);
  }

  lemma CommitKeepsProcess(s: State, p: ProcessId, mail: MailId, dests: map<DestId, QueueId>, dir: MailDir, links: map<QueueId, Target>, spawned: map<TaskId, Task>)
    requires OneProcess(s) && Enabled(s, Action.Commit(p, mail, dests, dir, links, spawned))
    ensures OneProcess(ApplyCommit(s, p, mail, dests, dir, links, spawned))
  {
    assert InflightListed(ApplyCommit(s, p, mail, dests, dir, links, spawned));
  }

  lemma CommitKeepsCharge(s: State, p: ProcessId, mail: MailId, dests: map<DestId, QueueId>, dir: MailDir, links: map<QueueId, Target>, spawned: map<TaskId, Task>)
    requires SomebodyInCharge(s) && Enabled(s, Action.Commit(p, mail, dests, dir, links, spawned))
    ensures SomebodyInCharge(ApplyCommit(s, p, mail, dests, dir, links, spawned))
  {
    var s' := ApplyCommit(s, p, mail, dests, dir, links, spawned);
    SpawnKeepsCharge(s, s', p, spawned, Waiting);
    if InflightListed(s') { assert InflightListed(s); }
    if QueueListed(s') { assert QueueListed(s); }
  }

  lemma CommitKeepsDeliveries(s: State, p: ProcessId, mail: MailId, dests: map<DestId, QueueId>, dir: MailDir, links: map<QueueId, Target>, spawned: map<TaskId, Task>)
    requires FewDeliveries(s) && Enabled(s, Action.Commit(p, mail, dests, dir, links, spawned))
    ensures FewDeliveries(ApplyCommit(s, p, mail, dests, dir, links, spawned))
  {
    var s' := ApplyCommit(s, p, mail, dests, dir, links, spawned);
    forall id ensures DeliveriesOk(s', id) {
      assert DeliveriesOk(s, id);
      if k :| Handed(s, k, id) { assert Handed(s', k, id); }
    }
  }

  // ------------------------------------------------------------------ runs and main results

  lemma SoloInvNext(s: State, s': State)
    requires Inv(s) && SoloInv(s) && SoloNext(s, s')
    ensures Inv(s') && SoloInv(s')
  {
    var a :| Enabled(s, a) && (a.Start? ==> s.processes == map[]) && s' == Apply(s, a);
    InvNext(s, a);
    if OfTask(a) {
      SoloInvTask(s, a);
    } else if a.Commit? {
      SoloInvCommit(s, a.p, a.mail, a.dests, a.dir, a.links, a.spawned);
    } else {
      SoloInvProcess(s, a);
    }
  }

  lemma SoloInvProcess(s: State, a: Action)
    requires Inv(s) && SoloInv(s) && Enabled(s, a) && !OfTask(a) && !a.Commit? && (a.Start? ==> s.processes == map[]) && Inv(Apply(s, a))
    ensures SoloInv(Apply(s, a))
  {
    match a {
      case Start(p) => SoloInvStart(s, p);
      case Crash(p) => SoloInvCrash(s, p);
      case ScanInflight(p, spawned) => SoloInvScanInflight(s, p, spawned);
      case ScanCleanup(p, spawned) => SoloInvScanCleanup(s, p, spawned);
      case EndBoot(p) => SoloInvEndBoot(s, p);
      case ScanQueue(p, spawned) => SoloInvScanQueue(s, p, spawned);
    }
  }

  lemma {:induction false} SoloInvAlways(run: seq<State>, i: nat)
    requires SoloExecution(run) && i < |run|
    ensures Inv(run[i]) && SoloInv(run[i])
  {
    if i > 0 {
      SoloInvAlways(run, i - 1);
      SoloInvNext(run[i - 1], run[i]);
    }
  }

  /** The task is between `send_start` and `send_done` or `send_cancel`. */
  predicate InSend(stage: Stage) {
    stage.Reading? || stage.Sending? || stage.Delivered? || stage.Failed?
  }

  /** One sender at a time: no two tasks are ever sending the same destination, and its link stays in `inflight` meanwhile. */
  lemma OneSender(run: seq<State>, i: nat, k: TaskId, l: TaskId)
    requires SoloExecution(run) && i < |run| && k in run[i].tasks && l in run[i].tasks
    requires InSend(run[i].tasks[k].stage) && InSend(run[i].tasks[l].stage) && run[i].tasks[k].id == run[i].tasks[l].id
    ensures k == l && run[i].tasks[k].id in run[i].fs.inflight
  {
    SoloInvAlways(run, i);
    assert Holder(run[i], k, run[i].tasks[k].id) && Holder(run[i], l, run[i].tasks[k].id);
  }

  lemma LinkHasATask(run: seq<State>, i: nat, p: ProcessId, id: QueueId)
    requires SoloExecution(run) && i < |run| && p in run[i].processes && run[i].processes[p] == Running(true)
    ensures id in run[i].fs.inflight ==> (p, id) in run[i].missed || exists k :: Holder(run[i], k, id)
    ensures id in run[i].fs.queue ==> (p, id) in run[i].missed || exists k :: Keeper(run[i], k, id)
  {
    SoloInvAlways(run, i);
    assert InflightListed(run[i]) && QueueListed(run[i]);
    if ToSend(run[i], id) && Missed(run[i], id) {
      var q :| q in run[i].processes && (q, id) in run[i].missed;
      assert q == p;
    }
  }

  lemma CountIsBounded(run: seq<State>, i: nat, id: QueueId)
    requires SoloExecution(run) && i < |run|
    ensures Count(run[i], id) <= 1 + run[i].crashes
  {
    SoloInvAlways(run, i);
    assert DeliveriesOk(run[i], id);
  }
}
