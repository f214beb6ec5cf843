/** What every run of the queue keeps, whatever the processes and the crashes. */
module QueueSafety {
  import opened QueueModel

  // ------------------------------------------------------------------ the invariant

  /** Delivered at least once, or given up by the retry policy. */
  predicate Settled(s: State, id: QueueId) {
    Count(s, id) > 0 || id in s.dropped
  }

  /** Where the link of a committed destination is. */
  predicate ToSend(s: State, id: QueueId) { id in s.fs.queue || id in s.fs.inflight }
  predicate Linked(s: State, id: QueueId) { ToSend(s, id) || id in s.fs.cleanup }

  /** A committed destination is in one folder at most; it is complete while it is to be sent, and settled after. */
  predicate IdOk(s: State, id: QueueId)
    requires id in s.committed
  {
    var t := s.committed[id];
    && (id in s.fs.queue ==> s.fs.queue[id] == t && id !in s.fs.inflight && id !in s.fs.cleanup)
    && (id in s.fs.inflight ==> s.fs.inflight[id] == t && id !in s.fs.cleanup)
    && (id in s.fs.cleanup ==> s.fs.cleanup[id] == t)
    && (ToSend(s, id) ==> Complete(s.fs, t))
    && (!ToSend(s, id) ==> Settled(s, id))
    && (!Linked(s, id) ==> !s.fs.HasDest(t))
    && t.mail in s.mails && t.dest in s.mails[t.mail] && s.mails[t.mail][t.dest] == id
  }

  /** A cleanup of `id` is past the removal of its destination directory. */
  predicate PastDest(c: CleanupStep) {
    c.ListMail? || c.RemoveContents? || c.RemoveMailDir? || c.RemoveLink?
  }

  predicate CleanupOk(s: State, id: QueueId, c: CleanupStep)
    requires id in s.committed
  {
    var t := s.committed[id];
    && !ToSend(s, id)
    && (!c.ReadLink? ==> c.t == t)
    && (PastDest(c) ==> !s.fs.HasDest(t))
    && (c.RemoveContents? || c.RemoveMailDir? ==> t.mail in s.fs.data ==> s.fs.data[t.mail].dests == map[])
  }

  predicate TaskOk(s: State, task: Task) {
    && task.id in s.committed
    && match task.stage
       case Delivered => Settled(s, task.id)
       case Dropping => Settled(s, task.id)
       case FoundCleanup => !ToSend(s, task.id)
       case Cleaning(c) => CleanupOk(s, task.id, c)
       case Rescheduling(r) => !r.OpenQueued? ==> r.t == s.committed[task.id]
       case _ => true
  }

  /** `id` is in charge of removing the directory of `mail`: its link is there, and no cleanup is about to remove it. */
  ghost predicate InCharge(s: State, mail: MailId, id: QueueId) {
    && id in s.fs.cleanup && id in s.committed && s.committed[id].mail == mail
    && forall k :: k in s.tasks && s.tasks[k].id == id && s.tasks[k].stage.Cleaning? ==> !s.tasks[k].stage.c.RemoveLink?
  }

  ghost predicate MailOk(s: State, mail: MailId)
    requires mail in s.fs.data && mail in s.mails
  {
    var dir := s.fs.data[mail];
    && (!dir.contents ==> dir.dests == map[])
    && (forall d :: d in dir.dests ==> d in s.mails[mail])
    && (s.mails[mail] != map[] && dir.dests == map[] ==> exists id :: InCharge(s, mail, id))
  }

  ghost predicate Inv(s: State) {
    && Named(s)
    && (forall id :: id in s.committed ==> IdOk(s, id))
    && (forall k :: k in s.tasks ==> TaskOk(s, s.tasks[k]))
    && (forall m :: m in s.fs.data ==> MailOk(s, m))
  }

  /** Links, mails and destination directories are those of committed destinations. */
  ghost predicate Named(s: State) {
    && s.fs.queue.Keys <= s.committed.Keys && s.fs.inflight.Keys <= s.committed.Keys && s.fs.cleanup.Keys <= s.committed.Keys
    && s.fs.data.Keys <= s.mails.Keys
    && (forall m :: m in s.mails ==> MembersOk(s, m))
  }

  predicate MembersOk(s: State, m: MailId)
    requires m in s.mails
  {
    forall d :: d in s.mails[m] ==> s.mails[m][d] in s.committed && s.committed[s.mails[m][d]] == Target(m, d)
  }

  // ------------------------------------------------------------------ what only grows, for one destination

  /** From `s` to `s'` nothing that matters to the tasks of `id` is undone. */
  predicate Later(s: State, s': State, id: QueueId)
    requires id in s.committed
  {
    var t := s.committed[id];
    && id in s'.committed && s'.committed[id] == t
    && (Settled(s, id) ==> Settled(s', id))
    && (!ToSend(s, id) ==> !ToSend(s', id))
    && (!s.fs.HasDest(t) ==> !s'.fs.HasDest(t))
    && (NoDests(s, t.mail) ==> NoDests(s', t.mail))
  }

  predicate NoDests(s: State, m: MailId) {
    m in s.fs.data ==> s.fs.data[m].dests == map[]
  }

  lemma TaskLater(s: State, s': State, task: Task)
    requires TaskOk(s, task) && Later(s, s', task.id)
    ensures TaskOk(s', task)
  { }

  predicate IsRemoveLink(task: Task) {
    task.stage.Cleaning? && task.stage.c.RemoveLink?
  }

  /** `m` has no destination left: its directory is to be removed. */
  predicate Needless(s: State, m: MailId) {
    m in s.fs.data && s.fs.data[m].dests == map[]
  }

  /** Every task of `s'` was there in `s`, or is in order and does not desert a mail to be removed. */
  ghost predicate TasksFollow(s: State, s': State) {
    forall k :: k in s'.tasks ==> (k in s.tasks && s.tasks[k] == s'.tasks[k]) || NewTaskOk(s', s'.tasks[k])
  }

  predicate NewTaskOk(s: State, task: Task) {
    TaskOk(s, task) && (IsRemoveLink(task) ==> !Needless(s, s.committed[task.id].mail))
  }

  /** A mail directory that does not lose its last destination keeps its order. */
  lemma MailFollows(s: State, s': State, m: MailId)
    requires m in s.fs.data && m in s'.fs.data && m in s.mails && m in s'.mails && s'.mails[m] == s.mails[m]
    requires MailOk(s, m) && TasksFollow(s, s')
    requires forall d :: d in s'.fs.data[m].dests ==> d in s.mails[m]
    requires Needless(s', m) ==> Needless(s, m)
    requires !s'.fs.data[m].contents ==> Needless(s', m)
    requires forall id :: InCharge(s, m, id) ==> id in s'.fs.cleanup && id in s'.committed && s'.committed[id] == s.committed[id]
    ensures MailOk(s', m)
  {
    if s.mails[m] != map[] && Needless(s', m) {
      var id :| InCharge(s, m, id);
      InChargeFollows(s, s', m, id);
    }
  }

  lemma InChargeFollows(s: State, s': State, m: MailId, id: QueueId)
    requires InCharge(s, m, id) && TasksFollow(s, s') && Needless(s', m)
    requires id in s'.fs.cleanup && id in s'.committed && s'.committed[id] == s.committed[id]
    ensures InCharge(s', m, id)
  { }

  lemma InvStep(s: State, s': State)
    requires Inv(s) && Named(s') && TasksFollow(s, s')
    requires forall id :: id in s.committed ==> Later(s, s', id)
    requires forall id :: id in s'.committed ==> IdOk(s', id)
    requires forall m :: m in s'.fs.data ==> MailOk(s', m)
    ensures Inv(s')
  {
    forall k | k in s'.tasks ensures TaskOk(s', s'.tasks[k]) {
      if k in s.tasks && s.tasks[k] == s'.tasks[k] { TaskLater(s, s', s.tasks[k]); }
    }
  }

  /** Steps that leave the mail directories and the history of commits alone. */
  lemma InvLinks(s: State, s': State)
    requires Inv(s) && TasksFollow(s, s')
    requires s'.committed == s.committed && s'.mails == s.mails && s'.fs.data == s.fs.data
    requires s'.fs.queue.Keys + s'.fs.inflight.Keys + s'.fs.cleanup.Keys <= s.committed.Keys
    requires forall m, id :: InCharge(s, m, id) ==> id in s'.fs.cleanup
    requires forall id :: id in s.committed ==> Later(s, s', id) && IdOk(s', id)
    ensures Inv(s')
  {
    NamedFollows(s, s');
    forall m | m in s'.fs.data ensures MailOk(s', m) {
      assert MailOk(s, m);
      MailFollows(s, s', m);
    }
    InvStep(s, s');
  }

  lemma NamedFollows(s: State, s': State)
    requires Named(s)
    requires s'.committed == s.committed && s'.mails == s.mails && s'.fs.data.Keys <= s.fs.data.Keys
    requires s'.fs.queue.Keys + s'.fs.inflight.Keys + s'.fs.cleanup.Keys <= s.committed.Keys
    ensures Named(s')
  {
    forall m | m in s'.mails ensures MembersOk(s', m) { assert MembersOk(s, m); }
  }

  /** Steps that leave the whole directory alone. */
  lemma InvSameFs(s: State, s': State)
    requires Inv(s) && TasksFollow(s, s')
    requires s'.committed == s.committed && s'.mails == s.mails && s'.fs == s.fs
    requires forall id :: Settled(s, id) ==> Settled(s', id)
    ensures Inv(s')
  {
    forall id | id in s.committed ensures Later(s, s', id) && IdOk(s', id) {
      SameFsId(s, s', id);
    }
    InvLinks(s, s');
  }

  lemma SameFsId(s: State, s': State, id: QueueId)
    requires id in s.committed && IdOk(s, id)
    requires s'.committed == s.committed && s'.mails == s.mails && s'.fs == s.fs && (Settled(s, id) ==> Settled(s', id))
    ensures Later(s, s', id) && IdOk(s', id)
  { }

  predicate SameHistory(s: State, s': State) {
    s'.committed == s.committed && s'.mails == s.mails
  }

  /** Only task `k` changes, if it does not stop. */
  predicate OneTask(s: State, s': State, k: TaskId) {
    if k in s'.tasks then s'.tasks == s.tasks[k := s'.tasks[k]] && NewTaskOk(s', s'.tasks[k])
    else s'.tasks == s.tasks - {k}
  }

  predicate SameBut(a: map<QueueId, Target>, b: map<QueueId, Target>, id: QueueId) {
    && (forall x :: x in a && x != id ==> x in b && a[x] == b[x])
    && (forall x :: x in b && x != id ==> x in a)
  }

  /** A step of task `k` on its own link, or on no link. */
  ghost predicate LinkStep(s: State, s': State, k: TaskId, id: QueueId) {
    && SameHistory(s, s') && s'.fs.data == s.fs.data && OneTask(s, s', k)
    && SameBut(s.fs.queue, s'.fs.queue, id) && SameBut(s.fs.inflight, s'.fs.inflight, id) && SameBut(s.fs.cleanup, s'.fs.cleanup, id)
    && (forall x :: Settled(s, x) ==> Settled(s', x))
    && id in s.committed && Later(s, s', id) && IdOk(s', id)
    && (id in s.fs.cleanup && id !in s'.fs.cleanup ==> k in s.tasks && s.tasks[k].id == id && IsRemoveLink(s.tasks[k]))
  }

  lemma InvLinkStep(s: State, s': State, k: TaskId, id: QueueId)
    requires Inv(s) && LinkStep(s, s', k, id)
    ensures Inv(s')
  {
    forall x | x in s.committed ensures Later(s, s', x) && IdOk(s', x) {
      assert IdOk(s, x);
      LinkStepElsewhere(s, s', k, id, x);
    }
    forall m, x | InCharge(s, m, x) ensures x in s'.fs.cleanup { LinkStepInCharge(s, s', k, id, m, x); }
    InvLinks(s, s');
  }

  lemma LinkStepElsewhere(s: State, s': State, k: TaskId, id: QueueId, x: QueueId)
    requires LinkStep(s, s', k, id) && x in s.committed && IdOk(s, x)
    ensures Later(s, s', x) && IdOk(s', x)
  { }

  lemma LinkStepInCharge(s: State, s': State, k: TaskId, id: QueueId, m: MailId, x: QueueId)
    requires LinkStep(s, s', k, id) && InCharge(s, m, x)
    ensures x in s'.fs.cleanup
  { }

  /** A step of task `k` in the directory of its own mail. */
  ghost predicate DataStep(s: State, s': State, k: TaskId, id: QueueId) {
    && SameHistory(s, s') && OneTask(s, s', k) && id in s.committed
    && s'.fs == s.fs.(data := s'.fs.data) && s'.deliveries == s.deliveries && s'.dropped == s.dropped
    && (forall m :: m in s'.fs.data ==> m in s.fs.data)
    && (forall m :: m in s.fs.data && m != s.committed[id].mail ==> m in s'.fs.data && s'.fs.data[m] == s.fs.data[m])
    && MailStep(s, s', s.committed[id])
    && IdOk(s', id)
    && (Needless(s', s.committed[id].mail) && !Needless(s, s.committed[id].mail) ==>
          s.fs.HasDest(s.committed[id]) && !ToSend(s, id) && k in s'.tasks && !IsRemoveLink(s'.tasks[k]))
  }

  predicate MailStep(s: State, s': State, t: Target) {
    t.mail in s.fs.data ==>
      var dir := s.fs.data[t.mail];
      if t.mail in s'.fs.data then
        var dir' := s'.fs.data[t.mail];
        && (forall d :: d in dir'.dests ==> d in dir.dests)
        && (forall d :: d in dir.dests && d != t.dest ==> d in dir'.dests && dir'.dests[d] == dir.dests[d])
        && (dir'.contents == dir.contents || dir.dests == map[])
      else dir.dests == map[]
  }

  lemma DataStepElsewhere(s: State, s': State, k: TaskId, id: QueueId, x: QueueId)
    requires DataStep(s, s', k, id) && x in s.committed && IdOk(s, x) && IdOk(s, id)
    ensures Later(s, s', x) && IdOk(s', x)
  {
    var t, u := s.committed[id], s.committed[x];
    assert x != id ==> t != u;
    assert Settled(s, x) ==> Settled(s', x);
    if NoDests(s, u.mail) && u.mail in s'.fs.data {
      assert s'.fs.data[u.mail].dests.Keys == {};
    }
  }

  lemma InvDataStep(s: State, s': State, k: TaskId, id: QueueId)
    requires Inv(s) && DataStep(s, s', k, id)
    ensures Inv(s')
  {
    var t := s.committed[id];
    forall x | x in s.committed ensures Later(s, s', x) && IdOk(s', x) {
      DataStepElsewhere(s, s', k, id, x);
    }
    NamedFollows(s, s');
    forall m | m in s'.fs.data ensures MailOk(s', m) {
      assert MailOk(s, m);
      DataStepMail(s, s', k, id, m);
    }
    InvStep(s, s');
  }

  lemma DataStepMail(s: State, s': State, k: TaskId, id: QueueId, m: MailId)
    requires DataStep(s, s', k, id) && m in s'.fs.data && m in s.mails && MailOk(s, m)
    requires IdOk(s, id) && forall j :: j in s.tasks ==> TaskOk(s, s.tasks[j])
    ensures MailOk(s', m)
  {
    var t := s.committed[id];
    if Needless(s', m) && !Needless(s, m) {
      LastDestGone(s, s', k, id);
    } else {
      if m == t.mail { DataStepContents(s, s', k, id); }
      MailFollows(s, s', m);
    }
  }

  lemma DataStepContents(s: State, s': State, k: TaskId, id: QueueId)
    requires DataStep(s, s', k, id)
    requires s.committed[id].mail in s'.fs.data && s.committed[id].mail in s.mails && MailOk(s, s.committed[id].mail)
    ensures !s'.fs.data[s.committed[id].mail].contents ==> Needless(s', s.committed[id].mail)
  {
    var m := s.committed[id].mail;
    assert s.fs.data[m].dests == map[] ==> s'.fs.data[m].dests.Keys == {};
  }

  lemma LastDestGone(s: State, s': State, k: TaskId, id: QueueId)
    requires DataStep(s, s', k, id) && Needless(s', s.committed[id].mail) && !Needless(s, s.committed[id].mail)
    requires IdOk(s, id) && forall j :: j in s.tasks ==> TaskOk(s, s.tasks[j])
    ensures InCharge(s', s.committed[id].mail, id)
  {
    forall j | j in s'.tasks && s'.tasks[j].id == id && s'.tasks[j].stage.Cleaning? ensures !s'.tasks[j].stage.c.RemoveLink? {
      if j != k { assert TaskOk(s, s.tasks[j]); }
    }
  }

  // ------------------------------------------------------------------ each step keeps the invariant

  lemma InvSpawn(s: State, s': State, p: ProcessId, spawned: map<TaskId, Task>, stage: Stage)
    requires Inv(s) && s'.tasks == s.tasks + spawned && AllNew(p, spawned, stage) && spawned.Keys !! s.tasks.Keys
    requires s' == s.(tasks := s'.tasks, processes := s'.processes)
    requires stage == FoundQueued || stage == FoundInflight || stage == FoundCleanup
    requires forall k :: k in spawned ==> spawned[k].id in s.committed && (stage == FoundCleanup ==> !ToSend(s, spawned[k].id))
    ensures Inv(s')
  {
    InvSameFs(s, s');
  }

  // For the steps of a task, first what the step does to its own destination, then the invariant.

  predicate Local(s: State, k: TaskId) {
    k in s.tasks && TaskOk(s, s.tasks[k]) && IdOk(s, s.tasks[k].id)
  }

  lemma LookIsLocal(s: State, k: TaskId)
    requires Local(s, k) && Listed(s, k)
    ensures LinkStep(s, ApplyLook(s, k), k, s.tasks[k].id)
  {
    StopIsLocal(s, k);
    match s.tasks[k].stage {
      case FoundQueued => GotoIsLocal(s, k, Waiting);
      case FoundInflight => GotoIsLocal(s, k, Recovering);
      case FoundCleanup => GotoIsLocal(s, k, Cleaning(ReadLink));
    }
  }

  lemma ScanErrorIsLocal(s: State, k: TaskId)
    requires Local(s, k)
    ensures LinkStep(s, ApplyScanError(s, k), k, s.tasks[k].id)
  { }

  lemma TransportIsLocal(s: State, k: TaskId, success: bool)
    requires Local(s, k) && AtStage(s, k, Sending)
    ensures LinkStep(s, ApplyTransport(s, k, success), k, s.tasks[k].id)
  { }

  lemma SendStartIsLocal(s: State, k: TaskId)
    requires Local(s, k) && AtStage(s, k, Waiting)
    ensures LinkStep(s, ApplySendStart(s, k), k, s.tasks[k].id)
  {
    if s.tasks[k].id !in s.fs.queue { StopIsLocal(s, k); }
  }

  lemma SendDoneIsLocal(s: State, k: TaskId)
    requires Local(s, k) && AtStage(s, k, Delivered)
    ensures LinkStep(s, ApplySendDone(s, k), k, s.tasks[k].id)
  {
    if s.tasks[k].id !in s.fs.inflight { StopIsLocal(s, k); }
  }

  lemma SendCancelIsLocal(s: State, k: TaskId)
    requires Local(s, k) && (AtStage(s, k, Failed) || AtStage(s, k, Recovering))
    ensures LinkStep(s, ApplySendCancel(s, k), k, s.tasks[k].id)
  {
    if s.tasks[k].id !in s.fs.inflight { StopIsLocal(s, k); }
  }

  lemma DropIsLocal(s: State, k: TaskId)
    requires Local(s, k) && AtStage(s, k, Dropping)
    ensures LinkStep(s, ApplyDrop(s, k), k, s.tasks[k].id)
  {
    if s.tasks[k].id !in s.fs.queue { StopIsLocal(s, k); }
  }

  lemma DecideIsLocal(s: State, k: TaskId, retry: bool)
    requires Local(s, k) && AtStage(s, k, Deciding)
    ensures LinkStep(s, ApplyDecide(s, k, retry), k, s.tasks[k].id)
  { }

  /** Steps that change the stage of a task and nothing else. */
  lemma GotoIsLocal(s: State, k: TaskId, stage: Stage)
    requires Local(s, k) && NewTaskOk(Goto(s, k, stage), Goto(s, k, stage).tasks[k])
    ensures LinkStep(s, Goto(s, k, stage), k, s.tasks[k].id)
  { }

  /** Steps that change one destination directory, which stays complete if it is to be sent. */
  lemma SetDestIsLocal(s: State, k: TaskId, stage: Stage, d: DestDir)
    requires Local(s, k) && s.fs.HasDest(s.committed[s.tasks[k].id])
    requires ToSend(s, s.tasks[k].id) ==> d.metadata && d.schedule
    requires stage == Waiting || (stage.Rescheduling? && !stage.r.OpenQueued? && stage.r.t == s.committed[s.tasks[k].id])
      || (!ToSend(s, s.tasks[k].id) && stage.Cleaning? && !stage.c.ReadLink? && !PastDest(stage.c) && stage.c.t == s.committed[s.tasks[k].id])
    ensures DataStep(s, Goto(s, k, stage).(fs := s.fs.SetDest(s.committed[s.tasks[k].id], d)), k, s.tasks[k].id)
  { }

  lemma RescheduleIsLocal(s: State, k: TaskId, tmp: nat)
    requires Local(s, k) && s.tasks[k].stage.Rescheduling?
    ensures LinkStep(s, ApplyReschedule(s, k, tmp), k, s.tasks[k].id) || DataStep(s, ApplyReschedule(s, k, tmp), k, s.tasks[k].id)
  {
    var t := s.committed[s.tasks[k].id];
    GotoIsLocal(s, k, Rescheduling(OpenQueued));
    match s.tasks[k].stage.r {
      case OpenQueued =>
        GotoIsLocal(s, k, Rescheduling(CreateTmp(t)));
        assert Goto(s, k, Rescheduling(OpenQueued)) == s;
      case CreateTmp(_) =>
        if s.fs.HasDest(t) {
          var d := s.fs.data[t.mail].dests[t.dest];
          SetDestIsLocal(s, k, Rescheduling(RenameTmp(t, tmp)), d.(tmps := d.tmps + {tmp}));
        }
      case RenameTmp(_, tmp1) =>
        if s.fs.HasDest(t) {
          var d := s.fs.data[t.mail].dests[t.dest];
          SetDestIsLocal(s, k, Waiting, d.(schedule := true, tmps := d.tmps - {tmp1}));
        }
    }
  }

  lemma UnlinkIsLocal(s: State, k: TaskId)
    requires Local(s, k) && IsRemoveLink(s.tasks[k])
    ensures LinkStep(s, ApplyCleanup(s, k), k, s.tasks[k].id)
  { }

  lemma RemoveDestIsLocal(s: State, k: TaskId)
    requires Local(s, k) && s.tasks[k].stage.Cleaning? && s.tasks[k].stage.c.RemoveDestDir?
    requires s.fs.HasDest(s.committed[s.tasks[k].id])
    ensures DataStep(s, Goto(s, k, Cleaning(ListMail(s.tasks[k].stage.c.t))).(fs := s.fs.RemoveDest(s.tasks[k].stage.c.t)), k, s.tasks[k].id)
  { }

  lemma RemoveContentsIsLocal(s: State, k: TaskId)
    requires Local(s, k) && s.tasks[k].stage.Cleaning? && s.tasks[k].stage.c.RemoveContents?
    ensures LinkStep(s, ApplyCleanup(s, k), k, s.tasks[k].id) || DataStep(s, ApplyCleanup(s, k), k, s.tasks[k].id)
  {
    var t := s.committed[s.tasks[k].id];
    if t.mail !in s.fs.data { GotoIsLocal(s, k, Cleaning(RemoveMailDir(t))); }
  }

  lemma RemoveMailIsLocal(s: State, k: TaskId)
    requires Local(s, k) && s.tasks[k].stage.Cleaning? && s.tasks[k].stage.c.RemoveMailDir?
    ensures LinkStep(s, ApplyCleanup(s, k), k, s.tasks[k].id) || DataStep(s, ApplyCleanup(s, k), k, s.tasks[k].id)
  {
    var t := s.committed[s.tasks[k].id];
    if t.mail !in s.fs.data {
      GotoIsLocal(s, k, Cleaning(RemoveLink(t)));
    } else if s.fs.data[t.mail] != MailDir(false, map[]) {
      GotoIsLocal(s, k, Cleaning(ReadLink));
    }
  }

  lemma RemoveFileIsLocal(s: State, k: TaskId)
    requires Local(s, k) && s.tasks[k].stage.Cleaning? && (s.tasks[k].stage.c.RemoveMetadata? || s.tasks[k].stage.c.RemoveSchedule?)
    ensures LinkStep(s, ApplyCleanup(s, k), k, s.tasks[k].id) || DataStep(s, ApplyCleanup(s, k), k, s.tasks[k].id)
  {
    var t := s.committed[s.tasks[k].id];
    var next := Cleaning(if s.tasks[k].stage.c.RemoveMetadata? then RemoveSchedule(t) else OpenMail(t));
    if s.fs.HasDest(t) {
      var d := s.fs.data[t.mail].dests[t.dest];
      SetDestIsLocal(s, k, next, if s.tasks[k].stage.c.RemoveMetadata? then d.(metadata := false) else d.(schedule := false));
    } else {
      GotoIsLocal(s, k, next);
    }
  }

  lemma RemoveDestDirIsLocal(s: State, k: TaskId)
    requires Local(s, k) && s.tasks[k].stage.Cleaning? && s.tasks[k].stage.c.RemoveDestDir?
    ensures LinkStep(s, ApplyCleanup(s, k), k, s.tasks[k].id) || DataStep(s, ApplyCleanup(s, k), k, s.tasks[k].id)
  {
    var t := s.committed[s.tasks[k].id];
    if !s.fs.HasDest(t) {
      GotoIsLocal(s, k, Cleaning(ListMail(t)));
    } else if s.fs.data[t.mail].dests[t.dest] == DestDir(false, false, {}) {
      RemoveDestIsLocal(s, k);
    } else {
      GotoIsLocal(s, k, Cleaning(ReadLink));
    }
  }

  lemma RemoveDirIsLocal(s: State, k: TaskId)
    requires Local(s, k) && s.tasks[k].stage.Cleaning?
    requires var c := s.tasks[k].stage.c; c.RemoveDestDir? || c.RemoveContents? || c.RemoveMailDir?
    ensures LinkStep(s, ApplyCleanup(s, k), k, s.tasks[k].id) || DataStep(s, ApplyCleanup(s, k), k, s.tasks[k].id)
  {
    match s.tasks[k].stage.c {
      case RemoveDestDir(_) => RemoveDestDirIsLocal(s, k);
      case RemoveContents(_) => RemoveContentsIsLocal(s, k);
      case RemoveMailDir(_) => RemoveMailIsLocal(s, k);
    }
  }

  lemma CleanupIsLocal(s: State, k: TaskId)
    requires Local(s, k) && s.tasks[k].stage.Cleaning?
    ensures LinkStep(s, ApplyCleanup(s, k), k, s.tasks[k].id) || DataStep(s, ApplyCleanup(s, k), k, s.tasks[k].id)
  {
    var t := s.committed[s.tasks[k].id];
    match s.tasks[k].stage.c {
      case ReadLink =>
        StopIsLocal(s, k);
        if s.tasks[k].id in s.fs.cleanup { GotoIsLocal(s, k, Cleaning(OpenDest(t))); }
      case OpenDest(_) => GotoIsLocal(s, k, Cleaning(if s.fs.HasDest(t) then RemoveMetadata(t) else OpenMail(t)));
      case OpenMail(_) => GotoIsLocal(s, k, Cleaning(if t.mail in s.fs.data then RemoveDestDir(t) else RemoveLink(t)));
      case ListMail(_) =>
        GotoIsLocal(s, k, Cleaning(if Needless(s, t.mail) then RemoveContents(t) else RemoveLink(t)));
      case RemoveLink(_) => UnlinkIsLocal(s, k);
      case RemoveMetadata(_) => RemoveFileIsLocal(s, k);
      case RemoveSchedule(_) => RemoveFileIsLocal(s, k);
      case _ => RemoveDirIsLocal(s, k);
    }
  }

  lemma StopIsLocal(s: State, k: TaskId)
    requires Local(s, k)
    ensures LinkStep(s, Stop(s, k), k, s.tasks[k].id)
  { }

  // ------------------------------------------------------------------ commits

  predicate Fresh(s: State, mail: MailId, dests: map<DestId, QueueId>, dir: MailDir, links: map<QueueId, Target>, spawned: map<TaskId, Task>) {
    && mail !in s.mails && links.Keys !! s.committed.Keys && LinksTo(links, mail, dests)
    && NewMail(dir, dests) && spawned.Keys !! s.tasks.Keys
    && forall k :: k in spawned ==> spawned[k].id in links && spawned[k].stage == Waiting
  }

  lemma CommitNewId(s: State, p: ProcessId, mail: MailId, dests: map<DestId, QueueId>, dir: MailDir, links: map<QueueId, Target>,
                    spawned: map<TaskId, Task>, id: QueueId)
    requires Fresh(s, mail, dests, dir, links, spawned) && id in links && id !in s.fs.inflight && id !in s.fs.cleanup
    ensures IdOk(ApplyCommit(s, p, mail, dests, dir, links, spawned), id)
  { }

  lemma CommitOldId(s: State, p: ProcessId, mail: MailId, dests: map<DestId, QueueId>, dir: MailDir, links: map<QueueId, Target>,
                    spawned: map<TaskId, Task>, id: QueueId)
    requires Fresh(s, mail, dests, dir, links, spawned) && id in s.committed && IdOk(s, id)
    ensures var s' := ApplyCommit(s, p, mail, dests, dir, links, spawned); IdOk(s', id) && Later(s, s', id)
  {
    assert s.committed[id].mail != mail && id !in links;
  }

  lemma CommitNamed(s: State, p: ProcessId, mail: MailId, dests: map<DestId, QueueId>, dir: MailDir, links: map<QueueId, Target>,
                    spawned: map<TaskId, Task>)
    requires Fresh(s, mail, dests, dir, links, spawned) && Named(s)
    ensures Named(ApplyCommit(s, p, mail, dests, dir, links, spawned))
  {
    var s' := ApplyCommit(s, p, mail, dests, dir, links, spawned);
    forall m | m in s'.mails ensures MembersOk(s', m) {
      if m != mail { assert MembersOk(s, m); }
    }
  }

  lemma CommitTasks(s: State, p: ProcessId, mail: MailId, dests: map<DestId, QueueId>, dir: MailDir, links: map<QueueId, Target>,
                    spawned: map<TaskId, Task>)
    requires Fresh(s, mail, dests, dir, links, spawned)
    ensures TasksFollow(s, ApplyCommit(s, p, mail, dests, dir, links, spawned))
  { }

  lemma CommitMail(s: State, p: ProcessId, mail: MailId, dests: map<DestId, QueueId>, dir: MailDir, links: map<QueueId, Target>,
                   spawned: map<TaskId, Task>, m: MailId)
    requires Fresh(s, mail, dests, dir, links, spawned) && Named(s)
    requires m == mail || (m in s.fs.data && MailOk(s, m))
    ensures MailOk(ApplyCommit(s, p, mail, dests, dir, links, spawned), m)
  {
    var s' := ApplyCommit(s, p, mail, dests, dir, links, spawned);
    if m == mail {
      assert s'.fs.data[mail].dests.Keys == dests.Keys;
      assert s'.fs.data[mail].dests == map[] ==> dests.Keys == {};
    } else {
      CommitTasks(s, p, mail, dests, dir, links, spawned);
      MailFollows(s, s', m);
    }
  }

  lemma InvCommit(s: State, p: ProcessId, mail: MailId, dests: map<DestId, QueueId>, dir: MailDir, links: map<QueueId, Target>,
                  spawned: map<TaskId, Task>)
    requires Inv(s) && Fresh(s, mail, dests, dir, links, spawned)
    ensures Inv(ApplyCommit(s, p, mail, dests, dir, links, spawned))
  {
    var s' := ApplyCommit(s, p, mail, dests, dir, links, spawned);
    CommitNamed(s, p, mail, dests, dir, links, spawned);
    forall id | id in s.committed ensures Later(s, s', id) && IdOk(s', id) {
      CommitOldId(s, p, mail, dests, dir, links, spawned, id);
    }
    forall id | id in s'.committed ensures IdOk(s', id) {
      if id in links { CommitNewId(s, p, mail, dests, dir, links, spawned, id); }
    }
    CommitTasks(s, p, mail, dests, dir, links, spawned);
    forall m | m in s'.fs.data ensures MailOk(s', m) {
      CommitMail(s, p, mail, dests, dir, links, spawned, m);
    }
    InvStep(s, s');
  }

  // ------------------------------------------------------------------ runs

  predicate OfTask(a: Action) {
    !a.Start? && !a.Crash? && !a.ScanInflight? && !a.ScanCleanup? && !a.EndBoot? && !a.ScanQueue? && !a.Commit?
  }

  lemma InvTaskStep(s: State, a: Action)
    requires Inv(s) && Enabled(s, a)
    requires OfTask(a)
    ensures Inv(Apply(s, a))
  {
    var k, id, s' := a.task, s.tasks[a.task].id, Apply(s, a);
    assert Local(s, k) by { assert TaskOk(s, s.tasks[k]); assert IdOk(s, id); }
    TaskStepIsLocal(s, a);
    if LinkStep(s, s', k, id) { InvLinkStep(s, s', k, id); } else { InvDataStep(s, s', k, id); }
  }

  lemma TaskStepIsLocal(s: State, a: Action)
    requires Enabled(s, a)
    requires OfTask(a)
    requires Local(s, a.task)
    ensures LinkStep(s, Apply(s, a), a.task, s.tasks[a.task].id) || DataStep(s, Apply(s, a), a.task, s.tasks[a.task].id)
  {
    if a.LookAtFound? || a.ScanError? {
      FirstStepIsLocal(s, a);
    } else if a.Decide? || a.Reschedule? || a.RescheduleError? {
      LateStepIsLocal(s, a);
    } else if a.Drop? || a.Cleanup? || a.CleanupError? {
      LastStepIsLocal(s, a);
    } else {
      SendStepIsLocal(s, a);
    }
  }

  lemma FirstStepIsLocal(s: State, a: Action)
    requires Enabled(s, a)
    requires a.LookAtFound? || a.ScanError?
    requires Local(s, a.task)
    ensures LinkStep(s, Apply(s, a), a.task, s.tasks[a.task].id)
  {
    if a.ScanError? { ScanErrorIsLocal(s, a.task); } else { LookIsLocal(s, a.task); }
  }

  lemma LateStepIsLocal(s: State, a: Action)
    requires Enabled(s, a)
    requires a.Decide? || a.Reschedule? || a.RescheduleError?
    requires Local(s, a.task)
    ensures LinkStep(s, Apply(s, a), a.task, s.tasks[a.task].id) || DataStep(s, Apply(s, a), a.task, s.tasks[a.task].id)
  {
    var k := a.task;
    match a {
      case Decide(_, retry) => DecideIsLocal(s, k, retry);
      case Reschedule(_, tmp) => RescheduleIsLocal(s, k, tmp);
      case RescheduleError(_) => GotoIsLocal(s, k, Rescheduling(OpenQueued));
    }
  }

  lemma LastStepIsLocal(s: State, a: Action)
    requires Enabled(s, a)
    requires a.Drop? || a.Cleanup? || a.CleanupError?
    requires Local(s, a.task)
    ensures LinkStep(s, Apply(s, a), a.task, s.tasks[a.task].id) || DataStep(s, Apply(s, a), a.task, s.tasks[a.task].id)
  {
    var k := a.task;
    match a {
      case Drop(_) => DropIsLocal(s, k);
      case Cleanup(_) => CleanupIsLocal(s, k);
      case CleanupError(_) => GotoIsLocal(s, k, Cleaning(ReadLink));
    }
  }

  lemma SendStepIsLocal(s: State, a: Action)
    requires Enabled(s, a)
    requires a.SendStart? || a.ReadInflight? || a.Transport? || a.SendDone? || a.SendCancel?
    requires Local(s, a.task)
    ensures LinkStep(s, Apply(s, a), a.task, s.tasks[a.task].id)
  {
    var k := a.task;
    match a {
      case SendStart(_) => SendStartIsLocal(s, k);
      case ReadInflight(_) => GotoIsLocal(s, k, Sending);
      case Transport(_, success) => TransportIsLocal(s, k, success);
      case SendDone(_) => SendDoneIsLocal(s, k);
      case SendCancel(_) => SendCancelIsLocal(s, k);
    }
  }

  lemma InvNext(s: State, a: Action)
    requires Inv(s) && Enabled(s, a)
    ensures Inv(Apply(s, a))
  {
    match a {
      case Start(_) => InvProcess(s, a);
      case Crash(_) => InvProcess(s, a);
      case EndBoot(_) => InvProcess(s, a);
      case ScanInflight(_, _) => InvScan(s, a);
      case ScanCleanup(_, _) => InvScan(s, a);
      case ScanQueue(_, _) => InvScan(s, a);
      case Commit(p, mail, dests, dir, links, spawned) => InvCommit(s, p, mail, dests, dir, links, spawned);
      case _ => InvTaskStep(s, a);
    }
  }

  lemma InvProcess(s: State, a: Action)
    requires Inv(s) && Enabled(s, a) && (a.Start? || a.Crash? || a.EndBoot?)
    ensures Inv(Apply(s, a))
  {
    InvSameFs(s, Apply(s, a));
  }

  lemma InvScan(s: State, a: Action)
    requires Inv(s) && Enabled(s, a) && (a.ScanInflight? || a.ScanCleanup? || a.ScanQueue?)
    ensures Inv(Apply(s, a))
  {
    match a {
      case ScanInflight(p, spawned) => InvSpawn(s, Apply(s, a), p, spawned, FoundInflight);
      case ScanCleanup(p, spawned) => InvSpawn(s, Apply(s, a), p, spawned, FoundCleanup);
      case ScanQueue(p, spawned) => InvSpawn(s, Apply(s, a), p, spawned, FoundQueued);
    }
  }

  lemma InvStepOfRun(s: State, s': State)
    requires Inv(s) && Next(s, s')
    ensures Inv(s')
  {
    var a :| Enabled(s, a) && s' == Apply(s, a);
    InvNext(s, a);
  }

  lemma {:induction false} InvAlways(run: seq<State>, i: nat)
    requires Execution(run) && i < |run|
    ensures Inv(run[i])
  {
    if i > 0 {
      InvAlways(run, i - 1);
      InvStepOfRun(run[i - 1], run[i]);
    }
  }

  // ------------------------------------------------------------------ main results

  /** In every state of every run, a committed destination is to be sent, and can be, or it is settled. */
  lemma CommittedIsSafe(run: seq<State>, i: nat, id: QueueId)
    requires Execution(run) && i < |run| && id in run[i].committed
    ensures !(id in run[i].fs.queue && id in run[i].fs.inflight)
    ensures ToSend(run[i], id) ==> Complete(run[i].fs, run[i].committed[id])
    ensures id in run[i].fs.queue ==> run[i].fs.queue[id] == run[i].committed[id]
    ensures id in run[i].fs.inflight ==> run[i].fs.inflight[id] == run[i].committed[id]
    ensures !ToSend(run[i], id) ==> Count(run[i], id) > 0 || id in run[i].dropped
    ensures id in run[i].fs.cleanup ==> !ToSend(run[i], id)
  {
    InvAlways(run, i);
    assert IdOk(run[i], id);
  }

  /**
   Cleanups are safe and leave nothing behind: the contents of a mail go only after all
   its destinations, and as long as the directory of a mail that has destinations is
   there, so is the link of one of them. Once all its links are gone, so is the mail.
   */
  lemma NoGarbage(run: seq<State>, i: nat, m: MailId)
    requires Execution(run) && i < |run| && m in run[i].fs.data
    ensures m in run[i].mails
    ensures run[i].fs.data[m].dests != map[] ==> run[i].fs.data[m].contents
    ensures run[i].mails[m] != map[] ==> exists id :: id in run[i].committed && run[i].committed[id].mail == m && Linked(run[i], id)
  {
    var s := run[i];
    InvAlways(run, i);
    assert MailOk(s, m);
    if s.mails[m] != map[] {
      if s.fs.data[m].dests == map[] {
        var id :| InCharge(s, m, id);
        assert Linked(s, id);
      } else {
        var d :| d in s.fs.data[m].dests;
        assert MembersOk(s, m);
        assert IdOk(s, s.mails[m][d]);
        assert Linked(s, s.mails[m][d]);
      }
    }
  }

  /** A mail without destinations has its directory. */
  predicate Stays(s: State, m: MailId) {
    m in s.mails && s.mails[m] == map[] ==> m in s.fs.data
  }

  lemma NoDestinationOfRun(run: seq<State>, i: nat, m: MailId)
    requires Execution(run) && 0 < i < |run| && Inv(run[i - 1]) && Stays(run[i - 1], m)
    ensures Stays(run[i], m)
  {
    assert Next(run[i - 1], run[i]);
    NoDestinationNext(run[i - 1], run[i], m);
  }

  lemma {:induction false} NoDestinationAlways(run: seq<State>, i: nat, m: MailId)
    requires Execution(run) && i < |run|
    ensures Stays(run[i], m)
  {
    if i > 0 {
      InvAlways(run, i - 1);
      NoDestinationAlways(run, i - 1, m);
      NoDestinationOfRun(run, i, m);
    }
  }

  /** A mail committed without destinations: its directory stays for ever. */
  lemma NoDestinationStaysForEver(run: seq<State>, i: nat, m: MailId)
    requires Execution(run) && i < |run| && m in run[i].mails && run[i].mails[m] == map[]
    ensures m in run[i].fs.data
  {
    NoDestinationAlways(run, i, m);
  }

  lemma NoDestinationNext(s: State, s': State, m: MailId)
    requires Inv(s) && Next(s, s') && Stays(s, m)
    ensures Stays(s', m)
  {
    var a :| Enabled(s, a) && s' == Apply(s, a);
    if m in s'.mails && s'.mails[m] == map[] { NoDestinationStep(s, a, m); }
  }

  lemma NoDestinationStep(s: State, a: Action, m: MailId)
    requires Inv(s) && Enabled(s, a) && m in Apply(s, a).mails && Apply(s, a).mails[m] == map[]
    ensures m in s.mails ==> s.mails[m] == map[]
    ensures (m in s.mails ==> m in s.fs.data) ==> m in Apply(s, a).fs.data
  {
    if OfTask(a) {
      var k, id, s' := a.task, s.tasks[a.task].id, Apply(s, a);
      assert Local(s, k) by { assert TaskOk(s, s.tasks[k]); assert IdOk(s, id); }
      TaskStepIsLocal(s, a);
      if LinkStep(s, s', k, id) { assert s'.mails == s.mails; } else { assert s'.mails == s.mails && s.committed[id].mail != m; }
    } else {
      GlobalStep(s, a);
    }
  }

  /** The steps of a process leave links and mails where they are; a commit adds to them. */
  lemma GlobalStep(s: State, a: Action)
    requires Enabled(s, a) && !OfTask(a)
    ensures !a.Commit? ==> Apply(s, a) == s.(processes := Apply(s, a).processes, tasks := Apply(s, a).tasks, crashes := Apply(s, a).crashes, missed := Apply(s, a).missed)
    ensures a.Commit? ==> Apply(s, a) == ApplyCommit(s, a.p, a.mail, a.dests, a.dir, a.links, a.spawned)
  { }
}
