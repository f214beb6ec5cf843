/**
 The life of a task: which action has brought it where it is, over whole runs. A mail is
 given up only after the transport has failed on it, it goes to `cleanup` only from a
 delivery or from having been given up, and what a scan lists comes to be sent.
 */
module QueueStories {
  import opened QueueModel
  import opened QueueSafety
  import opened QueueSolo
  import opened QueueHistory

  // ------------------------------------------------------------------ one step

  /** A step of task `k`. */
  predicate About(a: Action, k: TaskId) { OfTask(a) && a.task == k }

  function Spawned(a: Action): map<TaskId, Task> {
    if a.ScanInflight? || a.ScanCleanup? || a.ScanQueue? || a.Commit? then a.spawned else map[]
  }

  predicate SameTask(s: State, s': State, k: TaskId) {
    k in s.tasks && k in s'.tasks && s'.tasks[k].id == s.tasks[k].id && s'.tasks[k].process == s.tasks[k].process
  }

  /** The actions that bring task `k` to stage `now`, and the stages from which they do. */
  predicate Brings(s: State, a: Action, k: TaskId, now: Stage) {
    match now
    case FoundQueued => a.ScanQueue? && k in a.spawned
    case FoundInflight => a.ScanInflight? && k in a.spawned
    case FoundCleanup => a.ScanCleanup? && k in a.spawned
    case Waiting =>
      || (a.Commit? && k in a.spawned)
      || (a == LookAtFound(k) && AtStage(s, k, FoundQueued))
      || (a == SendCancel(k) && AtStage(s, k, Recovering))
      || (a.Reschedule? && a.task == k && k in s.tasks && s.tasks[k].stage.Rescheduling? && s.tasks[k].stage.r.RenameTmp?)
    case Reading => a == SendStart(k) && AtStage(s, k, Waiting)
    case Sending => a == ReadInflight(k) && AtStage(s, k, Reading)
    case Delivered => a == Transport(k, true) && AtStage(s, k, Sending)
    case Failed => a == Transport(k, false) && AtStage(s, k, Sending)
    case Recovering => a == LookAtFound(k) && AtStage(s, k, FoundInflight)
    case Deciding => a == SendCancel(k) && AtStage(s, k, Failed)
    case Rescheduling(_) =>
      || (a == Decide(k, true) && AtStage(s, k, Deciding))
      || ((a.Reschedule? || a.RescheduleError?) && a.task == k && k in s.tasks && s.tasks[k].stage.Rescheduling?)
    case Dropping => a == Decide(k, false) && AtStage(s, k, Deciding)
    case Cleaning(_) =>
      || (a == SendDone(k) && AtStage(s, k, Delivered))
      || (a == Drop(k) && AtStage(s, k, Dropping))
      || (a == LookAtFound(k) && AtStage(s, k, FoundCleanup))
      || ((a.Cleanup? || a.CleanupError?) && a.task == k && k in s.tasks && s.tasks[k].stage.Cleaning?)
  }

  lemma ProcessMoves(s: State, a: Action, k: TaskId)
    requires Enabled(s, a) && !OfTask(a) && k in Apply(s, a).tasks
    ensures if k in s.tasks then Apply(s, a).tasks[k] == s.tasks[k] else k in Spawned(a) && Brings(s, a, k, Apply(s, a).tasks[k].stage)
  { }

  /** Why task `k` stops: its link is not where it should be, or could not be read; or the cleanup is done. */
  predicate Ends(s: State, a: Action, k: TaskId)
    requires k in s.tasks
  {
    var id, stage := s.tasks[k].id, s.tasks[k].stage;
    || a == ScanError(k)
    || (a == LookAtFound(k) && stage.FoundQueued? && !(id in s.fs.queue && Readable(s.fs, s.fs.queue[id])))
    || (a == LookAtFound(k) && stage.FoundInflight? && !(id in s.fs.inflight && Readable(s.fs, s.fs.inflight[id])))
    || ((a == SendStart(k) || a == Drop(k)) && id !in s.fs.queue)
    || ((a == SendDone(k) || a == SendCancel(k)) && id !in s.fs.inflight)
    || (a == Cleanup(k) && stage.Cleaning? && (stage.c.RemoveLink? || (stage.c.ReadLink? && id !in s.fs.cleanup)))
  }

  /** A step of task `k` changes its stage, or stops it, and changes no other task. */
  predicate Moves(s: State, a: Action, s': State, k: TaskId) {
    && k in s.tasks && (k in s'.tasks <==> !Ends(s, a, k))
    && if k in s'.tasks then
         s'.tasks == s.tasks[k := s.tasks[k].(stage := s'.tasks[k].stage)] && Brings(s, a, k, s'.tasks[k].stage)
       else s'.tasks == s.tasks - {k}
  }

  lemma GotoMoves(s: State, a: Action, k: TaskId, stage: Stage, s': State)
    requires k in s.tasks && s'.tasks == Goto(s, k, stage).tasks && Brings(s, a, k, stage) && !Ends(s, a, k)
    ensures Moves(s, a, s', k)
  { }

  lemma StopMoves(s: State, a: Action, k: TaskId, s': State)
    requires k in s.tasks && s'.tasks == Stop(s, k).tasks && Ends(s, a, k)
    ensures Moves(s, a, s', k)
  { }

  lemma LookMoves(s: State, k: TaskId)
    requires Listed(s, k)
    ensures Moves(s, LookAtFound(k), ApplyLook(s, k), k)
  {
    var s', a := ApplyLook(s, k), LookAtFound(k);
    if k in s'.tasks { GotoMoves(s, a, k, s'.tasks[k].stage, s'); } else { StopMoves(s, a, k, s'); }
  }

  lemma SendStartMoves(s: State, k: TaskId)
    requires AtStage(s, k, Waiting)
    ensures Moves(s, SendStart(k), ApplySendStart(s, k), k)
  {
    var s', a := ApplySendStart(s, k), SendStart(k);
    if k in s'.tasks { GotoMoves(s, a, k, Reading, s'); } else { StopMoves(s, a, k, s'); }
  }

  lemma SendDoneMoves(s: State, k: TaskId)
    requires AtStage(s, k, Delivered)
    ensures Moves(s, SendDone(k), ApplySendDone(s, k), k)
  {
    var s', a := ApplySendDone(s, k), SendDone(k);
    if k in s'.tasks { GotoMoves(s, a, k, Cleaning(ReadLink), s'); } else { StopMoves(s, a, k, s'); }
  }

  lemma SendCancelMoves(s: State, k: TaskId)
    requires AtStage(s, k, Failed) || AtStage(s, k, Recovering)
    ensures Moves(s, SendCancel(k), ApplySendCancel(s, k), k)
  {
    var s', a := ApplySendCancel(s, k), SendCancel(k);
    if k in s'.tasks { GotoMoves(s, a, k, s'.tasks[k].stage, s'); } else { StopMoves(s, a, k, s'); }
  }

  lemma DropMoves(s: State, k: TaskId)
    requires AtStage(s, k, Dropping)
    ensures Moves(s, Drop(k), ApplyDrop(s, k), k)
  {
    var s', a := ApplyDrop(s, k), Drop(k);
    if k in s'.tasks { GotoMoves(s, a, k, Cleaning(ReadLink), s'); } else { StopMoves(s, a, k, s'); }
  }

  lemma RescheduleMoves(s: State, k: TaskId, tmp: nat)
    requires k in s.tasks && s.tasks[k].stage.Rescheduling?
    ensures Moves(s, Reschedule(k, tmp), ApplyReschedule(s, k, tmp), k)
  {
    var s' := ApplyReschedule(s, k, tmp);
    GotoMoves(s, Reschedule(k, tmp), k, s'.tasks[k].stage, s');
  }

  lemma CleanupMoves(s: State, k: TaskId)
    requires k in s.tasks && s.tasks[k].stage.Cleaning?
    ensures Moves(s, Cleanup(k), ApplyCleanup(s, k), k)
  {
    var s', a := ApplyCleanup(s, k), Cleanup(k);
    if k in s'.tasks { GotoMoves(s, a, k, s'.tasks[k].stage, s'); } else { StopMoves(s, a, k, s'); }
  }

  lemma TaskMoves(s: State, a: Action)
    requires Enabled(s, a) && OfTask(a)
    ensures Moves(s, a, Apply(s, a), a.task)
  {
    match a {
      case LookAtFound(k) => LookMoves(s, k);
      case ScanError(k) => StopMoves(s, a, k, Apply(s, a));
      case SendStart(k) => SendStartMoves(s, k);
      case ReadInflight(k) => GotoMoves(s, a, k, Sending, Apply(s, a));
      case Transport(k, success) => GotoMoves(s, a, k, if success then Delivered else Failed, Apply(s, a));
      case SendDone(k) => SendDoneMoves(s, k);
      case SendCancel(k) => SendCancelMoves(s, k);
      case Decide(k, retry) => GotoMoves(s, a, k, if retry then Rescheduling(OpenQueued) else Dropping, Apply(s, a));
      case Reschedule(k, tmp) => RescheduleMoves(s, k, tmp);
      case RescheduleError(k) => GotoMoves(s, a, k, Rescheduling(OpenQueued), Apply(s, a));
      case Drop(k) => DropMoves(s, k);
      case Cleanup(k) => CleanupMoves(s, k);
      case CleanupError(k) => GotoMoves(s, a, k, Cleaning(ReadLink), Apply(s, a));
    }
  }

  // ------------------------------------------------------------------ over a run

  /** From step `i` to the next task `k` stays as it is. */
  predicate Stood(s: State, s': State, k: TaskId) { k in s.tasks && k in s'.tasks && s'.tasks[k] == s.tasks[k] }

  lemma StoodOrMoved(run: seq<State>, acts: seq<Action>, i: nat, k: TaskId)
    requires Acted(run, acts) && i < |acts| && k in run[i + 1].tasks
    ensures Stood(run[i], run[i + 1], k) ||
            (Brings(run[i], acts[i], k, run[i + 1].tasks[k].stage) && (k in run[i].tasks ==> SameTask(run[i], run[i + 1], k)))
  {
    assert ActedAt(run, acts, i);
    if OfTask(acts[i]) { TaskMoves(run[i], acts[i]); } else { ProcessMoves(run[i], acts[i], k); }
  }

  /** Action `j` has brought task `k` where it is at `i`, and it has stayed there since. */
  predicate CameAt(run: seq<State>, acts: seq<Action>, j: nat, i: nat, k: TaskId) {
    && j < i < |run| && i <= |acts| && k in run[i].tasks
    && Brings(run[j], acts[j], k, run[i].tasks[k].stage) && (k in run[j].tasks ==> SameTask(run[j], run[i], k))
    && forall m :: j < m <= i ==> Stood(run[m], run[i], k)
  }

  /** Every task has come by some action. */
  lemma {:induction false} CameBy(run: seq<State>, acts: seq<Action>, i: nat, k: TaskId) returns (j: nat)
    requires Acted(run, acts) && i < |run| && k in run[i].tasks
    ensures CameAt(run, acts, j, i, k)
  {
    var n := i - 1;
    StoodOrMoved(run, acts, n, k);
    if Stood(run[n], run[i], k) {
      j := CameBy(run, acts, n, k);
      forall m | j < m <= i ensures Stood(run[m], run[i], k) {
        if m < i { assert Stood(run[m], run[n], k); }
      }
    } else {
      j := n;
    }
  }

  /** Task `k` is the same from `h` to `i`. */
  predicate Lasts(run: seq<State>, h: nat, i: nat, k: TaskId) {
    h <= i < |run| && forall m :: h <= m <= i ==> SameTask(run[m], run[i], k)
  }

  /** Task `k` was taken up, read and handed to the transport, in this order. */
  lemma SendStory(run: seq<State>, acts: seq<Action>, i: nat, k: TaskId) returns (g: nat, r: nat)
    requires Acted(run, acts) && i < |acts| && acts[i].Transport? && acts[i].task == k
    ensures g < r < i && acts[g] == SendStart(k) && acts[r] == ReadInflight(k) && Lasts(run, g, i, k)
  {
    assert ActedAt(run, acts, i);
    r := CameBy(run, acts, i, k);
    g := CameBy(run, acts, r, k);
  }

  /** The retry policy is asked about a mail after the transport has failed on it and it was put back, by the same task. */
  lemma FailureStory(run: seq<State>, acts: seq<Action>, i: nat, k: TaskId) returns (t: nat, c: nat)
    requires Acted(run, acts) && i < |run| && AtStage(run[i], k, Deciding)
    ensures t < c < i && acts[t] == Transport(k, false) && acts[c] == SendCancel(k) && Lasts(run, t, i, k)
    ensures forall m :: t < m <= i ==> AtStage(run[m], k, Failed) || AtStage(run[m], k, Deciding)
  {
    c := CameBy(run, acts, i, k);
    t := CameBy(run, acts, c, k);
    forall m | t < m <= i ensures AtStage(run[m], k, Failed) || AtStage(run[m], k, Deciding) {
      assert if m <= c then Stood(run[m], run[c], k) else Stood(run[m], run[i], k);
    }
  }

  /** A mail is dropped after the policy has said so, and that after the transport has failed, all by the same task. */
  lemma DroppingStory(run: seq<State>, acts: seq<Action>, i: nat, k: TaskId) returns (t: nat, c: nat, d: nat)
    requires Acted(run, acts) && i < |run| && AtStage(run[i], k, Dropping)
    ensures t < c < d < i && acts[t] == Transport(k, false) && acts[c] == SendCancel(k) && acts[d] == Decide(k, false)
    ensures Lasts(run, t, d, k) && forall m :: d < m <= i ==> Stood(run[m], run[i], k)
    ensures SameTask(run[d], run[i], k)
  {
    d := CameBy(run, acts, i, k);
    t, c := FailureStory(run, acts, d, k);
  }

  // ------------------------------------------------------------------ links

  predicate SameAt(a: map<QueueId, Target>, b: map<QueueId, Target>, id: QueueId) {
    id in a && id in b && a[id] == b[id]
  }

  /** The ways of a link: it is put into `queue` by a commit, moves between the folders, and goes from `cleanup`. */
  predicate LinkWay(s: State, a: Action, s': State, id: QueueId) {
    && (id in s'.fs.queue ==>
          || SameAt(s.fs.queue, s'.fs.queue, id)
          || (a.Commit? && SameAt(a.links, s'.fs.queue, id))
          || (On(s, a, id) && a.SendCancel? && SameAt(s.fs.inflight, s'.fs.queue, id)))
    && (id in s'.fs.inflight ==>
          || SameAt(s.fs.inflight, s'.fs.inflight, id)
          || (On(s, a, id) && a.SendStart? && SameAt(s.fs.queue, s'.fs.inflight, id)))
    && (id in s'.fs.cleanup ==>
          || SameAt(s.fs.cleanup, s'.fs.cleanup, id)
          || (On(s, a, id) && a.SendDone? && SameAt(s.fs.inflight, s'.fs.cleanup, id))
          || (On(s, a, id) && a.Drop? && SameAt(s.fs.queue, s'.fs.cleanup, id)))
    && (Linked(s, id) && !Linked(s', id) ==> On(s, a, id) && a.Cleanup? && s.tasks[a.task].stage.Cleaning? && s.tasks[a.task].stage.c.RemoveLink?)
  }

  predicate MovesLinks(a: Action) { a.Commit? || a.SendStart? || a.SendDone? || a.SendCancel? || a.Drop? || a.Cleanup? }

  predicate SameFolders(fs: Fs, fs': Fs) {
    fs'.queue == fs.queue && fs'.inflight == fs.inflight && fs'.cleanup == fs.cleanup
  }

  lemma ProcessLinks(s: State, a: Action)
    requires Enabled(s, a) && !OfTask(a) && !a.Commit?
    ensures SameFolders(s.fs, Apply(s, a).fs)
  { }

  lemma RescheduleOpLinks(fs: Fs, id: QueueId, r: RescheduleStep, tmp: nat)
    ensures SameFolders(fs, RescheduleOp(fs, id, r, tmp).1)
  { }

  lemma LookLinks(s: State, k: TaskId)
    requires Listed(s, k)
    ensures ApplyLook(s, k).fs == s.fs
  { }

  lemma TaskLinks(s: State, a: Action)
    requires Enabled(s, a) && OfTask(a) && !MovesLinks(a)
    ensures SameFolders(s.fs, Apply(s, a).fs)
  {
    if a.LookAtFound? {
      LookLinks(s, a.task);
    } else if a.Reschedule? {
      RescheduleOpLinks(s.fs, s.tasks[a.task].id, s.tasks[a.task].stage.r, a.tmp);
    }
  }

  lemma CommitLinks(s: State, a: Action, id: QueueId)
    requires Enabled(s, a) && a.Commit?
    ensures LinkWay(s, a, Apply(s, a), id)
  { }

  lemma SendLinks(s: State, a: Action, id: QueueId)
    requires Enabled(s, a) && (a.SendStart? || a.SendDone?)
    ensures LinkWay(s, a, Apply(s, a), id)
  { }

  lemma BackLinks(s: State, a: Action, id: QueueId)
    requires Enabled(s, a) && (a.SendCancel? || a.Drop?)
    ensures LinkWay(s, a, Apply(s, a), id)
  { }

  lemma CleanupOpLinks(fs: Fs, id: QueueId, c: CleanupStep)
    ensures var r := CleanupOp(fs, id, c);
            && r.fs.queue == fs.queue && r.fs.inflight == fs.inflight
            && r.fs.cleanup == if c.RemoveLink? then fs.cleanup - {id} else fs.cleanup
  { }

  lemma CleanupLinks(s: State, a: Action, id: QueueId)
    requires Enabled(s, a) && a.Cleanup?
    ensures LinkWay(s, a, Apply(s, a), id)
  {
    CleanupOpLinks(s.fs, s.tasks[a.task].id, s.tasks[a.task].stage.c);
  }

  lemma LinkGoes(s: State, a: Action, id: QueueId)
    requires Enabled(s, a)
    ensures LinkWay(s, a, Apply(s, a), id)
  {
    if a.Commit? {
      CommitLinks(s, a, id);
    } else if !OfTask(a) {
      ProcessLinks(s, a);
    } else if a.SendStart? || a.SendDone? {
      SendLinks(s, a, id);
    } else if a.SendCancel? || a.Drop? {
      BackLinks(s, a, id);
    } else if a.Cleanup? {
      CleanupLinks(s, a, id);
    } else {
      TaskLinks(s, a);
    }
  }

  /** A link in `cleanup` was put there by a task that had delivered the mail, or for which the policy had given it up. */
  lemma {:induction false} CleanupStory(run: seq<State>, acts: seq<Action>, i: nat, id: QueueId) returns (j: nat, d: nat)
    requires Acted(run, acts) && i < |run| && id in run[i].fs.cleanup
    ensures d < j < i && On(run[j], acts[j], id) && On(run[d], acts[d], id) && acts[d].task == acts[j].task
    ensures (acts[j].SendDone? && Delivers(run[d], acts[d], id)) || (acts[j].Drop? && GivesUp(run[d], acts[d], id))
    ensures Lasts(run, d, j, acts[j].task)
  {
    var n := i - 1;
    assert ActedAt(run, acts, n);
    LinkGoes(run[n], acts[n], id);
    if id in run[n].fs.cleanup {
      j, d := CleanupStory(run, acts, n, id);
    } else {
      j := n;
      d := CameBy(run, acts, n, acts[n].task);
    }
  }

  // ------------------------------------------------------------------ what becomes of a mail

  /** The policy gives a mail up only after the transport has failed on it, in the hands of the same task. */
  lemma GivenUpStory(run: seq<State>, acts: seq<Action>, i: nat, id: QueueId) returns (d: nat, t: nat)
    requires Acted(run, acts) && i < |run| && id in run[i].dropped
    ensures t < d < i && GivesUp(run[d], acts[d], id) && acts[t] == Transport(acts[d].task, false)
    ensures Lasts(run, t, d, acts[d].task)
    ensures forall m :: t < m <= d ==> AtStage(run[m], acts[d].task, Failed) || AtStage(run[m], acts[d].task, Deciding)
  {
    HistoryIsActions(run, acts, i, id);
    d :| 0 <= d < i && d < |acts| && GivesUp(run[d], acts[d], id);
    assert ActedAt(run, acts, d);
    var c;
    t, c := FailureStory(run, acts, d, acts[d].task);
  }

  /** The link `id` is in `inflight`, as it was committed, and all that it needs is there. */
  predicate InHand(s: State, id: QueueId, t: Target) {
    id in s.fs.inflight && s.fs.inflight[id] == t && Complete(s.fs, t)
  }

  lemma ReadHasTheMail(run: seq<State>, acts: seq<Action>, r: nat, k: TaskId) returns (t: Target)
    requires Acted(run, acts) && r < |acts| && acts[r] == ReadInflight(k)
    ensures k in run[r].tasks && CommittedBefore(acts, r, run[r].tasks[k].id, t) && InHand(run[r], run[r].tasks[k].id, t)
  {
    assert ActedAt(run, acts, r);
    var id := run[r].tasks[k].id;
    ActedIsExecution(run, acts);
    InvAlways(run, r);
    assert TaskOk(run[r], run[r].tasks[k]) && IdOk(run[r], id);
    t := run[r].committed[id];
    CommittedIff(run, acts, r, id, t);
  }

  /** Whatever is handed to the transport has been read before, in full, from where the link of its commit points to. */
  lemma TransportHasTheMail(run: seq<State>, acts: seq<Action>, i: nat, k: TaskId) returns (r: nat, t: Target)
    requires Acted(run, acts) && i < |acts| && acts[i].Transport? && acts[i].task == k
    ensures r < i && acts[r] == ReadInflight(k) && Lasts(run, r, i, k)
    ensures CommittedBefore(acts, r, run[i].tasks[k].id, t) && InHand(run[r], run[i].tasks[k].id, t)
  {
    var g;
    g, r := SendStory(run, acts, i, k);
    assert SameTask(run[r], run[i], k);
    t := ReadHasTheMail(run, acts, r, k);
  }

  /** A link that a scan has listed in `queue`, and that is still there, comes to be sent. */
  lemma ListedWaits(run: seq<State>, acts: seq<Action>, i: nat, k: TaskId)
    requires Acted(run, acts) && i < |acts| && acts[i] == LookAtFound(k) && AtStage(run[i], k, FoundQueued)
    requires run[i].tasks[k].id in run[i].fs.queue
    ensures AtStage(run[i + 1], k, Waiting) && SameTask(run[i], run[i + 1], k) && run[i + 1].fs == run[i].fs
  {
    CanBeRead(run, acts, i, run[i].tasks[k].id);
    assert ActedAt(run, acts, i);
    TaskMoves(run[i], acts[i]);
    LookLinks(run[i], k);
  }

  lemma CanBeRead(run: seq<State>, acts: seq<Action>, i: nat, id: QueueId)
    requires Acted(run, acts) && i < |run|
    ensures id in run[i].fs.queue ==> Readable(run[i].fs, run[i].fs.queue[id])
    ensures id in run[i].fs.inflight ==> Readable(run[i].fs, run[i].fs.inflight[id])
  {
    ActedIsExecution(run, acts);
    InvAlways(run, i);
    assert id in run[i].committed ==> IdOk(run[i], id);
  }

  /** A link that a scan has listed in `inflight`, and that is still there, comes to be recovered. */
  lemma ListedRecovers(run: seq<State>, acts: seq<Action>, i: nat, k: TaskId)
    requires Acted(run, acts) && i < |acts| && acts[i] == LookAtFound(k) && AtStage(run[i], k, FoundInflight)
    requires run[i].tasks[k].id in run[i].fs.inflight
    ensures AtStage(run[i + 1], k, Recovering) && SameTask(run[i], run[i + 1], k) && run[i + 1].fs == run[i].fs
  {
    CanBeRead(run, acts, i, run[i].tasks[k].id);
    assert ActedAt(run, acts, i);
    TaskMoves(run[i], acts[i]);
    LookLinks(run[i], k);
  }

  /** What is recovered comes to be sent, with its link back in `queue`. */
  lemma RecoveredWaits(run: seq<State>, acts: seq<Action>, i: nat, k: TaskId)
    requires Acted(run, acts) && i < |acts| && acts[i] == SendCancel(k) && AtStage(run[i], k, Recovering)
    requires run[i].tasks[k].id in run[i].fs.inflight
    ensures AtStage(run[i + 1], k, Waiting) && SameTask(run[i], run[i + 1], k)
    ensures SameAt(run[i].fs.inflight, run[i + 1].fs.queue, run[i].tasks[k].id)
  {
    assert ActedAt(run, acts, i);
    TaskMoves(run[i], acts[i]);
  }

  /** A task moves only by its own steps, and ends besides only with its process. */
  lemma {:induction false} TaskStays(run: seq<State>, acts: seq<Action>, h: nat, i: nat, k: TaskId)
    requires Acted(run, acts) && h <= i < |run| && k in run[h].tasks
    requires forall m :: h <= m < i ==> !About(acts[m], k) && acts[m] != Crash(run[h].tasks[k].process)
    ensures Stood(run[h], run[i], k)
    decreases i
  {
    if h < i {
      TaskStays(run, acts, h, i - 1, k);
      assert ActedAt(run, acts, i - 1);
      OtherStep(run[i - 1], acts[i - 1], k);
    }
  }

  lemma OtherStep(s: State, a: Action, k: TaskId)
    requires Enabled(s, a) && k in s.tasks && !About(a, k) && a != Crash(s.tasks[k].process)
    ensures Stood(s, Apply(s, a), k)
  {
    if OfTask(a) { TaskMoves(s, a); }
  }

  /**
   After a restart without another process, a link found in `inflight` goes back to
   `queue` and comes to be sent: unless the process crashes before, its task takes no
   other steps than these two.
   */
  lemma FoundInflightWaits(run: seq<State>, acts: seq<Action>, i: nat, l: nat, k: TaskId)
    requires SoloActed(run, acts) && i < l < |acts| && acts[i] == LookAtFound(k) && AtStage(run[i], k, FoundInflight)
    requires forall m :: i < m < l ==> !About(acts[m], k) && acts[m] != Crash(run[i].tasks[k].process)
    requires About(acts[l], k)
    ensures acts[l] == SendCancel(k) && AtStage(run[l + 1], k, Waiting) && SameTask(run[i], run[l + 1], k)
    ensures run[i].tasks[k].id in run[l + 1].fs.queue
  {
    HoldsItsLink(run, acts, i, k);
    ListedRecovers(run, acts, i, k);
    TaskStays(run, acts, i + 1, l, k);
    HoldsItsLink(run, acts, l, k);
    OnlyCancel(run, acts, l, k);
    RecoveredWaits(run, acts, l, k);
  }

  lemma HoldsItsLink(run: seq<State>, acts: seq<Action>, i: nat, k: TaskId)
    requires SoloActed(run, acts) && i < |run| && k in run[i].tasks && HoldsInflight(run[i].tasks[k].stage)
    ensures run[i].tasks[k].id in run[i].fs.inflight
  {
    SoloActedIsExecution(run, acts);
    SoloInvAlways(run, i);
    assert Holder(run[i], k, run[i].tasks[k].id);
  }

  lemma OnlyCancel(run: seq<State>, acts: seq<Action>, i: nat, k: TaskId)
    requires Acted(run, acts) && i < |acts| && About(acts[i], k) && AtStage(run[i], k, Recovering)
    ensures acts[i] == SendCancel(k)
  {
    assert ActedAt(run, acts, i);
  }
}
