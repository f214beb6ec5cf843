/**
 The mail queue on disk and the tasks that work on it, as a state machine. Every
 step is one file-system operation, one outcome of the transport or of the retry
 policy, or the start or crash of a process; any number of processes may share the
 queue directory, and a crash may come after any step.
 */
module QueueModel {

  type QueueId = nat
  type MailId = nat
  type DestId = nat
  type TaskId = nat
  type ProcessId = nat

  // ------------------------------------------------------------------ the queue directory

  /** What a link points to: `data/<mail>/<dest>`. */
  datatype Target = Target(mail: MailId, dest: DestId)

  datatype DestDir = DestDir(metadata: bool, schedule: bool, tmps: set<nat>) {
    predicate Empty() { !metadata && !schedule && tmps == {} }
  }

  datatype MailDir = MailDir(contents: bool, dests: map<DestId, DestDir>)

  datatype Fs = Fs(
    queue: map<QueueId, Target>,
    inflight: map<QueueId, Target>,
    cleanup: map<QueueId, Target>,
    data: map<MailId, MailDir>)
  {
    predicate HasDest(t: Target) {
      t.mail in data && t.dest in data[t.mail].dests
    }

    function SetDest(t: Target, d: DestDir): Fs
      requires t.mail in data
    {
      this.(data := data[t.mail := data[t.mail].(dests := data[t.mail].dests[t.dest := d])])
    }

    function RemoveDest(t: Target): Fs
      requires t.mail in data
    {
      this.(data := data[t.mail := data[t.mail].(dests := data[t.mail].dests - {t.dest})])
    }
  }

  // ------------------------------------------------------------------ tasks

  /** How far a cleanup has gone; the target is known once the link is read. */
  datatype CleanupStep =
    | ReadLink
    | OpenDest(t: Target)
    | RemoveMetadata(t: Target)
    | RemoveSchedule(t: Target)
    | OpenMail(t: Target)
    | RemoveDestDir(t: Target)
    | ListMail(t: Target)
    | RemoveContents(t: Target)
    | RemoveMailDir(t: Target)
    | RemoveLink(t: Target)

  datatype RescheduleStep = OpenQueued | CreateTmp(t: Target) | RenameTmp(t: Target, tmp: nat)

  datatype Stage =
    | FoundQueued | FoundInflight | FoundCleanup  // listed by a scan, not looked at yet
    | Waiting                                     // before `send_start`
    | Reading | Sending | Delivered | Failed      // between `send_start` and `send_done` or `send_cancel`
    | Recovering                                  // found in flight after a crash, before `send_cancel`
    | Deciding                                    // before the retry policy is asked
    | Rescheduling(r: RescheduleStep)
    | Dropping                                    // the retry policy gave up
    | Cleaning(c: CleanupStep)

  datatype Task = Task(process: ProcessId, id: QueueId, stage: Stage)

  datatype Process = Booting(scannedInflight: bool, scannedCleanup: bool) | Running(scannedQueue: bool)

  /**
   The state: the directory, the processes, the tasks; then the history, which no
   step looks at: what was committed, the deliveries counted, the mails the policy
   gave up on, the links that a process could not read when it listed them, and the
   number of crashes.
   */
  datatype State = State(
    fs: Fs,
    processes: map<ProcessId, Process>,
    tasks: map<TaskId, Task>,
    committed: map<QueueId, Target>,
    mails: map<MailId, map<DestId, QueueId>>,
    deliveries: map<QueueId, nat>,
    dropped: set<QueueId>,
    missed: set<(ProcessId, QueueId)>,
    crashes: nat)

  const INITIAL: State :=
    State(Fs(map[], map[], map[], map[]), map[], map[], map[], map[], map[], {}, {}, 0)

  // ------------------------------------------------------------------ steps

  datatype Action =
    | Start(p: ProcessId)
    | Crash(p: ProcessId)
    | ScanInflight(p: ProcessId, spawned: map<TaskId, Task>)
    | ScanCleanup(p: ProcessId, spawned: map<TaskId, Task>)
    | EndBoot(p: ProcessId)
    | ScanQueue(p: ProcessId, spawned: map<TaskId, Task>)
    | Commit(p: ProcessId, mail: MailId, dests: map<DestId, QueueId>, dir: MailDir, links: map<QueueId, Target>, spawned: map<TaskId, Task>)
    | LookAtFound(task: TaskId)
    | ScanError(task: TaskId)
    | SendStart(task: TaskId)
    | ReadInflight(task: TaskId)
    | Transport(task: TaskId, success: bool)
    | SendDone(task: TaskId)
    | SendCancel(task: TaskId)
    | Decide(task: TaskId, retry: bool)
    | Reschedule(task: TaskId, tmp: nat)
    | RescheduleError(task: TaskId)
    | Drop(task: TaskId)
    | Cleanup(task: TaskId)
    | CleanupError(task: TaskId)

  /** New tasks of process `p`. */
  predicate AllNew(p: ProcessId, spawned: map<TaskId, Task>, stage: Stage) {
    forall k :: k in spawned ==> spawned[k].process == p && spawned[k].stage == stage
  }

  /** The tasks that a listing of `folder` spawns: one for each link, under fresh names. */
  predicate Snapshot(s: State, p: ProcessId, spawned: map<TaskId, Task>, stage: Stage, folder: map<QueueId, Target>) {
    && spawned.Keys !! s.tasks.Keys && AllNew(p, spawned, stage)
    && (forall k :: k in spawned ==> spawned[k].id in folder)
    && (forall id :: id in folder ==> exists k :: k in spawned && spawned[k].id == id)
    && (forall k, l :: k in spawned && l in spawned && spawned[k].id == spawned[l].id ==> k == l)
  }

  /** One link for each of the destinations `dests` of `mail`. */
  predicate LinksTo(links: map<QueueId, Target>, mail: MailId, dests: map<DestId, QueueId>) {
    && (forall d :: d in dests ==> dests[d] in links && links[dests[d]] == Target(mail, d))
    && (forall id :: id in links ==> links[id].mail == mail && links[id].dest in dests && dests[links[id].dest] == id)
  }

  /** The directory of a mail just written. */
  predicate NewMail(dir: MailDir, dests: map<DestId, QueueId>) {
    dir.contents && dir.dests.Keys == dests.Keys && forall d :: d in dir.dests ==> dir.dests[d] == DestDir(true, true, {})
  }

  predicate AtStage(s: State, k: TaskId, stage: Stage) {
    k in s.tasks && s.tasks[k].stage == stage
  }

  /** Task `k` was listed by a scan, and not looked at yet. */
  predicate Listed(s: State, k: TaskId) {
    AtStage(s, k, FoundQueued) || AtStage(s, k, FoundInflight) || AtStage(s, k, FoundCleanup)
  }

  predicate Enabled(s: State, a: Action) {
    match a
    case Start(p) => p !in s.processes
    case Crash(p) => p in s.processes
    case ScanInflight(p, spawned) =>
      p in s.processes && s.processes[p].Booting? && !s.processes[p].scannedInflight && Snapshot(s, p, spawned, FoundInflight, s.fs.inflight)
    case ScanCleanup(p, spawned) =>
      p in s.processes && s.processes[p].Booting? && !s.processes[p].scannedCleanup && Snapshot(s, p, spawned, FoundCleanup, s.fs.cleanup)
    case EndBoot(p) =>
      && p in s.processes && s.processes[p] == Booting(true, true)
      && forall k :: k in s.tasks && s.tasks[k].process == p ==> !s.tasks[k].stage.FoundInflight? && !s.tasks[k].stage.FoundCleanup?
    case ScanQueue(p, spawned) =>
      p in s.processes && s.processes[p] == Running(false) && Snapshot(s, p, spawned, FoundQueued, s.fs.queue)
    case Commit(p, mail, dests, dir, links, spawned) =>
      && p in s.processes && s.processes[p].Running?
      && mail !in s.mails && links.Keys !! s.committed.Keys
      && LinksTo(links, mail, dests) && NewMail(dir, dests) && Snapshot(s, p, spawned, Waiting, links)
    case LookAtFound(k) => Listed(s, k)
    case ScanError(k) => Listed(s, k)
    case SendStart(k) => AtStage(s, k, Waiting)
    case ReadInflight(k) => AtStage(s, k, Reading) && s.tasks[k].id in s.fs.inflight && Complete(s.fs, s.fs.inflight[s.tasks[k].id])
    case Transport(k, _) => AtStage(s, k, Sending)
    case SendDone(k) => AtStage(s, k, Delivered)
    case SendCancel(k) => AtStage(s, k, Failed) || AtStage(s, k, Recovering)
    case Decide(k, _) => AtStage(s, k, Deciding)
    case Reschedule(k, _) => k in s.tasks && s.tasks[k].stage.Rescheduling?
    case RescheduleError(k) => k in s.tasks && s.tasks[k].stage.Rescheduling?
    case Drop(k) => AtStage(s, k, Dropping)
    case Cleanup(k) => k in s.tasks && s.tasks[k].stage.Cleaning?
    case CleanupError(k) => k in s.tasks && s.tasks[k].stage.Cleaning?
  }

  /** All that a destination needs to be sent: its metadata, its schedule, and the contents of the mail. */
  predicate Complete(fs: Fs, t: Target) {
    fs.HasDest(t) && fs.data[t.mail].contents && fs.data[t.mail].dests[t.dest].metadata && fs.data[t.mail].dests[t.dest].schedule
  }

  /** The schedule of a destination can be read. */
  predicate Readable(fs: Fs, t: Target) {
    fs.HasDest(t) && fs.data[t.mail].dests[t.dest].schedule
  }

  function TasksOf(s: State, p: ProcessId): set<TaskId> {
    set k | k in s.tasks && s.tasks[k].process == p
  }

  function Goto(s: State, k: TaskId, stage: Stage): State
    requires k in s.tasks
  {
    s.(tasks := s.tasks[k := s.tasks[k].(stage := stage)])
  }

  function Stop(s: State, k: TaskId): State {
    s.(tasks := s.tasks - {k})
  }

  function Apply(s: State, a: Action): State
    requires Enabled(s, a)
  {
    match a
    case Start(p) =>
      s.(processes := s.processes[p := Booting(false, false)], missed := set x | x in s.missed && x.0 != p)
    case Crash(p) =>
      s.(processes := s.processes - {p}, tasks := s.tasks - TasksOf(s, p), crashes := s.crashes + 1)
    case ScanInflight(p, spawned) =>
      s.(processes := s.processes[p := s.processes[p].(scannedInflight := true)], tasks := s.tasks + spawned)
    case ScanCleanup(p, spawned) =>
      s.(processes := s.processes[p := s.processes[p].(scannedCleanup := true)], tasks := s.tasks + spawned)
    case EndBoot(p) => s.(processes := s.processes[p := Running(false)])
    case ScanQueue(p, spawned) =>
      s.(processes := s.processes[p := Running(true)], tasks := s.tasks + spawned)
    case Commit(p, mail, dests, dir, links, spawned) => ApplyCommit(s, p, mail, dests, dir, links, spawned)
    case LookAtFound(k) => ApplyLook(s, k)
    case ScanError(k) => ApplyScanError(s, k)
    case SendStart(k) => ApplySendStart(s, k)
    case ReadInflight(k) => Goto(s, k, Sending)
    case Transport(k, success) => ApplyTransport(s, k, success)
    case SendDone(k) => ApplySendDone(s, k)
    case SendCancel(k) => ApplySendCancel(s, k)
    case Decide(k, retry) => ApplyDecide(s, k, retry)
    case Reschedule(k, tmp) => ApplyReschedule(s, k, tmp)
    case RescheduleError(k) => Goto(s, k, Rescheduling(OpenQueued))
    case Drop(k) => ApplyDrop(s, k)
    case Cleanup(k) => ApplyCleanup(s, k)
    case CleanupError(k) => Goto(s, k, Cleaning(ReadLink))
  }

  /** A mail and its destinations written, then linked into the queue; each link gets its task. */
  function ApplyCommit(s: State, p: ProcessId, mail: MailId, dests: map<DestId, QueueId>, dir: MailDir, links: map<QueueId, Target>,
                       spawned: map<TaskId, Task>): State
  {
    s.(fs := s.fs.(queue := s.fs.queue + links, data := s.fs.data[mail := dir]),
       tasks := s.tasks + spawned,
       committed := s.committed + links,
       mails := s.mails[mail := dests])
  }

  /** Reads the schedule behind a listed link; a link that has moved meanwhile is left alone. */
  function ApplyLook(s: State, k: TaskId): State
    requires k in s.tasks
  {
    var id := s.tasks[k].id;
    match s.tasks[k].stage
    case FoundQueued => if id in s.fs.queue && Readable(s.fs, s.fs.queue[id]) then Goto(s, k, Waiting) else Stop(s, k)
    case FoundInflight => if id in s.fs.inflight && Readable(s.fs, s.fs.inflight[id]) then Goto(s, k, Recovering) else Stop(s, k)
    case _ => Goto(s, k, Cleaning(ReadLink))
  }

  /** The schedule cannot be read, or the link cannot: it is left alone until the next start. */
  function ApplyScanError(s: State, k: TaskId): State
    requires k in s.tasks
  {
    Stop(s, k).(missed := s.missed + {(s.tasks[k].process, s.tasks[k].id)})
  }

  function ApplySendStart(s: State, k: TaskId): State
    requires k in s.tasks
  {
    var id := s.tasks[k].id;
    if id in s.fs.queue then
      Goto(s, k, Reading).(fs := s.fs.(queue := s.fs.queue - {id}, inflight := s.fs.inflight[id := s.fs.queue[id]]))
    else Stop(s, k)
  }

  function ApplyTransport(s: State, k: TaskId, success: bool): State
    requires k in s.tasks
  {
    var id := s.tasks[k].id;
    if success then Goto(s, k, Delivered).(deliveries := s.deliveries[id := Count(s, id) + 1])
    else Goto(s, k, Failed)
  }

  function Count(s: State, id: QueueId): nat {
    if id in s.deliveries then s.deliveries[id] else 0
  }

  function ApplySendDone(s: State, k: TaskId): State
    requires k in s.tasks
  {
    var id := s.tasks[k].id;
    if id in s.fs.inflight then
      Goto(s, k, Cleaning(ReadLink)).(fs := s.fs.(inflight := s.fs.inflight - {id}, cleanup := s.fs.cleanup[id := s.fs.inflight[id]]))
    else Stop(s, k)
  }

  function ApplySendCancel(s: State, k: TaskId): State
    requires k in s.tasks
  {
    var id := s.tasks[k].id;
    if id in s.fs.inflight then
      Goto(s, k, if s.tasks[k].stage == Failed then Deciding else Waiting)
        .(fs := s.fs.(inflight := s.fs.inflight - {id}, queue := s.fs.queue[id := s.fs.inflight[id]]))
    else Stop(s, k)
  }

  function ApplyDrop(s: State, k: TaskId): State
    requires k in s.tasks
  {
    var id := s.tasks[k].id;
    if id in s.fs.queue then
      Goto(s, k, Cleaning(ReadLink)).(fs := s.fs.(queue := s.fs.queue - {id}, cleanup := s.fs.cleanup[id := s.fs.queue[id]]))
    else Stop(s, k)
  }

  function ApplyDecide(s: State, k: TaskId, retry: bool): State
    requires k in s.tasks
  {
    if retry then Goto(s, k, Rescheduling(OpenQueued))
    else Goto(s, k, Dropping).(dropped := s.dropped + {s.tasks[k].id})
  }

  /**
   One operation of a rescheduling: the new schedule is written beside the old one and
   renamed over it; any failure starts again.
   */
  function RescheduleOp(fs: Fs, id: QueueId, r: RescheduleStep, tmp: nat): (Stage, Fs) {
    match r
    case OpenQueued =>
      (Rescheduling(if id in fs.queue && fs.HasDest(fs.queue[id]) then CreateTmp(fs.queue[id]) else OpenQueued), fs)
    case CreateTmp(t) =>
      if fs.HasDest(t) && tmp !in fs.data[t.mail].dests[t.dest].tmps then
        var d := fs.data[t.mail].dests[t.dest];
        (Rescheduling(RenameTmp(t, tmp)), fs.SetDest(t, d.(tmps := d.tmps + {tmp})))
      else (Rescheduling(OpenQueued), fs)
    case RenameTmp(t, tmp1) =>
      if fs.HasDest(t) && tmp1 in fs.data[t.mail].dests[t.dest].tmps then
        var d := fs.data[t.mail].dests[t.dest];
        (Waiting, fs.SetDest(t, d.(schedule := true, tmps := d.tmps - {tmp1})))
      else (Rescheduling(OpenQueued), fs)
  }

  function ApplyReschedule(s: State, k: TaskId, tmp: nat): State
    requires k in s.tasks && s.tasks[k].stage.Rescheduling?
  {
    var (stage, fs) := RescheduleOp(s.fs, s.tasks[k].id, s.tasks[k].stage.r, tmp);
    Goto(s, k, stage).(fs := fs)
  }

  datatype CleanupOutcome = Continue(fs: Fs, c: CleanupStep) | Done(fs: Fs)

  /** One operation of a cleanup. Whatever is already gone is passed over; a directory that is not empty starts it again. */
  function CleanupOp(fs: Fs, id: QueueId, c: CleanupStep): CleanupOutcome {
    match c
    case ReadLink => if id in fs.cleanup then Continue(fs, OpenDest(fs.cleanup[id])) else Done(fs)
    case OpenDest(t) => Continue(fs, if fs.HasDest(t) then RemoveMetadata(t) else OpenMail(t))
    case RemoveMetadata(t) =>
      Continue(if fs.HasDest(t) then fs.SetDest(t, fs.data[t.mail].dests[t.dest].(metadata := false)) else fs, RemoveSchedule(t))
    case RemoveSchedule(t) =>
      Continue(if fs.HasDest(t) then fs.SetDest(t, fs.data[t.mail].dests[t.dest].(schedule := false)) else fs, OpenMail(t))
    case OpenMail(t) => Continue(fs, if t.mail in fs.data then RemoveDestDir(t) else RemoveLink(t))
    case RemoveDestDir(t) =>
      if !fs.HasDest(t) then Continue(fs, ListMail(t))
      else if fs.data[t.mail].dests[t.dest].Empty() then Continue(fs.RemoveDest(t), ListMail(t))
      else Continue(fs, ReadLink)
    case ListMail(t) =>
      Continue(fs, if t.mail in fs.data && fs.data[t.mail].dests == map[] then RemoveContents(t) else RemoveLink(t))
    case RemoveContents(t) =>
      Continue(if t.mail in fs.data then fs.(data := fs.data[t.mail := fs.data[t.mail].(contents := false)]) else fs, RemoveMailDir(t))
    case RemoveMailDir(t) =>
      if t.mail !in fs.data then Continue(fs, RemoveLink(t))
      else if fs.data[t.mail] == MailDir(false, map[]) then Continue(fs.(data := fs.data - {t.mail}), RemoveLink(t))
      else Continue(fs, ReadLink)
    case RemoveLink(t) => Done(fs.(cleanup := fs.cleanup - {id}))
  }

  function ApplyCleanup(s: State, k: TaskId): State
    requires k in s.tasks && s.tasks[k].stage.Cleaning?
  {
    match CleanupOp(s.fs, s.tasks[k].id, s.tasks[k].stage.c)
    case Continue(fs, c) => Goto(s, k, Cleaning(c)).(fs := fs)
    case Done(fs) => Stop(s, k).(fs := fs)
  }

  ghost predicate Next(s: State, s': State) {
    exists a :: Enabled(s, a) && s' == Apply(s, a)
  }

  /** A run, from the empty queue directory. */
  ghost predicate Execution(run: seq<State>) {
    && |run| > 0 && run[0] == INITIAL
    && forall i {:trigger run[i]} :: 0 <= i < |run| - 1 ==> Next(run[i], run[i + 1])
  }
}
