/**
 What a run has done, told by its actions: every delivery is a success of the transport,
 every mail given up is a decision of the retry policy after the transport has failed,
 and the results about runs are restated in these terms.
 */
module QueueHistory {
  import opened QueueModel
  import opened QueueSafety
  import opened QueueSolo

  // ------------------------------------------------------------------ runs and their actions

  /** Step `i` of the run is action `i`. */
  predicate ActedAt(run: seq<State>, acts: seq<Action>, i: nat)
    requires i < |acts| < |run|
  {
    Enabled(run[i], acts[i]) && run[i + 1] == Apply(run[i], acts[i])
  }

  /** A run, from the empty queue directory, and the actions that it consists of. */
  predicate Acted(run: seq<State>, acts: seq<Action>) {
    |run| == |acts| + 1 && run[0] == INITIAL && forall i :: 0 <= i < |acts| ==> ActedAt(run, acts, i)
  }

  /** The same, where a process starts only when no other is alive. */
  predicate SoloActed(run: seq<State>, acts: seq<Action>) {
    Acted(run, acts) && forall i :: 0 <= i < |acts| && acts[i].Start? ==> run[i].processes == map[]
  }

  lemma ActedIsExecution(run: seq<State>, acts: seq<Action>)
    requires Acted(run, acts)
    ensures Execution(run)
  {
    forall i | 0 <= i < |run| - 1 ensures Next(run[i], run[i + 1]) {
      assert ActedAt(run, acts, i);
    }
  }

  lemma SoloActedIsExecution(run: seq<State>, acts: seq<Action>)
    requires SoloActed(run, acts)
    ensures SoloExecution(run)
  {
    forall i | 0 <= i < |run| - 1 ensures SoloNext(run[i], run[i + 1]) {
      assert ActedAt(run, acts, i);
    }
  }

  /** Every run has its actions. */
  lemma {:induction false} ExecutionIsActed(run: seq<State>) returns (acts: seq<Action>)
    requires Execution(run)
    ensures Acted(run, acts)
    decreases |run|
  {
    var n := |run| - 1;
    if n == 0 {
      acts := [];
    } else {
      var before := run[..n];
      assert forall i :: 0 <= i < n ==> before[i] == run[i];
      forall i | 0 <= i < n - 1 ensures Next(before[i], before[i + 1]) { assert Next(run[i], run[i + 1]); }
      var were := ExecutionIsActed(before);
      assert Next(run[n - 1], run[n]);
      var a :| Enabled(run[n - 1], a) && run[n] == Apply(run[n - 1], a);
      acts := were + [a];
      forall i | 0 <= i < n ensures ActedAt(run, acts, i) {
        if i < n - 1 { assert ActedAt(before, were, i) && before[i] == run[i] && before[i + 1] == run[i + 1]; }
      }
    }
  }

  // ------------------------------------------------------------------ what an action says

  /** The step of a task on `id`. */
  predicate On(s: State, a: Action, id: QueueId) {
    OfTask(a) && a.task in s.tasks && s.tasks[a.task].id == id
  }

  /** The transport has delivered `id`. */
  predicate Delivers(s: State, a: Action, id: QueueId) { On(s, a, id) && a.Transport? && a.success }

  /** The retry policy has given `id` up. */
  predicate GivesUp(s: State, a: Action, id: QueueId) { On(s, a, id) && a.Decide? && !a.retry }

  /** Process `p` could not read the link `id` that it had listed. */
  predicate Misses(s: State, a: Action, p: ProcessId, id: QueueId) {
    On(s, a, id) && a.ScanError? && s.tasks[a.task].process == p
  }

  predicate Commits(a: Action, id: QueueId, t: Target) { a.Commit? && id in a.links && a.links[id] == t }

  predicate SameRecord(s: State, s': State) {
    && s'.deliveries == s.deliveries && s'.dropped == s.dropped && s'.committed == s.committed && s'.mails == s.mails
    && s'.missed == s.missed && s'.crashes == s.crashes
  }

  predicate Silent(a: Action) {
    !a.Transport? && !a.Decide? && !a.ScanError? && !a.Commit? && !a.Start? && !a.Crash?
  }

  lemma ScanKeeps(s: State, a: Action)
    requires Enabled(s, a) && (a.ScanInflight? || a.ScanCleanup? || a.ScanQueue? || a.EndBoot?)
    ensures SameRecord(s, Apply(s, a))
  { }

  lemma WorkKeeps(s: State, a: Action)
    requires Enabled(s, a) && (a.Reschedule? || a.RescheduleError? || a.Cleanup? || a.CleanupError?)
    ensures SameRecord(s, Apply(s, a))
  { }

  lemma SendKeeps(s: State, k: TaskId)
    requires k in s.tasks
    ensures SameRecord(s, ApplySendStart(s, k)) && SameRecord(s, ApplySendDone(s, k))
  { }

  lemma CancelKeeps(s: State, k: TaskId)
    requires k in s.tasks
    ensures SameRecord(s, ApplySendCancel(s, k)) && SameRecord(s, ApplyDrop(s, k))
  { }

  lemma SilentKeeps(s: State, a: Action)
    requires Enabled(s, a) && Silent(a)
    ensures SameRecord(s, Apply(s, a))
  {
    if a.ScanInflight? || a.ScanCleanup? || a.ScanQueue? || a.EndBoot? {
      ScanKeeps(s, a);
    } else if a.Reschedule? || a.RescheduleError? || a.Cleanup? || a.CleanupError? {
      WorkKeeps(s, a);
    } else if a.SendStart? || a.SendDone? {
      SendKeeps(s, a.task);
    } else if a.SendCancel? || a.Drop? {
      CancelKeeps(s, a.task);
    }
  }

  lemma SilentSays(s: State, a: Action, id: QueueId)
    requires Enabled(s, a) && Silent(a)
    ensures Records(s, a, Apply(s, a), id)
  {
    SilentKeeps(s, a);
  }

  lemma ProcessSays(s: State, a: Action, id: QueueId)
    requires Enabled(s, a) && (a.Start? || a.Crash? || a.Commit?)
    ensures Records(s, a, Apply(s, a), id)
  { }

  lemma TaskSays(s: State, a: Action, id: QueueId)
    requires Enabled(s, a) && (a.Transport? || a.Decide? || a.ScanError?)
    ensures Records(s, a, Apply(s, a), id)
  { }

  /** What one action adds to the history. */
  predicate Records(s: State, a: Action, s': State, id: QueueId) {
    && Count(s', id) == Count(s, id) + (if Delivers(s, a, id) then 1 else 0)
    && (id in s'.dropped <==> id in s.dropped || GivesUp(s, a, id))
    && s'.crashes == s.crashes + (if a.Crash? then 1 else 0)
  }

  lemma ActionIsRecorded(run: seq<State>, acts: seq<Action>, i: nat, id: QueueId)
    requires Acted(run, acts) && i < |acts|
    ensures Records(run[i], acts[i], run[i + 1], id)
  {
    assert ActedAt(run, acts, i);
    if Silent(acts[i]) {
      SilentSays(run[i], acts[i], id);
    } else if acts[i].Start? || acts[i].Crash? || acts[i].Commit? {
      ProcessSays(run[i], acts[i], id);
    } else {
      TaskSays(run[i], acts[i], id);
    }
  }

  lemma MissIsRecorded(run: seq<State>, acts: seq<Action>, i: nat, p: ProcessId, id: QueueId)
    requires Acted(run, acts) && i < |acts|
    ensures (p, id) in run[i + 1].missed <==> Misses(run[i], acts[i], p, id) || ((p, id) in run[i].missed && acts[i] != Start(p))
  {
    assert ActedAt(run, acts, i);
    if Silent(acts[i]) { SilentKeeps(run[i], acts[i]); }
  }

  predicate CommittedTo(s: State, id: QueueId, t: Target) { id in s.committed && s.committed[id] == t }

  lemma CommitIsRecorded(run: seq<State>, acts: seq<Action>, i: nat, id: QueueId, t: Target)
    requires Acted(run, acts) && i < |acts|
    ensures CommittedTo(run[i + 1], id, t) <==> Commits(acts[i], id, t) || CommittedTo(run[i], id, t)
  {
    assert ActedAt(run, acts, i);
    if Silent(acts[i]) { SilentKeeps(run[i], acts[i]); }
  }

  predicate CommitsMail(a: Action, m: MailId, dests: map<DestId, QueueId>) { a.Commit? && a.mail == m && a.dests == dests }

  predicate HasMail(s: State, m: MailId, dests: map<DestId, QueueId>) { m in s.mails && s.mails[m] == dests }

  lemma MailIsRecorded(run: seq<State>, acts: seq<Action>, i: nat, m: MailId, dests: map<DestId, QueueId>)
    requires Acted(run, acts) && i < |acts|
    ensures HasMail(run[i + 1], m, dests) <==> CommitsMail(acts[i], m, dests) || HasMail(run[i], m, dests)
  {
    assert ActedAt(run, acts, i);
    if Silent(acts[i]) { SilentKeeps(run[i], acts[i]); }
  }

  // ------------------------------------------------------------------ what a run has done

  /** How often `id` was delivered in the first `n` actions. */
  function Deliveries(run: seq<State>, acts: seq<Action>, n: nat, id: QueueId): nat
    requires n <= |acts| && n <= |run|
  {
    if n == 0 then 0 else Deliveries(run, acts, n - 1, id) + if Delivers(run[n - 1], acts[n - 1], id) then 1 else 0
  }

  function Crashes(acts: seq<Action>, n: nat): nat
    requires n <= |acts|
  {
    if n == 0 then 0 else Crashes(acts, n - 1) + if acts[n - 1].Crash? then 1 else 0
  }

  predicate DeliveredBefore(run: seq<State>, acts: seq<Action>, n: nat, id: QueueId) {
    exists j :: 0 <= j < n && j < |run| && j < |acts| && Delivers(run[j], acts[j], id)
  }

  predicate GivenUpBefore(run: seq<State>, acts: seq<Action>, n: nat, id: QueueId) {
    exists j :: 0 <= j < n && j < |run| && j < |acts| && GivesUp(run[j], acts[j], id)
  }

  predicate CommittedBefore(acts: seq<Action>, n: nat, id: QueueId, t: Target) {
    exists j :: 0 <= j < n && j < |acts| && Commits(acts[j], id, t)
  }

  /** Process `p` has missed `id` at `j`, and has not been started again since. */
  predicate MissedAt(run: seq<State>, acts: seq<Action>, j: nat, n: nat, p: ProcessId, id: QueueId) {
    && j < n <= |acts| && n <= |run| && Misses(run[j], acts[j], p, id)
    && forall m :: j < m < n ==> acts[m] != Start(p)
  }

  lemma {:induction false} DeliveriesArePast(run: seq<State>, acts: seq<Action>, n: nat, id: QueueId)
    requires n <= |acts| && n <= |run|
    ensures Deliveries(run, acts, n, id) > 0 <==> DeliveredBefore(run, acts, n, id)
  {
    if n > 0 {
      DeliveriesArePast(run, acts, n - 1, id);
      if Delivers(run[n - 1], acts[n - 1], id) { assert DeliveredBefore(run, acts, n, id); }
    }
  }

  /** The history that a state carries is what the actions before it have done. */
  lemma {:induction false} HistoryIsActions(run: seq<State>, acts: seq<Action>, i: nat, id: QueueId)
    requires Acted(run, acts) && i < |run|
    ensures Count(run[i], id) == Deliveries(run, acts, i, id) && run[i].crashes == Crashes(acts, i)
    ensures id in run[i].dropped <==> GivenUpBefore(run, acts, i, id)
  {
    if i > 0 {
      HistoryIsActions(run, acts, i - 1, id);
      ActionIsRecorded(run, acts, i - 1, id);
      if GivesUp(run[i - 1], acts[i - 1], id) { assert GivenUpBefore(run, acts, i, id); }
    }
  }

  lemma {:induction false} CommittedIff(run: seq<State>, acts: seq<Action>, i: nat, id: QueueId, t: Target)
    requires Acted(run, acts) && i < |run|
    ensures CommittedTo(run[i], id, t) <==> CommittedBefore(acts, i, id, t)
  {
    if i > 0 {
      CommittedIff(run, acts, i - 1, id, t);
      CommitIsRecorded(run, acts, i - 1, id, t);
      if Commits(acts[i - 1], id, t) { assert CommittedBefore(acts, i, id, t); }
    }
  }

  lemma {:induction false} MailIff(run: seq<State>, acts: seq<Action>, i: nat, m: MailId, dests: map<DestId, QueueId>)
    requires Acted(run, acts) && i < |run|
    ensures HasMail(run[i], m, dests) <==> exists j :: 0 <= j < i && CommitsMail(acts[j], m, dests)
  {
    if i > 0 {
      MailIff(run, acts, i - 1, m, dests);
      MailIsRecorded(run, acts, i - 1, m, dests);
    }
  }

  lemma {:induction false} MissedIff(run: seq<State>, acts: seq<Action>, i: nat, p: ProcessId, id: QueueId)
    requires Acted(run, acts) && i < |run|
    ensures (p, id) in run[i].missed <==> exists j: nat :: MissedAt(run, acts, j, i, p, id)
  {
    if i > 0 {
      var n := i - 1;
      MissedIff(run, acts, n, p, id);
      MissIsRecorded(run, acts, n, p, id);
      if Misses(run[n], acts[n], p, id) { assert MissedAt(run, acts, n, i, p, id); }
      if (p, id) in run[n].missed && acts[n] != Start(p) {
        var j: nat :| MissedAt(run, acts, j, n, p, id);
        assert MissedAt(run, acts, j, i, p, id);
      }
      if j: nat :| MissedAt(run, acts, j, i, p, id) {
        if j < n { assert MissedAt(run, acts, j, n, p, id); }
      }
    }
  }

  // ------------------------------------------------------------------ main results

  /**
   No mail is lost: from its commit on, a destination is in exactly one of `queue` and
   `inflight`, with all it needs to be sent, or the transport has delivered it, or the
   retry policy has given it up. A link in `cleanup` is of the second kind.
   */
  lemma NoMailLost(run: seq<State>, acts: seq<Action>, i: nat, id: QueueId, t: Target)
    requires Acted(run, acts) && i < |run| && CommittedBefore(acts, i, id, t)
    ensures !(id in run[i].fs.queue && id in run[i].fs.inflight)
    ensures ToSend(run[i], id) ==> Complete(run[i].fs, t)
    ensures id in run[i].fs.queue ==> run[i].fs.queue[id] == t
    ensures id in run[i].fs.inflight ==> run[i].fs.inflight[id] == t
    ensures !ToSend(run[i], id) ==> DeliveredBefore(run, acts, i, id) || GivenUpBefore(run, acts, i, id)
    ensures id in run[i].fs.cleanup ==> !ToSend(run[i], id)
  {
    ActedIsExecution(run, acts);
    CommittedIff(run, acts, i, id, t);
    CommittedIsSafe(run, i, id);
    HistoryIsActions(run, acts, i, id);
    DeliveriesArePast(run, acts, i, id);
  }

  /** A destination is delivered at most once more than there were crashes. */
  lemma AtMostOneDeliveryPerCrash(run: seq<State>, acts: seq<Action>, i: nat, id: QueueId)
    requires SoloActed(run, acts) && i < |run|
    ensures Deliveries(run, acts, i, id) <= 1 + Crashes(acts, i)
  {
    SoloActedIsExecution(run, acts);
    CountIsBounded(run, i, id);
    HistoryIsActions(run, acts, i, id);
  }

  /**
   Once the process is up, every link to be sent has a live task that will deal with it,
   unless this process, since it was started, failed to read it when it listed it.
   */
  lemma EveryLinkHasATask(run: seq<State>, acts: seq<Action>, i: nat, p: ProcessId, id: QueueId)
    requires SoloActed(run, acts) && i < |run| && p in run[i].processes && run[i].processes[p] == Running(true)
    ensures id in run[i].fs.inflight ==> (exists j: nat :: MissedAt(run, acts, j, i, p, id)) || exists k :: Holder(run[i], k, id)
    ensures id in run[i].fs.queue ==> (exists j: nat :: MissedAt(run, acts, j, i, p, id)) || exists k :: Keeper(run[i], k, id)
  {
    SoloActedIsExecution(run, acts);
    LinkHasATask(run, i, p, id);
    MissedIff(run, acts, i, p, id);
  }
}
