/** The cleanup of one destination: what it amounts to, and that it can be interrupted anywhere and run again. */
module QueueCleanup {
  import opened QueueModel

  /** `data` without the destination `t`, and without its mail once no destination is left. */
  function WithoutDest(data: map<MailId, MailDir>, t: Target): map<MailId, MailDir> {
    if t.mail !in data then data
    else
      var rest := data[t.mail].dests - {t.dest};
      if rest == map[] then data - {t.mail} else data[t.mail := data[t.mail].(dests := rest)]
  }

  /** What a whole cleanup of `id` amounts to. */
  function Cleaned(fs: Fs, id: QueueId): Fs {
    if id in fs.cleanup then fs.(cleanup := fs.cleanup - {id}, data := WithoutDest(fs.data, fs.cleanup[id])) else fs
  }

  /** A temporary schedule file, left by a rescheduling, keeps the destination directory from being removed. */
  predicate Blocked(fs: Fs, id: QueueId) {
    && id in fs.cleanup && fs.HasDest(fs.cleanup[id])
    && fs.data[fs.cleanup[id].mail].dests[fs.cleanup[id].dest].tmps != {}
  }

  /** At most `n` operations of a cleanup, from step `c`. */
  function Run(fs: Fs, id: QueueId, c: CleanupStep, n: nat): CleanupOutcome
    decreases n
  {
    if n == 0 then Continue(fs, c)
    else
      match CleanupOp(fs, id, c)
      case Done(fs1) => Done(fs1)
      case Continue(fs1, c1) => Run(fs1, id, c1, n - 1)
  }

  /** The directory after one interrupted cleanup of `id` for each of `crashes`, each started from the beginning. */
  function AfterCrashes(fs: Fs, id: QueueId, crashes: seq<nat>): Fs
    decreases |crashes|
  {
    if crashes == [] then fs else AfterCrashes(Run(fs, id, ReadLink, crashes[0]).fs, id, crashes[1..])
  }

  function Rank(c: CleanupStep): nat {
    match c
    case ReadLink => 10
    case OpenDest(_) => 9
    case RemoveMetadata(_) => 8
    case RemoveSchedule(_) => 7
    case OpenMail(_) => 6
    case RemoveDestDir(_) => 5
    case ListMail(_) => 4
    case RemoveContents(_) => 3
    case RemoveMailDir(_) => 2
    case RemoveLink(_) => 1
  }

  /** What the operations before step `c` have done to the directory. */
  predicate Reached(fs: Fs, id: QueueId, c: CleanupStep) {
    c.ReadLink? ||
    (id in fs.cleanup && c.t == fs.cleanup[id] &&
     var t := c.t;
     match c
     case RemoveSchedule(_) => fs.HasDest(t) ==> !fs.data[t.mail].dests[t.dest].metadata
     case OpenMail(_) => Emptied(fs, t)
     case RemoveDestDir(_) => t.mail in fs.data && Emptied(fs, t)
     case ListMail(_) => t.mail in fs.data && !fs.HasDest(t)
     case RemoveContents(_) => t.mail in fs.data && fs.data[t.mail].dests == map[]
     case RemoveMailDir(_) => t.mail in fs.data && fs.data[t.mail] == MailDir(false, map[])
     case RemoveLink(_) => t.mail in fs.data ==> !fs.HasDest(t) && fs.data[t.mail].dests != map[]
     case _ => true)
  }

  predicate Emptied(fs: Fs, t: Target) {
    fs.HasDest(t) ==> !fs.data[t.mail].dests[t.dest].metadata && !fs.data[t.mail].dests[t.dest].schedule
  }

  // ------------------------------------------------------------------ one operation

  /** Only the rest of the mail counts: the other destinations, and the contents while there are any. */
  lemma SameWithout(data: map<MailId, MailDir>, data': map<MailId, MailDir>, t: Target)
    requires t.mail in data && t.mail in data' && data' == data[t.mail := data'[t.mail]]
    requires data'[t.mail].dests - {t.dest} == data[t.mail].dests - {t.dest}
    requires data[t.mail].dests - {t.dest} == map[] || data'[t.mail].contents == data[t.mail].contents
    ensures WithoutDest(data', t) == WithoutDest(data, t)
  { }

  lemma NothingToRemove(data: map<MailId, MailDir>, t: Target)
    requires t.mail in data && t.dest !in data[t.mail].dests && data[t.mail].dests != map[]
    ensures WithoutDest(data, t) == data
  {
    assert data[t.mail].dests - {t.dest} == data[t.mail].dests;
  }

  lemma OpKeepsGoal(fs: Fs, id: QueueId, c: CleanupStep)
    requires Reached(fs, id, c) && !Blocked(fs, id)
    ensures match CleanupOp(fs, id, c)
            case Done(fs1) => fs1 == Cleaned(fs, id)
            case Continue(fs1, c1) =>
              && Reached(fs1, id, c1) && !Blocked(fs1, id) && Rank(c1) < Rank(c)
              && id in fs1.cleanup && Cleaned(fs1, id) == Cleaned(fs, id)
  {
    var r := CleanupOp(fs, id, c);
    if c.RemoveLink? && c.t.mail in fs.data {
      NothingToRemove(fs.data, c.t);
    } else if (c.RemoveMetadata? || c.RemoveSchedule?) && fs.HasDest(c.t) {
      assert r.fs.data[c.t.mail].dests - {c.t.dest} == fs.data[c.t.mail].dests - {c.t.dest};
      SameWithout(fs.data, r.fs.data, c.t);
    } else if c.RemoveDestDir? && fs.HasDest(c.t) {
      SameWithout(fs.data, r.fs.data, c.t);
    } else if c.RemoveContents? {
      SameWithout(fs.data, r.fs.data, c.t);
    }
  }

  lemma OpStaysBlocked(fs: Fs, id: QueueId, c: CleanupStep)
    requires Reached(fs, id, c) && Blocked(fs, id)
    ensures var r := CleanupOp(fs, id, c); r.Continue? && Reached(r.fs, id, r.c) && Blocked(r.fs, id)
  { }

  // ------------------------------------------------------------------ whole cleanups

  lemma {:induction false} RunKeepsGoal(fs: Fs, id: QueueId, c: CleanupStep, n: nat)
    requires Reached(fs, id, c) && !Blocked(fs, id)
    ensures var r := Run(fs, id, c, n);
            && Cleaned(r.fs, id) == Cleaned(fs, id) && !Blocked(r.fs, id)
            && (r.Done? ==> r.fs == Cleaned(fs, id))
            && (r.Continue? && n > 0 ==> id in r.fs.cleanup)
            && (n >= Rank(c) ==> r.Done?)
    decreases n
  {
    if n > 0 {
      OpKeepsGoal(fs, id, c);
      var r := CleanupOp(fs, id, c);
      if r.Continue? { RunKeepsGoal(r.fs, id, r.c, n - 1); }
    }
  }

  lemma {:induction false} RunStaysBlocked(fs: Fs, id: QueueId, c: CleanupStep, n: nat)
    requires Reached(fs, id, c) && Blocked(fs, id)
    ensures var r := Run(fs, id, c, n); r.Continue? && Blocked(r.fs, id)
    decreases n
  {
    if n > 0 {
      OpStaysBlocked(fs, id, c);
      var r := CleanupOp(fs, id, c);
      RunStaysBlocked(r.fs, id, r.c, n - 1);
    }
  }

  /** A cleanup, retried as it is on every error, comes to an end exactly when no temporary file is in its way. */
  lemma CleanupEndsIff(fs: Fs, id: QueueId)
    ensures (exists n :: Run(fs, id, ReadLink, n).Done?) <==> !Blocked(fs, id)
  {
    if Blocked(fs, id) {
      forall n ensures !Run(fs, id, ReadLink, n).Done? { RunStaysBlocked(fs, id, ReadLink, n); }
    } else {
      RunKeepsGoal(fs, id, ReadLink, 10);
      assert Run(fs, id, ReadLink, 10).Done?;
    }
  }

  /** However often it is interrupted and started again, a cleanup ends in the state of an uninterrupted one. */
  lemma {:induction false} CleanupRestarts(fs: Fs, id: QueueId, crashes: seq<nat>)
    requires !Blocked(fs, id)
    ensures Run(AfterCrashes(fs, id, crashes), id, ReadLink, 10) == Done(Cleaned(fs, id))
    decreases |crashes|
  {
    if crashes == [] {
      RunKeepsGoal(fs, id, ReadLink, 10);
    } else {
      RunKeepsGoal(fs, id, ReadLink, crashes[0]);
      CleanupRestarts(Run(fs, id, ReadLink, crashes[0]).fs, id, crashes[1..]);
    }
  }

  /** The link goes last: wherever a cleanup is interrupted, the link is still there or nothing else is. */
  lemma LinkGoesLast(fs: Fs, id: QueueId, n: nat)
    requires id in fs.cleanup
    ensures var r := Run(fs, id, ReadLink, n); id in r.fs.cleanup || r == Done(Cleaned(fs, id))
  {
    if Blocked(fs, id) { RunStaysBlocked(fs, id, ReadLink, n); } else { RunKeepsGoal(fs, id, ReadLink, n); }
  }

  // ------------------------------------------------------------------ the method itself

  datatype CleanupResult = Ok(existed: bool) | NotEmpty

  /** The storage, working in its directory. */
  class FsStorage {
    var fs: Fs

    constructor (fs0: Fs)
      ensures fs == fs0
    {
      fs := fs0;
    }

    /** The files of the destination; whether there was one. */
    method RemoveFiles(t: Target) returns (vanished: bool)
      modifies this
      ensures vanished == !old(fs).HasDest(t)
      ensures fs == if vanished then old(fs) else old(fs).SetDest(t, DestDir(false, false, old(fs).data[t.mail].dests[t.dest].tmps))
    {
      vanished := !fs.HasDest(t);
      if !vanished {
        fs := fs.SetDest(t, fs.data[t.mail].dests[t.dest].(metadata := false));
        fs := fs.SetDest(t, fs.data[t.mail].dests[t.dest].(schedule := false));
        assert fs.data[t.mail].dests == old(fs).data[t.mail].dests[t.dest := fs.data[t.mail].dests[t.dest]];
      }
    }

    /** The directory of the mail, once only its contents are left. */
    method RemoveMail(mail: MailId)
      requires mail in fs.data
      modifies this
      ensures fs == if old(fs).data[mail].dests == map[] then old(fs).(data := old(fs).data - {mail}) else old(fs)
    {
      if fs.data[mail].dests == map[] {
        fs := fs.(data := fs.data[mail := fs.data[mail].(contents := false)]);
        fs := fs.(data := fs.data - {mail});
      }
    }

    method Cleanup(id: QueueId) returns (r: CleanupResult)
      modifies this
      ensures r.NotEmpty? <==> Blocked(old(fs), id)
      ensures r.Ok? ==> fs == Cleaned(old(fs), id) && (r.existed <==> id in old(fs.cleanup) && old(fs).HasDest(old(fs.cleanup)[id]))
      ensures r.NotEmpty? ==>
        var t := old(fs.cleanup)[id]; fs == old(fs).SetDest(t, DestDir(false, false, old(fs).data[t.mail].dests[t.dest].tmps))
    {
      if id !in fs.cleanup { return Ok(false); }
      ghost var before := fs;
      var t := fs.cleanup[id];
      var vanished := RemoveFiles(t);
      if t.mail !in fs.data {
        fs := fs.(cleanup := fs.cleanup - {id});
        return Ok(false);
      }
      if fs.HasDest(t) {
        if !fs.data[t.mail].dests[t.dest].Empty() { return NotEmpty; }
        fs := fs.RemoveDest(t);
      } else {
        vanished := true;
      }
      assert fs.data[t.mail].dests == before.data[t.mail].dests - {t.dest};
      assert fs.data == before.data[t.mail := fs.data[t.mail]];
      RemoveMail(t.mail);
      assert fs.data == WithoutDest(before.data, t);
      fs := fs.(cleanup := fs.cleanup - {id});
      return Ok(!vanished);
    }
  }
}
