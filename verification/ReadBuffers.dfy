/** The fixed buffer from which server and client parse what they receive. */
module ReadBuffers {
  import opened Bytes
  import opened Framing
  import opened Streams
  import DataReader

  const MINIMUM_FREE_BUFSPACE: nat := 128

  datatype Extended = More | NoRoom | NoMore

  datatype NextCrLfState = Start | CrPassed

  predicate EndsInCr(s: bytes) {
    |s| > 0 && s[|s| - 1] == CR
  }

  /** The index of the LF of the first CRLF of `buf`, whose CR may have been the last byte of the previous piece. */
  method NextCrLf(buf: bytes, state: NextCrLfState) returns (r: Option<nat>, state': NextCrLfState)
    ensures r.Some? ==>
              && r.value < |buf| && buf[r.value] == LF && (if r.value == 0 then state == CrPassed else buf[r.value - 1] == CR)
              && (r.value > 0 ==> !(state == CrPassed && buf[0] == LF))
              && forall i :: i < r.value - 1 ==> !CrLfAt(buf, i)
    ensures r.None? ==>
              && (forall i :: !CrLfAt(buf, i)) && !(buf != [] && state == CrPassed && buf[0] == LF)
              && state' == if buf == [] then state else if EndsInCr(buf) then CrPassed else Start
  {
    state' := state;
    if buf == [] {
      return None, state;
    }
    if state == CrPassed && buf[0] == LF {
      return Some(0), state;
    }
    var p := 0;
    while p + 1 < |buf|
      invariant 0 <= p < |buf|
      invariant forall i :: i < p ==> !CrLfAt(buf, i)
    {
      if buf[p] == CR && buf[p + 1] == LF {
        return Some(p + 1), state;
      }
      p := p + 1;
    }
    return None, if buf[|buf| - 1] == CR then CrPassed else Start;
  }

  lemma NoCrLfAppend(a: bytes, b: bytes)
    requires forall i :: !CrLfAt(a, i)
    requires forall i :: !CrLfAt(b, i)
    requires !(EndsInCr(a) && b != [] && b[0] == LF)
    ensures forall i :: !CrLfAt(a + b, i)
  {
    forall i ensures !CrLfAt(a + b, i) {
      if 0 <= i < |a + b| - 1 {
        if i + 1 < |a| { assert !CrLfAt(a, i); }
        else if i >= |a| { assert !CrLfAt(b, i - |a|); }
      }
    }
  }

  /** The line ends in `b`, the piece after `a`. */
  lemma CrLfFound(a: bytes, b: bytes, c: bytes, p: nat)
    requires forall i :: !CrLfAt(a, i)
    requires p < |b| && b[p] == LF && (if p == 0 then EndsInCr(a) else b[p - 1] == CR)
    requires forall i :: i < p - 1 ==> !CrLfAt(b, i)
    requires !(p > 0 && EndsInCr(a) && b[0] == LF)
    ensures LineEnd(a + (b + c)) == Some(|a| + p + 1)
    ensures (a + (b + c))[|a| + p + 1..] == b[p + 1..] + c
  {
    var s := a + (b + c);
    forall j | j < |a| + p - 1 ensures !CrLfAt(s, j) {
      if 0 <= j {
        if j + 1 < |a| { assert !CrLfAt(a, j); }
        else if j >= |a| { assert !CrLfAt(b, j - |a|); }
      }
    }
    LineEndAt(s, |a| + p - 1);
  }

  /** The search for the end of the line: `seen` is behind, without a line end, and `rest` ahead. */
  ghost predicate Seeking(all: bytes, seen: bytes, rest: bytes, state: NextCrLfState) {
    all == seen + rest && (forall i :: !CrLfAt(seen, i)) && (state == CrPassed <==> EndsInCr(seen))
  }

  lemma SeekOn(all: bytes, seen: bytes, window: bytes, unread: bytes, state: NextCrLfState, state': NextCrLfState)
    requires Seeking(all, seen, window + unread, state) && (forall i :: !CrLfAt(window, i))
    requires !(window != [] && state == CrPassed && window[0] == LF)
    requires state' == if window == [] then state else if EndsInCr(window) then CrPassed else Start
    ensures Seeking(all, seen + window, unread, state')
  {
    NoCrLfAppend(seen, window);
    Regroup(seen, window, unread);
    if window == [] { assert seen + window == seen; }
  }

  lemma SeekEnds(all: bytes, seen: bytes, state: NextCrLfState)
    requires Seeking(all, seen, [], state)
    ensures LineEnd(all) == None
  {
    assert all == seen;
    LineEndIsFirst(all);
  }

  class ReadBuffer {
    const buf: array<byte>
    var start: nat
    var end: nat
    var source: Source

    ghost predicate Valid()
      reads this
    {
      0 < buf.Length && start <= end <= buf.Length
    }

    /** All that is still to be handled: the window, then the unread stream. */
    ghost function Rest(): bytes
      requires Valid()
      reads this, buf, source
    {
      buf[start..end] + source.unread
    }

    constructor (size: nat, source: Source)
      requires size > 0
      ensures Valid() && fresh(buf) && buf.Length == size && this.source == source
      ensures start == end && Rest() == source.unread
    {
      buf := new byte[size];
      start, end := 0, 0;
      this.source := source;
    }

    /** A read to the head of the buffer, over whatever it held. */
    method Refill() returns (n: nat)
      requires Valid()
      modifies this`start, this`end, buf, source
      ensures Valid() && start == 0 && end == n
      ensures Rest() == old(source.unread)
      ensures n == 0 <==> old(source.unread) == []
      ensures |source.unread| == |old(source.unread)| - n
    {
      var got := source.Read(buf.Length);
      DataReader.CopyInto(buf, 0, got);
      start, end, n := 0, |got|, |got|;
      assert buf[..n] == got;
    }

    /** Moves the window to the head of the buffer, if there is too little room after it. */
    method MakeRoom(needed: Option<nat>)
      requires Valid()
      modifies this`start, this`end, buf
      ensures Valid() && buf[start..end] == old(buf[start..end])
      ensures end == buf.Length ==> start == 0
    {
      if start != 0 {
        var missing := match needed { case None => MINIMUM_FREE_BUFSPACE case Some(s) => Max(MINIMUM_FREE_BUFSPACE, s) };
        if missing > buf.Length - end {
          CopyWithin(buf, start, end, 0);
          end := end - start;
          start := 0;
        }
      }
    }

    /** A read after the window. There is room: the stream has not ended if and only if something comes. */
    method ReadMore() returns (n: nat)
      requires Valid() && end < buf.Length
      modifies this`end, buf, source
      ensures Valid() && end == old(end) + n && Rest() == old(Rest())
      ensures n == 0 <==> old(source.unread) == []
      ensures |source.unread| == |old(source.unread)| - n
    {
      var got := source.Read(buf.Length - end);
      ghost var held := buf[start..end];
      DataReader.CopyInto(buf, end, got);
      n := |got|;
      assert buf[start..end] == held by { assert forall k :: start <= k < end ==> buf[k] == buf[..end][k]; }
      end := end + n;
      assert buf[start..end] == held + got;
    }

    /** Parses what comes next, reading as long as the parser cannot tell. There is always room to read into. */
    method Receive<T(!new)>(parse: bytes -> Outcome<T>, needed: bytes -> Option<nat>) returns (r: Awaited<T>)
      requires Valid() && Consumes(parse)
      modifies this`start, this`end, buf, source
      ensures Valid() && Decided(parse, buf.Length, old(Rest()), r)
      ensures (r.Got? ==> r.len <= |old(Rest())|) && Rest() == if r.Got? then old(Rest())[r.len..] else old(Rest())
    {
      ghost var all := Rest();
      if start == end {
        var n := Refill();
        assert buf[start..end] + source.unread == all;
        if n == 0 { return Closed; }
      }
      while true
        invariant Valid() && start < end && Rest() == all
        decreases |source.unread|
      {
        var window := buf[start..end];
        ghost var k: nat := |window|;
        assert window == all[..k];
        match parse(window)
        case Incomplete =>
          var more := Extend(needed(window));
          if !more.More? {
            r := if more.NoRoom? then Full else Cut;
            assert r == AwaitFrom(parse, buf.Length, all, k);
            return;
          }
        case Error =>
          assert Bad == AwaitFrom(parse, buf.Length, all, k);
          return Bad;
        case Ok(v, rest) =>
          Advance(|window| - |rest|);
          r := Got(v, |window| - |rest|);
          assert r == AwaitFrom(parse, buf.Length, all, k);
          return;
      }
    }

    method Advance(n: nat)
      requires Valid() && n <= end - start
      modifies this`start
      ensures Valid() && Rest() == old(Rest())[n..]
    {
      ghost var window := buf[start..end];
      start := start + n;
      assert buf[start..end] == window[n..];
    }

    /** Reads after the window, unless that is the whole buffer. */
    method Extend(needed: Option<nat>) returns (r: Extended)
      requires Valid() && start < end
      modifies this`start, this`end, buf, source
      ensures Valid() && start < end && Rest() == old(Rest())
      ensures r.More? ==> |source.unread| < |old(source.unread)|
      ensures r.NoRoom? ==> old(end - start) == buf.Length
      ensures r.NoMore? ==> old(end - start) < buf.Length && old(source.unread) == []
    {
      MakeRoom(needed);
      if end == buf.Length {
        return NoRoom;
      }
      var n := ReadMore();
      r := if n == 0 then NoMore else More;
    }

    /** Drops the rest of the line. */
    method AdvanceUntilCrLf() returns (found: bool)
      requires Valid()
      modifies this`start, this`end, buf, source
      ensures Valid() && (found <==> LineEnd(old(Rest())).Some?)
      ensures found ==> Rest() == old(Rest())[LineEnd(old(Rest())).value..]
    {
      ghost var all := Rest();
      ghost var seen: bytes := [];
      var state := Start;
      assert all == [] + Rest();
      while true
        invariant Valid() && Seeking(all, seen, Rest(), state)
        decreases |source.unread|
      {
        var window := buf[start..end];
        ghost var unread, state0 := source.unread, state;
        var p;
        p, state := NextCrLf(window, state);
        if p.Some? {
          CrLfFound(seen, window, unread, p.value);
          Advance(p.value + 1);
          return true;
        }
        SeekOn(all, seen, window, unread, state0, state);
        seen := seen + window;
        var n := Refill();
        if n == 0 {
          SeekEnds(all, seen, state);
          return false;
        }
      }
    }
  }
}
