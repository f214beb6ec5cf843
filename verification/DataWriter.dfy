/** The incremental writer that dot-stuffs a message. */
module DataWriter {
  import opened Bytes
  import opened DataFormat
  import opened Streams
  import opened WriterState

  /**
   What the writer has put on the wire after `base`: the bytes acknowledged to its
   caller, dot-stuffed, and maybe the first of the two dots of a dot not yet acknowledged.
   */
  ghost predicate Wired(base: bytes, acked: bytes, pending: bool, wire: bytes) {
    && wire == base + (Stuff(CrLf, acked) + if pending then [DOT] else [])
    && (pending ==> LineAfter(CrLf, acked) == CrLf)
  }

  ghost predicate Books(base: bytes, acked: bytes, pending: bool, state: LineState, wire: bytes) {
    && Wired(base, acked, pending, wire)
    && state == (if pending then Start else LineAfter(CrLf, acked))
  }

  lemma BooksMore(base: bytes, acked: bytes, state: LineState, wire: bytes, out: bytes)
    requires Books(base, acked, false, state, wire) && NoEscape(state, out)
    ensures Books(base, acked + out, false, LineAfter(state, out), wire + out)
  {
    LineAfterAppend(CrLf, acked, out);
    StuffAppend(CrLf, acked, out);
    StuffPlain(state, out);
    var stuffed := Stuff(CrLf, acked);
    assert stuffed + [] == stuffed && (stuffed + out) + [] == stuffed + out;
    Regroup(base, stuffed, out);
  }

  /** The second dot of an escaped dot went through, with what follows it. */
  lemma BooksSecondDot(base: bytes, acked: bytes, state: LineState, wire: bytes, out: bytes)
    requires Books(base, acked, true, state, wire) && NoEscape(state, out) && out != [] && out[0] == DOT
    ensures Books(base, acked + out, false, LineAfter(state, out), wire + out)
  {
    LineAfterAppend(CrLf, acked, out);
    StuffAppend(CrLf, acked, out);
    StuffPlain(state, out);
    var stuffed := Stuff(CrLf, acked);
    assert Stuff(CrLf, out) == [DOT] + out && LineAfter(CrLf, out) == LineAfter(Start, out);
    Regroup(base, stuffed + [DOT], out);
    Regroup(stuffed, [DOT], out);
    assert Stuff(CrLf, acked + out) + [] == Stuff(CrLf, acked + out);
  }

  /** `out` went through without an escape. */
  lemma BooksPlain(base: bytes, acked: bytes, pending: bool, state: LineState, wire: bytes, out: bytes)
    requires Books(base, acked, pending, state, wire)
    requires NoEscape(state, out) && (pending && out != [] ==> out[0] == DOT)
    ensures Books(base, acked + out, pending && out == [], LineAfter(state, out), wire + out)
  {
    if out == [] { assert acked + out == acked && wire + out == wire; }
    else if pending { BooksSecondDot(base, acked, state, wire, out); }
    else { BooksMore(base, acked, state, wire, out); }
  }

  /** The first dot of an escaped dot went through. */
  lemma BooksDot(base: bytes, acked: bytes, wire: bytes)
    requires Books(base, acked, false, CrLf, wire)
    ensures Books(base, acked, true, Start, wire + [DOT])
  {
    assert wire + [DOT] == base + (Stuff(CrLf, acked) + [DOT]);
  }

  lemma OneSliceIsSteady(st: LineState, slices: seq<bytes>, taken: nat)
    requires |slices| == 1 && taken <= Offered(st, slices)
    ensures Steady(st, slices, taken)
  {
    assert Flatten(slices) == slices[0] + Flatten([]) == slices[0];
    assert Lens(slices) == [|slices[0]|];
  }

  lemma EscapeAtMeans(st: LineState, s: bytes)
    ensures var r := EscapeAt(st, s);
            if r.Some? then NoEscape(st, s[..r.value]) && LineAfter(st, s[..r.value]) == CrLf else NoEscape(st, s)
    decreases |s|
  {
    var r := EscapeAt(st, s);
    if s != [] && !(st == CrLf && s[0] == DOT) {
      EscapeAtMeans(NextLine(st, s[0]), s[1..]);
      if r.Some? { assert s[..r.value][1..] == s[1..][..r.value - 1]; }
    }
  }

  /** No escape is needed in what is offered, but for its last dot. */
  lemma OfferedIsPlain(st: LineState, slices: seq<bytes>, n: nat)
    requires n <= Offered(st, slices) && (EscapeAt(st, Flatten(slices)).Some? ==> n < Offered(st, slices))
    ensures NoEscape(st, Flatten(slices)[..n])
  {
    var flat := Flatten(slices);
    EscapeAtMeans(st, flat);
    var p := match EscapeAt(st, flat) { case Some(p) => p case None => |flat| };
    assert flat[..p] == flat[..n] + flat[n..p] && flat[..|flat|] == flat;
    NoEscapeAppend(st, flat[..n], flat[n..p]);
  }

  /** The books after a write. */
  lemma BooksPoll(base: bytes, acked: bytes, pending: bool, st: LineState, wire: bytes, slices: seq<bytes>, taken: nat)
    requires Books(base, acked, pending, st, wire) && taken <= Offered(st, slices)
    requires pending && Flatten(slices) != [] ==> Flatten(slices)[0] == DOT
    ensures var flat, r := Flatten(slices), PollOf(st, slices, taken);
            var dotted := taken == Offered(st, slices) && EscapeAt(st, flat).Some?;
            && Wired(base, acked + flat[..r.acked], dotted || (pending && r.acked == 0), wire + r.sent)
            && (Steady(st, slices, taken) ==> Books(base, acked + flat[..r.acked], dotted || (pending && r.acked == 0), r.state, wire + r.sent))
  {
    var flat, r := Flatten(slices), PollOf(st, slices, taken);
    EscapeAtMeans(st, flat);
    OfferedIsPlain(st, slices, r.acked);
    var out := flat[..r.acked];
    assert out == [] <==> r.acked == 0;
    BooksPlain(base, acked, pending, st, wire, out);
    if taken < Offered(st, slices) {
      if Rebuilds(Lens(slices), taken) { RebuiltIsRight(st, slices, taken); }
    } else if EscapeAt(st, flat).Some? {
      BooksDot(base, acked + out, wire + out);
      assert flat[..taken] == out + [DOT];
      Regroup(wire, out, [DOT]);
    } else {
      assert flat[..|flat|] == flat;
    }
  }

  /** Nothing the writer puts on the wire before it finishes can be taken for the end of data. */
  lemma NoEndBeforeFinish(acked: bytes, pending: bool, k: nat)
    requires pending ==> LineAfter(CrLf, acked) == CrLf
    requires k <= |Stuff(CrLf, acked) + if pending then [DOT] else []|
    ensures !Terminated((Stuff(CrLf, acked) + if pending then [DOT] else [])[..k])
  {
    var sent := Stuff(CrLf, acked) + if pending then [DOT] else [];
    var msg := if pending then acked + [DOT] else acked;
    if pending { StuffAppend(CrLf, acked, [DOT]); }
    var wire := Wire(msg) + [];
    WireEndsAtItsEnd(msg, []);
    assert wire[..k] == sent[..k];
  }

  /** One more byte followed, in a stream `flat` without escapes up to `p`. */
  lemma PlainOneMore(st: LineState, flat: bytes, p: nat)
    requires p < |flat| && NoEscape(st, flat[..p])
    ensures LineAfter(st, flat[..p + 1]) == NextLine(LineAfter(st, flat[..p]), flat[p])
    ensures NoEscape(st, flat[..p + 1]) <==> LineAfter(st, flat[..p]) != CrLf || flat[p] != DOT
  {
    assert flat[..p + 1] == flat[..p] + [flat[p]];
    LineAfterAppend(st, flat[..p], [flat[p]]);
    NoEscapeAppend(st, flat[..p], [flat[p]]);
  }

  /** Where the first dot that opens a line is. */
  function EscapeAt(st: LineState, s: bytes): (r: Option<nat>)
    ensures r.Some? ==> r.value < |s| && s[r.value] == DOT
    decreases |s|
  {
    if s == [] then None
    else if st == CrLf && s[0] == DOT then Some(0)
    else match EscapeAt(NextLine(st, s[0]), s[1..]) { case Some(p) => Some(p + 1) case None => None }
  }

  lemma {:induction false} EscapeAtIs(st: LineState, s: bytes, p: nat)
    requires p <= |s| && NoEscape(st, s[..p])
    requires p < |s| ==> LineAfter(st, s[..p]) == CrLf && s[p] == DOT
    ensures EscapeAt(st, s) == if p < |s| then Some(p) else None
    decreases |s|
  {
    if p > 0 {
      assert s[..p][1..] == s[1..][..p - 1];
      EscapeAtIs(NextLine(st, s[0]), s[1..], p - 1);
    }
  }

  /** What a write comes to: the bytes sent, how many it acknowledges, and the line state kept. */
  datatype Poll = Poll(sent: bytes, acked: nat, state: LineState)

  /** How many bytes are offered to the inner writer: up to and including a dot to be escaped. */
  function Offered(st: LineState, slices: seq<bytes>): (n: nat)
    ensures n <= |Flatten(slices)|
  {
    match EscapeAt(st, Flatten(slices)) { case Some(p) => p + 1 case None => |Flatten(slices)| }
  }

  /** A write of which the inner writer takes `taken` bytes. */
  function PollOf(st: LineState, slices: seq<bytes>, taken: nat): Poll
    requires taken <= Offered(st, slices)
  {
    var flat := Flatten(slices);
    if taken < Offered(st, slices) then Poll(flat[..taken], taken, UntilState(st, slices, taken))
    else if EscapeAt(st, flat).Some? then Poll(flat[..taken], taken - 1, Start)
    else Poll(flat, taken, LineAfter(st, flat))
  }

  /** The inner writer took all it was offered, or a part after which the line state is rebuilt as it should be. */
  predicate Steady(st: LineState, slices: seq<bytes>, taken: nat) {
    taken == Offered(st, slices) || Rebuilds(Lens(slices), taken)
  }

  /** A call of the writer in line state `state` on `slices`, of which the inner writer took `taken` bytes. */
  datatype Try = Try(state: LineState, slices: seq<bytes>, taken: nat)

  /** Call after call, the bytes `flat` are offered without what has been acknowledged, until `written` of them have been. */
  predicate Tried(st: LineState, flat: bytes, tries: seq<Try>, now: LineState, written: nat)
    decreases |tries|
  {
    if tries == [] then now == st && written == 0
    else
      var t := tries[|tries| - 1];
      && Comes(flat, t, now, written)
      && Tried(st, flat, tries[..|tries| - 1], t.state, |flat| - |Flatten(t.slices)|)
  }

  /** Try `t`, of the end of `flat` that it offers, leaves the line state `now` and `written` bytes of `flat` acknowledged. */
  predicate Comes(flat: bytes, t: Try, now: LineState, written: nat) {
    var left := |Flatten(t.slices)|;
    && t.taken <= Offered(t.state, t.slices) && left <= |flat| && Flatten(t.slices) == flat[|flat| - left..]
    && now == PollOf(t.state, t.slices, t.taken).state && written == |flat| - left + PollOf(t.state, t.slices, t.taken).acked
  }

  predicate AllSteady(tries: seq<Try>) {
    forall i :: 0 <= i < |tries| ==> var t := tries[i]; Steady(t.state, t.slices, t.taken)
  }

  lemma OneMoreTry(st: LineState, flat: bytes, tries: seq<Try>, t: Try, written: nat)
    requires written <= |flat| && Tried(st, flat, tries, t.state, written) && Flatten(t.slices) == flat[written..]
    requires t.taken <= Offered(t.state, t.slices)
    ensures var r := PollOf(t.state, t.slices, t.taken); Tried(st, flat, tries + [t], r.state, written + r.acked)
    ensures AllSteady(tries + [t]) <==> AllSteady(tries) && Steady(t.state, t.slices, t.taken)
  {
    assert (tries + [t])[..|tries|] == tries;
    assert forall i :: 0 <= i < |tries| ==> (tries + [t])[i] == tries[i];
    assert (tries + [t])[|tries|] == t;
  }

  const TWO_LINES: seq<bytes> := [[65, CR, LF], [DOT, CR, LF]]

  /**
   Two slices, of which the inner writer first takes three bytes: the dot is not doubled
   by the next write, and the wire has an end of data in the middle of a message.
   */
  lemma SeveralSlicesGoWrong()
    ensures Offered(CrLf, TWO_LINES) == 4 && !Rebuilds(Lens(TWO_LINES), 3)
    ensures var first := PollOf(CrLf, TWO_LINES, 3);
            && first.acked == 3 && Offered(first.state, TWO_LINES[1..]) == 3
            && var second := PollOf(first.state, TWO_LINES[1..], 3);
               second.acked == 3 && Terminated(first.sent + second.sent)
  {
    var a, b: bytes := [65, CR, LF], [DOT, CR, LF];
    assert TWO_LINES[1..] == [b];
    assert Flatten([b]) == b + Flatten([]) == b && Flatten(TWO_LINES) == a + b;
    LineAfterBytes(CrLf, CR, LF);
    assert (a + b)[..3] == a && a[1..3] == [CR, LF];
    LineAfterTwo(CrLf, CrLf, a);
    NoEscapeWithoutDot(CrLf, a);
    EscapeAtIs(CrLf, a + b, 3);
    assert Lens(TWO_LINES)[0] == 3 && Lens(TWO_LINES)[1] == 3;
    FewBytes(CrLf, [b], 1);
    assert b[..1] == [DOT] && [DOT][1..] == [];
    assert UntilState(CrLf, TWO_LINES, 3) == UntilState(CrLf, [b], 1) == Start;
    PlainLine();
    EscapeAtIs(Start, b, 3);
  }

  lemma PlainLine()
    ensures NoEscape(Start, [DOT, CR, LF][..3])
  {
    var b: bytes := [DOT, CR, LF];
    assert b[..3] == b && b[1..] == [CR, LF];
    NoEscapeWithoutDot(Start, [CR, LF]);
  }

  lemma LineAfterBytes(st: LineState, a: byte, b: byte)
    ensures LineAfter(st, [a, b]) == NextLine(NextLine(st, a), b)
  {
    LineAfterTwo(st, st, [a, b]);
    assert [a, b][1..] == [b] && [b][1..] == [];
  }

  class EscapingDataWriter {
    var state: LineState
    const write: Sink

    ghost const base: bytes
    ghost var acked: bytes
    ghost var pending: bool

    ghost predicate Valid()
      reads this, write
    {
      Books(base, acked, pending, state, write.wire)
    }

    constructor (write: Sink)
      ensures Valid() && this.write == write && acked == [] && !pending && base == write.wire
    {
      this.write := write;
      state := CrLf;
      base, acked, pending := write.wire, [], false;
    }

    /** Follows the line state through one slice, `flat[at..][..|slice|]`, up to a dot that must be escaped. */
    method ScanSlice(slice: bytes, ghost st: LineState, ghost flat: bytes, ghost at: nat) returns (found: bool, i: nat)
      requires at + |slice| <= |flat| && flat[at..at + |slice|] == slice
      requires state == LineAfter(st, flat[..at]) && NoEscape(st, flat[..at])
      modifies this`state
      ensures i <= |slice| && state == LineAfter(st, flat[..at + i]) && NoEscape(st, flat[..at + i])
      ensures if found then i < |slice| && flat[at + i] == DOT && state == CrLf else i == |slice|
    {
      i := 0;
      assert forall k :: 0 <= k < |slice| ==> slice[k] == flat[at..at + |slice|][k];
      while i < |slice|
        invariant i <= |slice| && state == LineAfter(st, flat[..at + i]) && NoEscape(st, flat[..at + i])
      {
        if state == CrLf && slice[i] == DOT {
          return true, i;
        }
        PlainOneMore(st, flat, at + i);
        state := NextLine(state, slice[i]);
        i := i + 1;
      }
      found := false;
    }

    /** Follows the line state through the slices, which lie at `at` in `flat`, up to a dot that must be escaped. */
    method Scan(slices: seq<bytes>, ghost flat: bytes, ghost at: seq<nat>) returns (found: bool, b: nat, i: nat, ghost p: nat)
      requires Laid(slices, flat, at)
      modifies this`state
      ensures found ==>
                && b < |slices| && i < |slices[b]| && p == at[b] + i < |flat|
                && flat[p] == DOT && LineAfter(old(state), flat[..p]) == CrLf
      ensures !found ==> p == |flat| && state == LineAfter(old(state), flat[..p])
      ensures p <= |flat| && NoEscape(old(state), flat[..p])
    {
      ghost var st := state;
      found, b, i, p := false, 0, 0, 0;
      while b < |slices|
        invariant b <= |slices| && p == at[b] <= |flat|
        invariant state == LineAfter(st, flat[..p]) && NoEscape(st, flat[..p])
      {
        found, i := ScanSlice(slices[b], st, flat, p);
        p := p + i;
        if found {
          return;
        }
        b := b + 1;
      }
    }

    /** The slices up to and including a dot to be escaped, if there is one. */
    method Select(slices: seq<bytes>) returns (found: bool, offered: seq<bytes>)
      modifies this`state
      ensures Flatten(offered) == Flatten(slices)[..Offered(old(state), slices)] && (found <==> EscapeAt(old(state), Flatten(slices)).Some?)
      ensures !found ==> state == LineAfter(old(state), Flatten(slices))
    {
      ghost var flat, st := Flatten(slices), state;
      ghost var at := Offsets(slices);
      var b, i;
      ghost var p;
      found, b, i, p := Scan(slices, flat, at);
      EscapeAtIs(st, flat, p);
      offered := if found then slices[..b] + [slices[b][..i + 1]] else slices;
      if found { FlattenUpTo(slices, b, i + 1); }
      assert flat[..|flat|] == flat;
    }

    /** Offers the slices to the sink, up to and including a dot to be escaped; the sink takes `taken` bytes. */
    method Offer(slices: seq<bytes>) returns (n: nat, ghost taken: nat)
      modifies this`state, write
      ensures taken <= Offered(old(state), slices) && (taken == 0 ==> Flatten(slices) == [])
      ensures write.takesAll ==> taken == Offered(old(state), slices)
      ensures Poll(Flatten(slices)[..taken], n, state) == PollOf(old(state), slices, taken)
      ensures write.wire == old(write.wire) + Flatten(slices)[..taken]
    {
      ghost var flat := Flatten(slices);
      var initial := state;
      var found, offered := Select(slices);
      n := write.WriteVectored(offered);
      taken := n;
      assert Flatten(offered)[..n] == flat[..n];
      if n == |Flatten(offered)| {
        if found {
          state, n := Start, n - 1;
        }
      } else {
        state := SetStateUntil(initial, slices, n);
      }
    }

    /**
     One write. It acknowledges `n` bytes of what it is offered; when it stops before a
     dot that opens a line, the caller is to offer that dot again. The wire is right in
     any case; after a write that is not steady the line state may be wrong.
     */
    method PollWriteVectored(slices: seq<bytes>) returns (n: nat, ghost taken: nat)
      modifies this, write
      ensures taken <= Offered(old(state), slices) && n == PollOf(old(state), slices, taken).acked && state == PollOf(old(state), slices, taken).state
      ensures n <= |Flatten(slices)| && acked == old(acked) + Flatten(slices)[..n]
      ensures n == 0 && Flatten(slices) != [] ==> old(state) == CrLf && state == Start
      ensures write.takesAll || |slices| == 1 ==> Steady(old(state), slices, taken)
      ensures old(Valid()) && (old(pending) && Flatten(slices) != [] ==> Flatten(slices)[0] == DOT) ==>
                && Wired(base, acked, pending, write.wire) && (Steady(old(state), slices, taken) ==> Valid())
                && (pending ==> n == |Flatten(slices)| == 0 || (n < |Flatten(slices)| && Flatten(slices)[n] == DOT))
    {
      ghost var before, initial, past, owed := write.wire, state, acked, pending;
      ghost var flat := Flatten(slices);
      n, taken := Offer(slices);
      if |slices| == 1 { OneSliceIsSteady(initial, slices, taken); }
      ghost var dotted := taken == Offered(initial, slices) && EscapeAt(initial, flat).Some?;
      acked, pending := past + flat[..n], dotted || (owed && n == 0);
      if Books(base, past, owed, initial, before) && (owed && flat != [] ==> flat[0] == DOT) {
        BooksPoll(base, past, owed, initial, before, slices, taken);
      }
    }

    /** Offers the slices without their first `written` bytes. */
    method TryOnce(slices: seq<bytes>, written: nat) returns (n: nat, ghost t: Try)
      requires written < |Flatten(slices)|
      modifies this, write
      ensures t.state == old(state) && t.taken <= Offered(t.state, t.slices) && Flatten(t.slices) == Flatten(slices)[written..]
      ensures n == PollOf(t.state, t.slices, t.taken).acked && state == PollOf(t.state, t.slices, t.taken).state
      ensures written + n <= |Flatten(slices)| && acked == old(acked) + Flatten(slices)[written..written + n]
      ensures n == 0 ==> old(state) == CrLf && state == Start
      ensures write.takesAll || |slices| == 1 ==> Steady(t.state, t.slices, t.taken)
      ensures old(Valid()) && (old(pending) ==> Flatten(slices)[written] == DOT) && Steady(t.state, t.slices, t.taken) ==>
                Valid() && (pending ==> written + n < |Flatten(slices)| && Flatten(slices)[written + n] == DOT)
    {
      var left := RemainingSlices(slices, written);
      ghost var before, taken := state, 0;
      n, taken := PollWriteVectored(left);
      t := Try(before, left, taken);
      assert Flatten(slices)[written..][..n] == Flatten(slices)[written..written + n];
    }

    /** The writer is in order; a dot that it is ahead by is the next byte of `flat`. */
    ghost predicate InOrder(flat: bytes, written: nat)
      reads this, write
    {
      Valid() && (pending ==> written < |flat| && flat[written] == DOT)
    }

    /**
     Of the slices, `written` bytes have been acknowledged, in these tries from state `st` on.
     While the tries are steady the writer is `fine` if it was before.
     */
    ghost predicate Underway(slices: seq<bytes>, st: LineState, past: bytes, fine: bool, tries: seq<Try>, written: nat)
      reads this, write
    {
      var flat := Flatten(slices);
      && written <= |flat| && acked == past + flat[..written] && Tried(st, flat, tries, state, written)
      && (write.takesAll || |slices| == 1 ==> AllSteady(tries))
      && (fine && AllSteady(tries) ==> InOrder(flat, written))
    }

    method TryMore(slices: seq<bytes>, written: nat, ghost st: LineState, ghost past: bytes, ghost fine: bool, ghost tries: seq<Try>)
      returns (n: nat, ghost more: seq<Try>)
      requires written < |Flatten(slices)| && Underway(slices, st, past, fine, tries, written)
      modifies this, write
      ensures written + n <= |Flatten(slices)| && Underway(slices, st, past, fine, more, written + n)
      ensures n == 0 ==> old(state) == CrLf && state == Start
    {
      ghost var t;
      n, t := TryOnce(slices, written);
      ghost var flat := Flatten(slices);
      OneMoreTry(st, flat, tries, t, written);
      more := tries + [t];
      Regroup(past, flat[..written], flat[written..written + n]);
      assert flat[..written + n] == flat[..written] + flat[written..written + n];
    }

    /** Writes all of the slices, offering again what was not acknowledged. */
    method WriteAll(slices: seq<bytes>) returns (ghost tries: seq<Try>)
      modifies this, write
      ensures Tried(old(state), Flatten(slices), tries, state, |Flatten(slices)|)
      ensures write.takesAll || |slices| == 1 ==> AllSteady(tries)
      ensures old(Valid() && !pending) && AllSteady(tries) ==> Valid() && !pending && acked == old(acked) + Flatten(slices)
    {
      tries := WriteRest(slices, state, acked, Valid() && !pending);
    }

    method WriteRest(slices: seq<bytes>, ghost st: LineState, ghost past: bytes, ghost fine: bool) returns (ghost tries: seq<Try>)
      requires Underway(slices, st, past, fine, [], 0)
      modifies this, write
      ensures Underway(slices, st, past, fine, tries, |Flatten(slices)|)
    {
      var written: nat, total := 0, |Flatten(slices)|;
      tries := [];
      while written != total
        invariant written <= total && Underway(slices, st, past, fine, tries, written)
        decreases total - written, if state == CrLf then 1 else 0
      {
        var n;
        n, tries := TryMore(slices, written, st, past, fine, tries);
        written := written + n;
      }
    }

    /** Writes some bytes as they are. */
    method Put(bs: bytes)
      modifies write
      ensures write.wire == old(write.wire) + bs
    {
      var written: nat := 0;
      while written < |bs|
        invariant written <= |bs| && write.wire == old(write.wire) + bs[..written]
      {
        ghost var before := write.wire;
        var offered := [bs[written..]];
        assert Flatten(offered) == bs[written..] + Flatten([]) == bs[written..];
        var n := write.WriteVectored(offered);
        Regroup(old(write.wire), bs[..written], bs[written..][..n]);
        assert bs[..written + n] == bs[..written] + bs[written..][..n];
        written := written + n;
      }
      assert bs[..written] == bs;
    }

    /** Ends the message. */
    method Finish()
      modifies write
      ensures old(Valid() && !pending) ==> write.wire == base + Wire(acked)
    {
      var closing := if state == CrLf then [DOT, CR, LF] else [CR, LF, DOT, CR, LF];
      Put(closing);
      if old(Valid() && !pending) {
        assert closing == Closing(LineAfter(CrLf, acked));
        assert Stuff(CrLf, acked) + [] == Stuff(CrLf, acked);
        Regroup(base, Stuff(CrLf, acked), closing);
      }
    }
  }

  /** The slices lie one after the other in `flat`, each at its place. */
  ghost predicate Laid(slices: seq<bytes>, flat: bytes, at: seq<nat>) {
    && |at| == |slices| + 1 && at[0] == 0 && at[|slices|] == |flat|
    && forall b {:trigger slices[b]} :: 0 <= b < |slices| ==>
         at[b] + |slices[b]| == at[b + 1] <= |flat| && flat[at[b]..at[b] + |slices[b]|] == slices[b]
  }

  lemma Offsets(slices: seq<bytes>) returns (at: seq<nat>)
    ensures Laid(slices, Flatten(slices), at) && forall b :: 0 <= b <= |slices| ==> at[b] == |Flatten(slices[..b])|
  {
    at := seq(|slices| + 1, b requires 0 <= b <= |slices| => |Flatten(slices[..b])|);
    assert slices[..|slices|] == slices;
    forall b {:trigger slices[b]} | 0 <= b < |slices|
      ensures at[b] + |slices[b]| == at[b + 1] <= |Flatten(slices)| && Flatten(slices)[at[b]..at[b] + |slices[b]|] == slices[b]
    {
      SliceAt(slices, b);
    }
  }

  /** Where a slice is in the whole. */
  lemma SliceAt(slices: seq<bytes>, b: nat)
    requires b < |slices|
    ensures |Flatten(slices[..b + 1])| == |Flatten(slices[..b])| + |slices[b]| <= |Flatten(slices)|
    ensures Flatten(slices)[|Flatten(slices[..b])|..|Flatten(slices[..b])| + |slices[b]|] == slices[b]
  {
    FlattenSnoc(slices, b);
    FlattenCut(slices, b + 1);
  }

  lemma FlattenUpTo(slices: seq<bytes>, b: nat, i: nat)
    requires b < |slices| && i <= |slices[b]|
    ensures |Flatten(slices[..b])| + i <= |Flatten(slices)|
    ensures Flatten(slices[..b] + [slices[b][..i]]) == Flatten(slices)[..|Flatten(slices[..b])| + i]
  {
    FlattenCut(slices, b);
    assert slices[b..][0] == slices[b];
    FlattenAppend(slices[..b], [slices[b][..i]]);
    assert Flatten([slices[b][..i]]) == slices[b][..i] + Flatten([]);
  }

  /** The slices without their first `written` bytes. */
  method RemainingSlices(slices: seq<bytes>, written: nat) returns (left: seq<bytes>)
    requires written < |Flatten(slices)|
    ensures Flatten(left) == Flatten(slices)[written..]
    ensures |slices| == 1 ==> |left| == 1
  {
    left := [];
    var skipped: nat := 0;
    for k := 0 to |slices|
      invariant skipped <= written
      invariant left == [] ==> skipped == |Flatten(slices[..k])|
      invariant left != [] ==> skipped == written <= |Flatten(slices[..k])|
      invariant Flatten(left) == if left == [] then [] else Flatten(slices[..k])[written..]
      invariant |left| <= k
    {
      FlattenSnoc(slices, k);
      var s := slices[k];
      if skipped + |s| <= written {
        skipped := skipped + |s|;
      } else {
        var part := s[written - skipped..];
        FlattenAppend(left, [part]);
        assert Flatten([part]) == part + Flatten([]);
        left, skipped := left + [part], written;
      }
    }
    assert slices[..|slices|] == slices;
  }
}
