/**
 The line state that the writer rebuilds after a short write. The source looks only at
 two bytes of a slice and does not count those that it skips before them, so over several
 slices it may go past the end of what was written. Here is exactly when it does not.
 */
module WriterState {
  import opened Bytes
  import opened DataFormat
  import opened Streams

  function SaturatingSub(a: nat, b: nat): nat { if a < b then 0 else a - b }

  /**
   What the source computes for the line state after `left` bytes of the slices: it looks
   only at two bytes of a slice, and does not count those that it skips before them.
   */
  function UntilState(state: LineState, slices: seq<bytes>, left: nat): LineState
    decreases |slices|
  {
    if slices == [] then state
    else
      var buf := slices[0];
      if SaturatingSub(left, 2) > |buf| then UntilState(Start, slices[1..], left - |buf|)
      else
        var from, hi := SaturatingSub(left, 2), Min(|buf|, left);
        var state1 := LineAfter(state, buf[from..hi]);
        if left - (hi - from) == 0 then state1 else UntilState(state1, slices[1..], left - (hi - from))
  }

  method SetStateUntil(initial: LineState, slices: seq<bytes>, n: nat) returns (state: LineState)
    ensures state == UntilState(initial, slices, n)
  {
    state := initial;
    var left: nat, b := n, 0;
    assert slices[0..] == slices;
    while b < |slices|
      invariant b <= |slices| && UntilState(initial, slices, n) == UntilState(state, slices[b..], left)
    {
      var buf := slices[b];
      assert slices[b..][0] == buf && slices[b..][1..] == slices[b + 1..];
      if SaturatingSub(left, 2) > |buf| {
        left, state := left - |buf|, Start;
      } else {
        state, left := FollowState(state, buf, SaturatingSub(left, 2), Min(|buf|, left), left);
        if left == 0 {
          return;
        }
      }
      b := b + 1;
    }
  }

  method FollowState(before: LineState, buf: bytes, from: nat, hi: nat, n: nat) returns (state: LineState, left: nat)
    requires from <= hi <= |buf| && hi - from <= n
    ensures state == LineAfter(before, buf[from..hi]) && left == n - (hi - from)
  {
    var i := from;
    state, left := before, n;
    while i < hi
      invariant from <= i <= hi && left == n - (i - from)
      invariant state == LineAfter(before, buf[from..i])
    {
      assert buf[from..i + 1] == buf[from..i] + [buf[i]];
      LineAfterAppend(before, buf[from..i], [buf[i]]);
      state := NextLine(state, buf[i]);
      left, i := left - 1, i + 1;
    }
  }

  // ------------------------------------------------------------------ when it is right

  function Lens(slices: seq<bytes>): (r: seq<nat>)
    ensures |r| == |slices|
  {
    seq(|slices|, i requires 0 <= i < |slices| => |slices[i]|)
  }

  /**
   A short write of `n` bytes is harmless for slices of these lengths: it ends in the
   first two bytes, or after the whole of every slice but the last and at least three
   bytes more, or the slices after the one where it ends are just as long as the bytes
   that are wrongly passed over in them.
   */
  predicate Rebuilds(lens: seq<nat>, n: nat)
    decreases |lens|
  {
    || n <= 2
    || (lens != [] &&
        if n - 2 > lens[0] then Rebuilds(lens[1..], n - lens[0])
        else n <= lens[0] && forall i :: 0 < i < |lens| ==> lens[i] == SaturatingSub(n, 4))
  }

  lemma LastTwo(st: LineState, s: bytes)
    requires |s| >= 2
    ensures LineAfter(st, s[|s| - 2..]) == LineAfter(st, s)
  {
    LineAfterTwo(st, st, s);
    LineAfterTwo(st, st, s[|s| - 2..]);
  }

  /** A slice that is just as long as what is passed over in it does nothing. */
  lemma {:induction false} IdleSlices(st: LineState, slices: seq<bytes>, left: nat)
    requires left > 0 && forall i :: 0 <= i < |slices| ==> |slices[i]| == SaturatingSub(left, 2)
    ensures UntilState(st, slices, left) == st
    decreases |slices|
  {
    if slices != [] { IdleSlices(st, slices[1..], left); }
  }

  lemma {:induction false} FewBytes(st: LineState, slices: seq<bytes>, n: nat)
    requires n <= 2 && n <= |Flatten(slices)|
    ensures UntilState(st, slices, n) == LineAfter(st, Flatten(slices)[..n])
    decreases |slices|
  {
    if slices != [] {
      var b, rest := slices[0], Flatten(slices[1..]);
      var hi := Min(|b|, n);
      assert b[0..hi] == b[..hi];
      if n <= |b| {
        assert (b + rest)[..n] == b[..n];
      } else {
        assert (b + rest)[..n] == b + rest[..n - |b|] && b[..hi] == b;
        LineAfterAppend(st, b, rest[..n - |b|]);
        FewBytes(LineAfter(st, b), slices[1..], n - |b|);
      }
    }
  }

  /** The state after bytes of which at least two follow `b`. */
  lemma AfterSkipped(st: LineState, b: bytes, s: bytes)
    requires |s| >= 2
    ensures LineAfter(st, b + s) == LineAfter(Start, s)
  {
    LineAfterTwo(st, Start, b + s);
    LineAfterTwo(Start, Start, s);
  }

  lemma {:induction false} RebuiltIsRight(st: LineState, slices: seq<bytes>, n: nat)
    requires n <= |Flatten(slices)| && Rebuilds(Lens(slices), n)
    ensures UntilState(st, slices, n) == LineAfter(st, Flatten(slices)[..n])
    decreases |slices|
  {
    if n <= 2 {
      FewBytes(st, slices, n);
    } else {
      var b, rest := slices[0], Flatten(slices[1..]);
      assert Lens(slices)[1..] == Lens(slices[1..]);
      if n - 2 > |b| {
        RebuiltIsRight(Start, slices[1..], n - |b|);
        assert (b + rest)[..n] == b + rest[..n - |b|];
        AfterSkipped(st, b, rest[..n - |b|]);
      } else {
        forall i | 0 <= i < |slices[1..]| ensures |slices[1..][i]| == SaturatingSub(n - 2, 2) {
          assert Lens(slices)[i + 1] == |slices[i + 1]|;
        }
        IdleSlices(LineAfter(st, b[n - 2..n]), slices[1..], n - 2);
        assert (b + rest)[..n] == b[..n] && b[n - 2..n] == b[..n][n - 2..];
        LastTwo(st, b[..n]);
      }
    }
  }

  // ------------------------------------------------------------------ when it is wrong

  predicate NoCr(s: bytes) { forall i :: 0 <= i < |s| ==> s[i] != CR }

  /** Neither CR nor LF. */
  predicate Plain(s: bytes) { forall i :: 0 <= i < |s| ==> s[i] != CR && s[i] != LF }

  lemma {:induction false} NoCrRun(s: bytes)
    requires NoCr(s)
    ensures LineAfter(Start, s) == Start
    decreases |s|
  {
    if s != [] { NoCrRun(s[1..]); }
  }

  lemma PlainRun(st: LineState, s: bytes)
    requires Plain(s)
    ensures LineAfter(st, s) == if s == [] then st else Start
  {
    if s != [] { NoCrRun(s[1..]); }
  }

  lemma PlainConcat(a: bytes, b: bytes)
    ensures Plain(a + b) <==> Plain(a) && Plain(b)
  {
    if Plain(a + b) {
      forall i | 0 <= i < |a| ensures a[i] != CR && a[i] != LF { assert (a + b)[i] == a[i]; }
      forall i | 0 <= i < |b| ensures b[i] != CR && b[i] != LF { assert (a + b)[|a| + i] == b[i]; }
    }
  }

  lemma NoCrConcat(a: bytes, b: bytes)
    ensures NoCr(a + b) <==> NoCr(a) && NoCr(b)
  {
    if NoCr(a + b) {
      forall i | 0 <= i < |a| ensures a[i] != CR { assert (a + b)[i] == a[i]; }
      forall i | 0 <= i < |b| ensures b[i] != CR { assert (a + b)[|a| + i] == b[i]; }
    }
  }

  /** One slice of the loop: the state after it and what is left. */
  function SliceState(st: LineState, buf: bytes, left: nat): (LineState, nat) {
    if SaturatingSub(left, 2) > |buf| then (Start, left - |buf|)
    else
      var from, hi := SaturatingSub(left, 2), Min(|buf|, left);
      (LineAfter(st, buf[from..hi]), left - (hi - from))
  }

  lemma UntilStep(st: LineState, slices: seq<bytes>, left: nat)
    requires slices != []
    ensures var (st1, left1) := SliceState(st, slices[0], left);
            UntilState(st, slices, left) == if left1 == 0 then st1 else UntilState(st1, slices[1..], left1)
  { }

  lemma {:induction false} NoCrStays(slices: seq<bytes>, left: nat)
    requires NoCr(Flatten(slices))
    ensures UntilState(Start, slices, left) == Start
    decreases |slices|
  {
    if slices != [] {
      NoCrConcat(slices[0], Flatten(slices[1..]));
      UntilStep(Start, slices, left);
      var from, hi := SaturatingSub(left, 2), Min(|slices[0]|, left);
      if from <= |slices[0]| { NoCrRun(slices[0][from..hi]); }
      NoCrStays(slices[1..], SliceState(Start, slices[0], left).1);
    }
  }

  lemma PlainNoCr(s: bytes)
    requires Plain(s)
    ensures NoCr(s)
  { }

  /** Plain slices either do nothing or bring the state to the middle of a line. */
  lemma {:induction false} PlainSlices(st: LineState, slices: seq<bytes>, left: nat)
    requires left > 0 && Plain(Flatten(slices))
    ensures UntilState(st, slices, left) == st || UntilState(st, slices, left) == Start
    ensures (exists i :: 0 <= i < |slices| && |slices[i]| != SaturatingSub(left, 2)) ==> UntilState(st, slices, left) == Start
    decreases |slices|
  {
    if slices != [] {
      PlainConcat(slices[0], Flatten(slices[1..]));
      UntilStep(st, slices, left);
      var from := SaturatingSub(left, 2);
      if |slices[0]| == from {
        PlainSlices(st, slices[1..], left);
        if i :| 0 <= i < |slices| && |slices[i]| != from { assert |slices[1..][i - 1]| != from; }
      } else {
        PlainSlice(st, slices[0], left);
        PlainNoCr(Flatten(slices[1..]));
        NoCrStays(slices[1..], SliceState(st, slices[0], left).1);
      }
    }
  }

  lemma PlainSlice(st: LineState, c: bytes, left: nat)
    requires left > 0 && Plain(c) && |c| != SaturatingSub(left, 2)
    ensures SliceState(st, c, left).0 == Start
  {
    var from, hi := SaturatingSub(left, 2), Min(|c|, left);
    if from < |c| { PlainRun(st, c[from..hi]); }
  }

  /** The write ended between CR and LF of the slices: the LF is missed, or something after it is not. */
  lemma {:induction false} LfMissed(st: LineState, slices: seq<bytes>, left: nat)
    requires st != CrLf && left >= 2
    requires var flat := Flatten(slices); |flat| >= 2 && flat[0] == LF && Plain(flat[1..])
    ensures UntilState(st, slices, left) != CrLf
    decreases |slices|
  {
    UntilStep(st, slices, left);
    var c, rest := slices[0], Flatten(slices[1..]);
    if c == [] {
      assert Flatten(slices) == rest;
      LfMissed(SliceState(st, c, left).0, slices[1..], left);
    } else {
      assert Flatten(slices)[1..] == c[1..] + rest;
      PlainConcat(c[1..], rest);
      LfSlice(st, c, slices[1..], left);
    }
  }

  lemma LfSlice(st: LineState, c: bytes, more: seq<bytes>, left: nat)
    requires st != CrLf && left >= 2 && c != [] && c[0] == LF && |c| + |Flatten(more)| >= 2
    requires Plain(c[1..]) && Plain(Flatten(more))
    ensures var (st1, left1) := SliceState(st, c, left); (if left1 == 0 then st1 else UntilState(st1, more, left1)) != CrLf
  {
    var (st1, left1) := SliceState(st, c, left);
    var from, hi := SaturatingSub(left, 2), Min(|c|, left);
    if from > |c| {
      PlainSlices(Start, more, left1);
    } else if from > 0 {
      assert c[from..hi] == c[1..][from - 1..hi - 1];
      PlainRun(st, c[from..hi]);
      if left1 > 0 { PlainSlices(st1, more, left1); }
    } else if |c| >= 2 {
      assert c[1] == c[1..][0];
      LineAfterTwo(st, st, c[0..2]);
    } else {
      SomeNotEmpty(more);
      PlainSlices(st1, more, 1);
    }
  }

  lemma {:induction false} SomeNotEmpty(slices: seq<bytes>)
    requires Flatten(slices) != []
    ensures exists i :: 0 <= i < |slices| && |slices[i]| != 0
    decreases |slices|
  {
    if slices[0] == [] {
      SomeNotEmpty(slices[1..]);
      var i :| 0 <= i < |slices[1..]| && |slices[1..][i]| != 0;
      assert |slices[i + 1]| != 0;
    }
  }

  /** The CR is passed over, so the LF does not count. */
  lemma {:induction false} CrMissed(slices: seq<bytes>, left: nat)
    requires left >= 3
    requires var flat := Flatten(slices); |flat| >= 2 && flat[0] == CR && NoCr(flat[1..])
    ensures UntilState(Start, slices, left) != CrLf
    decreases |slices|
  {
    UntilStep(Start, slices, left);
    var c, rest := slices[0], Flatten(slices[1..]);
    if c == [] {
      assert Flatten(slices) == rest;
      CrMissed(slices[1..], left);
    } else {
      assert Flatten(slices)[1..] == c[1..] + rest;
      NoCrConcat(c[1..], rest);
      CrPassedOver(c, left);
      NoCrStays(slices[1..], SliceState(Start, c, left).1);
    }
  }

  lemma CrPassedOver(c: bytes, left: nat)
    requires left >= 3 && c != [] && NoCr(c[1..])
    ensures SliceState(Start, c, left).0 == Start
  {
    var from, hi := SaturatingSub(left, 2), Min(|c|, left);
    if from <= |c| {
      assert c[from..hi] == c[1..][from - 1..hi - 1];
      NoCrRun(c[from..hi]);
    }
  }

  /** A line ends at `n`, and neither CR nor LF is anywhere else. */
  predicate LineEndsAt(s: bytes, n: nat) {
    && 2 <= n <= |s| && s[n - 2] == CR && s[n - 1] == LF
    && forall i :: 0 <= i < |s| && i != n - 2 && i != n - 1 ==> s[i] != CR && s[i] != LF
  }

  lemma AfterFirstSlice(b: bytes, rest: bytes, n: nat)
    requires LineEndsAt(b + rest, n)
    ensures forall i :: 0 <= i < |rest| ==> (b + rest)[|b| + i] == rest[i]
    ensures forall i :: 0 <= i < |b| ==> (b + rest)[i] == b[i]
    ensures n - 2 >= |b| ==> LineEndsAt(rest, n - |b|)
  { }

  lemma {:induction false} NotRebuilt(slices: seq<bytes>, n: nat)
    requires LineEndsAt(Flatten(slices), n) && n < |Flatten(slices)| && !Rebuilds(Lens(slices), n)
    ensures UntilState(Start, slices, n) != CrLf
    decreases |slices|
  {
    var b, rest := slices[0], Flatten(slices[1..]);
    assert Lens(slices)[1..] == Lens(slices[1..]);
    AfterFirstSlice(b, rest, n);
    UntilStep(Start, slices, n);
    if n - 2 > |b| {
      NotRebuilt(slices[1..], n - |b|);
    } else if n - 2 == |b| {
      assert b[n - 2..n - 2] == [];
      CrMissed(slices[1..], n);
    } else if n - 1 == |b| {
      assert b[n - 2..n - 1] == [CR] && [CR][1..] == [];
      assert SliceState(Start, b, n) == (LineAfter(Start, [CR]), n - 1) && LineAfter(Start, [CR]) == Cr;
      LfMissed(Cr, slices[1..], n - 1);
    } else {
      var i :| 0 < i < |slices| && Lens(slices)[i] != SaturatingSub(n, 4);
      assert |slices[1..][i - 1]| != SaturatingSub(n - 2, 2);
      PlainSlices(LineAfter(Start, b[n - 2..n]), slices[1..], n - 2);
    }
  }

  // ------------------------------------------------------------------ exactly when

  /** As long as `size`: a line that ends after `n` bytes, and a dot after it. */
  function LineThenDot(n: nat, size: nat): (s: bytes)
    requires 2 <= n < size
    ensures |s| == size && LineEndsAt(s, n) && s[n] == DOT
  {
    seq(size, i => if i == n - 2 then CR else if i == n - 1 then LF else if i == n then DOT else 65)
  }

  lemma {:induction false} NoEscapeWithoutDot(st: LineState, s: bytes)
    requires forall i :: 0 <= i < |s| ==> s[i] != DOT
    ensures NoEscape(st, s)
    decreases |s|
  {
    if s != [] { NoEscapeWithoutDot(NextLine(st, s[0]), s[1..]); }
  }

  /** For every other shape there are contents with which a dot that opens a line follows and the state does not tell. */
  lemma DotLost(shape: seq<bytes>, n: nat) returns (slices: seq<bytes>)
    requires n < |Flatten(shape)| && !Rebuilds(Lens(shape), n)
    ensures SameShape(shape, slices) && |Flatten(slices)| == |Flatten(shape)| && NoEscape(Start, Flatten(slices)[..n])
    ensures Flatten(slices)[n] == DOT && LineAfter(Start, Flatten(slices)[..n]) == CrLf
    ensures UntilState(Start, slices, n) != CrLf
  {
    var s := LineThenDot(n, |Flatten(shape)|);
    slices := Fill(shape, s);
    FillFlat(shape, s);
    assert Flatten(slices) == s by { assert Flatten(slices)[..|s|] == Flatten(slices); }
    assert Lens(slices) == Lens(shape);
    NotRebuilt(slices, n);
    LineAfterTwo(Start, Start, s[..n]);
    NoEscapeWithoutDot(Start, s[..n]);
  }

  ghost predicate AlwaysRebuilt(shape: seq<bytes>, n: nat) {
    forall st: LineState, slices: seq<bytes> {:trigger UntilState(st, slices, n)} ::
      SameShape(shape, slices) && n <= |Flatten(slices)| && NoEscape(st, Flatten(slices)[..n]) ==>
        UntilState(st, slices, n) == LineAfter(st, Flatten(slices)[..n])
  }

  /** After a short write of `n` bytes the state is right for all contents of the slices if and only if their lengths allow it. */
  lemma RebuiltIff(shape: seq<bytes>, n: nat)
    requires n < |Flatten(shape)|
    ensures AlwaysRebuilt(shape, n) <==> Rebuilds(Lens(shape), n)
  {
    if Rebuilds(Lens(shape), n) {
      forall st: LineState, slices: seq<bytes> | SameShape(shape, slices) && n <= |Flatten(slices)|
        ensures UntilState(st, slices, n) == LineAfter(st, Flatten(slices)[..n])
      {
        assert Lens(slices) == Lens(shape);
        RebuiltIsRight(st, slices, n);
      }
    } else {
      var slices := DotLost(shape, n);
      assert UntilState(Start, slices, n) != LineAfter(Start, Flatten(slices)[..n]);
    }
  }
}
