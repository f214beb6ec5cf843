/** The incremental reader that finds the end of a DATA stream. */
module DataReader {
  import opened Bytes
  import opened DataFormat
  import opened Streams

  datatype ReadResult = ReadOk(n: nat) | ConnectionAborted

  lemma {:induction false} ScanEndAppend(st: ScanState, a: bytes, b: bytes)
    requires ScanEnd(st, a) == None
    ensures ScanAfter(st, a) != AtEnd
    ensures ScanEnd(st, a + b) ==
            match ScanEnd(ScanAfter(st, a), b) { case Some(n) => Some(|a| + n) case None => None }
    decreases |a|
  {
    if a == [] {
      assert a + b == b;
    } else {
      assert (a + b)[1..] == a[1..] + b;
      ScanEndAppend(NextScan(st, a[0]), a[1..], b);
    }
  }

  /** One more byte scanned, in a stream `flat` scanned up to `k`. */
  lemma ScanOneMore(st: ScanState, flat: bytes, k: nat)
    requires k < |flat| && ScanEnd(st, flat[..k]) == None
    ensures ScanAfter(st, flat[..k + 1]) == NextScan(ScanAfter(st, flat[..k]), flat[k])
    ensures ScanEnd(st, flat[..k + 1]) ==
            if NextScan(ScanAfter(st, flat[..k]), flat[k]) == AtEnd then Some(k + 1) else None
  {
    var st1 := ScanAfter(st, flat[..k]);
    assert flat[..k + 1] == flat[..k] + [flat[k]];
    ScanAfterAppend(st, flat[..k], [flat[k]]);
    ScanEndAppend(st, flat[..k], [flat[k]]);
    assert [flat[k]][1..] == [];
    assert ScanEnd(st1, [flat[k]]) == match ScanEnd(NextScan(st1, flat[k]), []) { case Some(n) => Some(n + 1) case None => None };
  }

  lemma WindowSplit(a: array<byte>, i: nat, j: nat, k: nat)
    requires i <= j <= k <= a.Length
    ensures a[i..k] == a[i..j] + a[j..k]
  { }

  lemma FlattenFrom(slices: seq<bytes>, b: nat, i: nat)
    requires b < |slices| && i <= |slices[b]|
    ensures |Flatten(slices[..b])| + |slices[b]| <= |Flatten(slices)|
    ensures Flatten(slices)[|Flatten(slices[..b])| + i..] == Flatten([slices[b][i..]] + slices[b + 1..])
  {
    FlattenCut(slices, b);
    assert slices[b..][0] == slices[b] && slices[b..][1..] == slices[b + 1..];
    var parts := [slices[b][i..]] + slices[b + 1..];
    assert parts[0] == slices[b][i..] && parts[1..] == slices[b + 1..];
  }

  lemma FlattenMore(flat: bytes, part: bytes, n: nat, m: nat)
    requires n <= |flat| && m <= |part| && (m > 0 ==> n == |flat|)
    ensures (flat + part)[..n + m] == flat[..n] + part[..m]
  { }

  /** `a[at..]` overwritten by `src`. */
  method CopyInto(a: array<byte>, at: nat, src: bytes)
    requires at + |src| <= a.Length
    modifies a
    ensures a[at..at + |src|] == src && a[..at + |src|] == old(a[..at]) + src
    ensures a[..at] == old(a[..at]) && a[at + |src|..] == old(a[at + |src|..])
  {
    forall k | 0 <= k < |src| {
      a[at + k] := src[k];
    }
  }

  class EscapedDataReader {
    const buf: array<byte>
    var start: nat
    var end: nat
    var state: ScanState
    var completed: bool
    const read: Source

    /** The whole stream from the creation of the reader on, and the part of it already returned. */
    ghost const stream: bytes
    ghost var returned: bytes

    ghost predicate Valid()
      reads this, buf, read
    {
      && start <= end <= buf.Length
      && Books(stream, returned, Rest(), state)
      && (completed ==> state == AtEnd)
    }

    /** What the reader has not returned: the unhandled part of the buffer, then the unread stream. */
    ghost function Rest(): bytes
      reads this, buf, read
    {
      if start <= end <= buf.Length then buf[start..end] + read.unread else []
    }

    constructor (buf: array<byte>, start: nat, end: nat, read: Source)
      requires start <= end <= buf.Length
      ensures Valid() && state == AtCrLf && !completed
      ensures this.buf == buf && this.read == read && this.start == start && this.end == end
      ensures returned == [] && stream == buf[start..end] + read.unread
    {
      this.buf, this.start, this.end, this.read := buf, start, end, read;
      state, completed := AtCrLf, false;
      returned, stream := [], buf[start..end] + read.unread;
    }

    /** Once finished, what was returned is exactly the data of the stream, and the rest is untouched. */
    lemma FinishedAtDataEnd()
      requires Valid()
      ensures state == AtEnd ==> IsDataEnd(stream, |returned|) && stream[..|returned|] == returned && stream[|returned|..] == Rest()
      ensures state != AtEnd ==> forall n: nat :: n <= |returned| ==> !IsDataEnd(stream, n)
    {
      assert stream[..|returned|] == returned && stream[|returned|..] == Rest();
      if state == AtEnd {
        ScanEndIsFirst(AtCrLf, returned, |returned|);
        assert returned[..|returned|] == returned;
        assert forall k: nat :: k <= |returned| ==> stream[..k] == returned[..k];
        ScanEndIsFirst(AtCrLf, stream, |returned|);
        ScanEndIsDataEnd(stream, |returned|);
      } else {
        ScanEndAppend(AtCrLf, returned, Rest());
        DecodeTailIsScanEnd(ScanAfter(AtCrLf, returned), Rest());
        forall n: nat | n <= |returned| ensures !IsDataEnd(stream, n) {
          ScanEndIsDataEnd(stream, n);
          if n == |returned| { ScanEndNotZero(state, Rest()); }
        }
      }
    }

    predicate IsFinished()
      reads this
    {
      state == AtEnd
    }

    method Complete()
      requires Valid() && IsFinished()
      modifies this`completed
      ensures Valid() && completed
    {
      completed := true;
    }

    method GetUnhandled() returns (r: Option<(nat, nat)>)
      requires Valid()
      ensures r.Some? <==> completed
      ensures r.Some? ==> r.value == (start, end)
    {
      r := if completed then Some((start, end)) else None;
    }

    /** Moves bytes from the unhandled window to the slices; `size` of them. */
    method TakeUnhandled(slices: seq<bytes>) returns (filled: seq<bytes>, size: nat)
      requires start <= end <= buf.Length
      modifies this`start
      ensures SameShape(slices, filled)
      ensures size == Min(end - old(start), |Flatten(slices)|) && start == old(start) + size
      ensures size <= |Flatten(filled)| == |Flatten(slices)|
      ensures Flatten(filled)[..size] == buf[old(start)..start]
      ensures buf[old(start)..end] == Flatten(filled)[..size] + buf[start..end]
    {
      var lenStart := end - start;
      filled := [];
      for b := 0 to |slices|
        invariant |filled| == b && forall i :: 0 <= i < b ==> |filled[i]| == |slices[i]|
        invariant old(start) <= start <= end
        invariant |Flatten(filled)| == |Flatten(slices[..b])|
        invariant start - old(start) == Min(end - old(start), |Flatten(slices[..b])|)
        invariant Flatten(filled)[..start - old(start)] == buf[old(start)..start]
      {
        var copyLen := Min(|slices[b]|, end - start);
        var nextStart := start + copyLen;
        var slice := buf[start..nextStart] + slices[b][copyLen..];
        FlattenAppend(filled, [slice]);
        FlattenSnoc(slices, b);
        assert Flatten([slice]) == slice;
        assert buf[old(start)..nextStart] == buf[old(start)..start] + buf[start..nextStart];
        filled := filled + [slice];
        start := nextStart;
      }
      assert slices[..|slices|] == slices;
      size := lenStart - (end - start);
      WindowSplit(buf, old(start), start, end);
    }

    /** Moves the first `n` bytes of some slices to the head of the buffer. */
    method CopyBack(parts: seq<bytes>, n: nat)
      requires n <= |Flatten(parts)| && n <= buf.Length
      modifies this`start, this`end, buf
      ensures start == 0 && end == n && buf[..n] == Flatten(parts)[..n]
    {
      var copied := 0;
      for c := 0 to |parts|
        invariant copied == Min(|Flatten(parts[..c])|, n)
        invariant buf[..copied] == Flatten(parts[..c])[..copied]
      {
        var remaining := Min(|parts[c]|, n - copied);
        FlattenSnoc(parts, c);
        FlattenMore(Flatten(parts[..c]), parts[c], copied, remaining);
        CopyInto(buf, copied, parts[c][..remaining]);
        copied := copied + remaining;
      }
      assert parts[..|parts|] == parts;
      start, end := 0, copied;
    }

    /** Scans the first `len` bytes of a slice, `flat[at..][..len]`, up to byte `i` if the data ends there. */
    method ScanSlice(slice: bytes, len: nat, ghost st: ScanState, ghost flat: bytes, ghost at: nat) returns (i: nat)
      requires len <= |slice| && at + len <= |flat| && flat[at..at + len] == slice[..len]
      requires state == ScanAfter(st, flat[..at]) && state != AtEnd && ScanEnd(st, flat[..at]) == None
      modifies this`state
      ensures i <= len
      ensures state == AtEnd ==>
                i < len && state == ScanAfter(st, flat[..at + i + 1]) && ScanEnd(st, flat[..at + i + 1]) == Some(at + i + 1)
      ensures state != AtEnd ==> i == len && state == ScanAfter(st, flat[..at + i]) && ScanEnd(st, flat[..at + i]) == None
    {
      i := 0;
      assert forall k :: 0 <= k < len ==> slice[k] == flat[at..at + len][k];
      while i < len
        invariant i <= len && state == ScanAfter(st, flat[..at + i]) && state != AtEnd && ScanEnd(st, flat[..at + i]) == None
      {
        ScanOneMore(st, flat, at + i);
        state := NextScan(state, slice[i]);
        if state == AtEnd {
          return;
        }
        i := i + 1;
      }
    }

    /** Scans the first `raw` bytes of the slices, up to byte `i` of slice `b` if the data ends there. */
    method Scan(slices: seq<bytes>, raw: nat) returns (size: nat, b: nat, i: nat)
      requires state != AtEnd && raw <= |Flatten(slices)|
      modifies this`state
      ensures size <= raw
      ensures state == ScanAfter(old(state), Flatten(slices)[..size])
      ensures state == AtEnd ==>
                && ScanEnd(old(state), Flatten(slices)[..size]) == Some(size)
                && b < |slices| && i < |slices[b]| && size == |Flatten(slices[..b])| + i + 1
      ensures state != AtEnd ==> size == raw && ScanEnd(old(state), Flatten(slices)[..size]) == None
    {
      ghost var flat := Flatten(slices);
      ghost var st := state;
      size, b, i := 0, 0, 0;
      assert flat[..0] == [];
      while b < |slices|
        invariant b <= |slices| && size == Min(|Flatten(slices[..b])|, raw)
        invariant state == ScanAfter(st, flat[..size]) && state != AtEnd
        invariant ScanEnd(st, flat[..size]) == None
      {
        var len := Min(|slices[b]|, raw - size);
        SliceStart(slices, b, size, len);
        i := ScanSlice(slices[b], len, st, flat, size);
        if state == AtEnd {
          size := size + i + 1;
          return;
        }
        size := size + len;
        b := b + 1;
      }
      assert slices[..|slices|] == slices;
    }

    /** Fills the slices from the unhandled window if there is one, else from the stream. */
    method FillSlices(slices: seq<bytes>) returns (filled: seq<bytes>, raw: nat)
      requires start <= end <= buf.Length
      modifies this`start, read
      ensures SameShape(slices, filled) && raw <= |Flatten(filled)| == |Flatten(slices)|
      ensures start <= end && old(Rest()) == Flatten(filled)[..raw] + Rest()
      ensures start < end ==> raw <= start && buf[start - raw..start] == Flatten(filled)[..raw]
      ensures raw == 0 <==> Flatten(slices) == [] || old(Rest()) == []
      ensures raw == 0 ==> Rest() == old(Rest())
    {
      if end - start > 0 {
        filled, raw := TakeUnhandled(slices);
        Regroup(Flatten(filled)[..raw], buf[start..end], read.unread);
      } else {
        filled, raw := read.ReadVectored(slices);
      }
    }

    /** The first `n` bytes of `parts` go back before the rest: where they came from, or into the buffer. */
    method GiveBack(parts: seq<bytes>, n: nat)
      requires start <= end <= buf.Length
      requires n <= |Flatten(parts)| && n <= buf.Length
      requires start < end ==> n <= start && buf[start - n..start] == Flatten(parts)[..n]
      modifies this`start, this`end, buf
      ensures start <= end <= buf.Length
      ensures Rest() == Flatten(parts)[..n] + old(Rest())
    {
      if start == end {
        CopyBack(parts, n);
      } else {
        StepBack(n);
      }
    }

    method StepBack(n: nat)
      requires n <= start <= end <= buf.Length
      modifies this`start
      ensures start == old(start) - n && Rest() == buf[start..old(start)] + old(Rest())
    {
      ghost var was := Rest();
      WindowSplit(buf, start - n, start, end);
      Regroup(buf[start - n..start], buf[start..end], read.unread);
      ghost var now := buf[start - n..end] + read.unread;
      assert now == buf[start - n..start] + was;
      start := start - n;
      assert Rest() == now;
    }

    /** Gives back the `raw` bytes of `flat` but the first `size`. */
    method PutBack(parts: seq<bytes>, ghost flat: bytes, size: nat, raw: nat)
      requires start <= end <= buf.Length && size <= raw <= |flat| && raw <= buf.Length && Flatten(parts) == flat[size..]
      requires start < end ==> raw <= start && buf[start - raw..start] == flat[..raw]
      modifies this`start, this`end, buf
      ensures start <= end <= buf.Length
      ensures flat[..raw] + old(Rest()) == flat[..size] + Rest()
    {
      if start < end { TailOfWindow(buf[..], start, flat, size, raw); }
      assert flat[size..][..raw - size] == flat[size..raw];
      GiveBack(parts, raw - size);
      SplitRest(flat, size, raw, old(Rest()), Rest());
    }

    /** Looks for the end of data in the `raw` bytes just taken from the stream, and gives back what is after it. */
    method FindEnd(filled: seq<bytes>, raw: nat) returns (size: nat)
      requires start <= end <= buf.Length && state != AtEnd
      requires raw <= |Flatten(filled)| && raw <= buf.Length
      requires start < end ==> raw <= start && buf[start - raw..start] == Flatten(filled)[..raw]
      modifies this`start, this`end, this`state, buf
      ensures start <= end <= buf.Length && size <= raw && (raw > 0 ==> size > 0)
      ensures state == ScanAfter(old(state), Flatten(filled)[..size])
      ensures ScanEnd(old(state), Flatten(filled)[..size]) == (if state == AtEnd then Some(size) else None)
      ensures Flatten(filled)[..raw] + old(Rest()) == Flatten(filled)[..size] + Rest()
    {
      var b, i;
      size, b, i := Scan(filled, raw);
      if state == AtEnd {
        FlattenFrom(filled, b, i + 1);
        PutBack([filled[b][i + 1..]] + filled[b + 1..], Flatten(filled), size, raw);
      }
    }

    /** Returns what was just taken from the stream, up to the end of data if it is there. */
    method Deliver(filled: seq<bytes>, raw: nat, ghost rest: bytes) returns (size: nat)
      requires start <= end <= buf.Length && Books(stream, returned, rest, state) && state != AtEnd && !completed
      requires 0 < raw <= |Flatten(filled)| <= buf.Length
      requires start < end ==> raw <= start && buf[start - raw..start] == Flatten(filled)[..raw]
      requires rest == Flatten(filled)[..raw] + Rest()
      modifies this`start, this`end, this`state, this`returned, buf
      ensures Valid() && 0 < size <= |Flatten(filled)|
      ensures returned == old(returned) + Flatten(filled)[..size] && rest == Flatten(filled)[..size] + Rest()
    {
      size := FindEnd(filled, raw);
      BooksAdvance(stream, returned, rest, old(state), Flatten(filled)[..size], Rest(), state);
      returned := returned + Flatten(filled)[..size];
    }

    /** One read, into any slices that the buffer of the reader could hold. */
    method PollReadVectored(slices: seq<bytes>) returns (filled: seq<bytes>, r: ReadResult)
      requires Valid() && |Flatten(slices)| <= buf.Length
      modifies this`start, this`end, this`state, this`returned, buf, read
      ensures Valid() && SameShape(slices, filled)
      ensures r.ReadOk? ==>
                && r.n <= |Flatten(filled)| == |Flatten(slices)|
                && returned == old(returned) + Flatten(filled)[..r.n]
                && old(Rest()) == Flatten(filled)[..r.n] + Rest()
                && (r.n == 0 <==> old(IsFinished()) || Flatten(slices) == [])
                && (r.n == 0 ==> state == old(state))
      ensures r.ConnectionAborted? <==> Flatten(slices) != [] && !old(IsFinished()) && old(Rest()) == []
      ensures r.ConnectionAborted? ==> returned == old(returned) && Rest() == [] && state == old(state)
    {
      assert returned + [] == returned && [] + Rest() == Rest();
      if IsFinished() {
        return slices, ReadOk(0);
      }
      var raw;
      filled, raw := FillSlices(slices);
      assert Books(stream, returned, old(Rest()), state);
      if raw == 0 {
        assert Valid();
        r := if Flatten(slices) == [] then ReadOk(0) else ConnectionAborted;
        return;
      }
      var size := Deliver(filled, raw, old(Rest()));
      return filled, ReadOk(size);
    }

    /** One read, into a single slice. */
    method PollRead(slice: bytes) returns (filled: bytes, r: ReadResult)
      requires Valid() && |slice| <= buf.Length
      modifies this`start, this`end, this`state, this`returned, buf, read
      ensures Valid() && |filled| == |slice|
      ensures r.ReadOk? ==>
                && r.n <= |filled| && old(Rest()) == filled[..r.n] + Rest()
                && returned == old(returned) + filled[..r.n]
                && (r.n == 0 <==> old(IsFinished()) || slice == [])
                && (r.n == 0 ==> state == old(state))
      ensures r.ConnectionAborted? <==> slice != [] && !old(IsFinished()) && old(Rest()) == []
      ensures r.ConnectionAborted? ==> returned == old(returned) && Rest() == [] && state == old(state)
    {
      var out;
      assert Flatten([slice]) == slice + Flatten([]) == slice;
      out, r := PollReadVectored([slice]);
      filled := out[0];
      assert out == [filled] && Flatten([filled]) == filled + Flatten([]) == filled;
    }
  }

  /** Where the first bytes of slice `b` are in the whole. */
  lemma SliceStart(slices: seq<bytes>, b: nat, size: nat, len: nat)
    requires b < |slices| && len <= |slices[b]| && (len > 0 ==> size == |Flatten(slices[..b])|) && size + len <= |Flatten(slices)|
    ensures |Flatten(slices[..b + 1])| == |Flatten(slices[..b])| + |slices[b]|
    ensures Flatten(slices)[size..size + len] == slices[b][..len]
  {
    FlattenSnoc(slices, b);
    forall k | 0 <= k < len ensures Flatten(slices)[size..size + len][k] == slices[b][..len][k] { FlattenIndex(slices, b, k); }
  }

  lemma TailOfWindow(buf: bytes, start: nat, flat: bytes, size: nat, raw: nat)
    requires size <= raw <= |flat| && raw <= start <= |buf| && buf[start - raw..start] == flat[..raw]
    ensures buf[start - (raw - size)..start] == flat[size..][..raw - size]
  {
    assert buf[start - (raw - size)..start] == buf[start - raw..start][size..];
    assert flat[size..][..raw - size] == flat[..raw][size..];
  }

  lemma SplitRest(flat: bytes, size: nat, raw: nat, rest: bytes, newRest: bytes)
    requires size <= raw <= |flat|
    requires newRest == flat[size..raw] + rest || (size == raw && newRest == rest)
    ensures flat[..raw] + rest == flat[..size] + newRest
  {
    assert flat[..raw] == flat[..size] + flat[size..raw];
  }

  /** The books of the reader after it returns `out`. */
  ghost predicate Books(stream: bytes, returned: bytes, rest: bytes, state: ScanState) {
    && stream == returned + rest
    && state == ScanAfter(AtCrLf, returned)
    && ScanEnd(AtCrLf, returned) == (if state == AtEnd then Some(|returned|) else None)
  }

  lemma BooksAdvance(stream: bytes, returned: bytes, rest: bytes, state: ScanState, out: bytes, newRest: bytes, newState: ScanState)
    requires Books(stream, returned, rest, state) && state != AtEnd
    requires rest == out + newRest
    requires newState == ScanAfter(state, out)
    requires ScanEnd(state, out) == (if newState == AtEnd then Some(|out|) else None)
    ensures Books(stream, returned + out, newRest, newState)
  {
    ScanAfterAppend(AtCrLf, returned, out);
    ScanEndAppend(AtCrLf, returned, out);
    assert returned + (out + newRest) == (returned + out) + newRest;
  }

  lemma ScanEndNotZero(st: ScanState, s: bytes)
    requires st != AtEnd
    ensures ScanEnd(st, s) != Some(0)
  { }
}
