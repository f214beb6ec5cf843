/** The in-place, chunk by chunk removal of the dot-stuffing. */
module DataUnescaper {
  import opened Bytes
  import opened DataFormat

  /** Text without escapes is decoded as it is. */
  lemma {:induction false} DecodePlain(st: LineState, s: bytes, c: bytes)
    requires NoEscape(st, s)
    ensures Decode(st, s + c) == Prepend(s, Decode(LineAfter(st, s), c))
    decreases |s|
  {
    var text := Decode(LineAfter(st, s), c).text;
    if s == [] {
      assert s + c == c && s + text == text;
    } else {
      assert s + c == [s[0]] + (s[1..] + c);
      DecodeCopy(st, s[0], s[1..] + c);
      DecodePlain(NextLine(st, s[0]), s[1..], c);
      assert [s[0]] + (s[1..] + text) == s + text;
    }
  }

  /** The bytes just before `s`, as far as `st` remembers them. */
  function Before(st: LineState): bytes {
    match st
    case Start => []
    case Cr => [CR]
    case CrLf => [CR, LF]
  }

  lemma {:induction false} NoWindowNoEscape(st: LineState, s: bytes)
    requires forall k: nat :: !IsEscapeAt(Before(st) + s, k)
    ensures NoEscape(st, s)
    decreases |s|
  {
    if s != [] {
      var t, st1 := Before(st) + s, NextLine(st, s[0]);
      assert st == CrLf ==> !IsEscapeAt(t, 0);
      var t1 := Before(st1) + s[1..];
      var d := |t| - |t1|;
      assert t[d..] == t1;
      forall k: nat ensures !IsEscapeAt(t1, k) {
        assert !IsEscapeAt(t, d + k);
        if k + 3 <= |t1| { assert t1[k] == t[d + k] && t1[k + 1] == t[d + k + 1] && t1[k + 2] == t[d + k + 2]; }
      }
      NoWindowNoEscape(st1, s[1..]);
    }
  }

  /** A run without a CRLF-dot window, met in the middle of a line, is text. */
  lemma DecodeRun(run: bytes, c: bytes)
    requires forall k: nat :: !IsEscapeAt(run, k)
    ensures Decode(Start, run + c) == Prepend(run, Decode(LineAfter(Start, run), c))
  {
    assert Before(Start) + run == run;
    NoWindowNoEscape(Start, run);
    DecodePlain(Start, run, c);
  }

  lemma DecodeFromCr(st: LineState, s: bytes)
    requires s != [] && s[0] == CR
    ensures Decode(st, s) == Decode(Start, s)
  { }

  // The four ways a pass over `rest`, met in the middle of a line, can go on; `more` is what comes after it.

  lemma RunThenHeld(rest: bytes, i: nat, more: bytes)
    requires i <= |rest|
    requires forall k: nat :: k < i ==> !IsEscapeAt(rest, k)
    requires i < |rest| ==> rest[i] == CR
    requires i == |rest| ==> LineAfter(Start, rest) == Start
    ensures Decode(Start, rest + more) == Prepend(rest[..i], Decode(Start, rest[i..] + more))
  {
    var run := rest[..i];
    assert rest + more == run + (rest[i..] + more);
    assert forall k: nat :: IsEscapeAt(run, k) ==> IsEscapeAt(rest, k);
    DecodeRun(run, rest[i..] + more);
    if i < |rest| {
      DecodeFromCr(LineAfter(Start, run), rest[i..] + more);
    } else {
      assert run == rest;
    }
  }

  lemma RunToLineEnd(rest: bytes, i: nat, more: bytes)
    requires IsEscapeAt(rest, i)
    requires forall k: nat :: k < i ==> !IsEscapeAt(rest, k)
    ensures Decode(Start, rest + more) == Prepend(rest[..i + 2], Decode(CrLf, rest[i + 2..] + more))
  {
    var run := rest[..i + 2];
    assert rest + more == run + (rest[i + 2..] + more);
    assert forall k: nat :: IsEscapeAt(run, k) ==> k < i && IsEscapeAt(rest, k);
    DecodeRun(run, rest[i + 2..] + more);
    LineAfterTwo(Start, Start, run);
  }

  lemma RunThenDot(rest: bytes, i: nat, more: bytes)
    requires IsEscapeAt(rest, i) && i + 5 <= |rest| && (rest[i + 3] != CR || rest[i + 4] != LF)
    requires forall k: nat :: k < i ==> !IsEscapeAt(rest, k)
    ensures Decode(Start, rest + more) == Prepend(rest[..i + 2], Decode(Start, rest[i + 3..] + more))
  {
    RunToLineEnd(rest, i, more);
    assert rest[i + 2..] + more == [DOT] + (rest[i + 3..] + more);
    DecodeDrop(rest[i + 3..] + more);
  }

  lemma RunThenEnd(rest: bytes, i: nat, more: bytes)
    requires IsEscapeAt(rest, i) && i + 5 <= |rest| && rest[i + 3] == CR && rest[i + 4] == LF
    requires forall k: nat :: k < i ==> !IsEscapeAt(rest, k)
    ensures Decode(Start, rest + more) == Decoded(rest[..i + 2], Some(rest[i + 5..] + more))
  {
    RunToLineEnd(rest, i, more);
    var tail := rest[i + 2..] + more;
    assert tail[3..] == rest[i + 5..] + more;
    assert rest[..i + 2] + [] == rest[..i + 2];
  }

  datatype UnescapeRes = UnescapeRes(written: nat, unhandledIdx: nat)

  /** The first CRLF-dot window of `data[from..n]`, relative to `from`. */
  method FindEscape(data: array<byte>, from: nat, n: nat) returns (r: Option<nat>)
    requires from <= n <= data.Length
    ensures r.Some? ==> IsEscapeAt(data[from..n], r.value)
    ensures forall k: nat :: (r.None? || k < r.value) ==> !IsEscapeAt(data[from..n], k)
  {
    var i: nat := 0;
    while from + i + 3 <= n
      invariant forall k: nat :: k < i ==> !IsEscapeAt(data[from..n], k)
    {
      if data[from + i] == CR && data[from + i + 1] == LF && data[from + i + 2] == DOT {
        return Some(i);
      }
      i := i + 1;
    }
    return None;
  }

  /**
   Appends `data[from..hi]` to the part of `data` already written, if it is not in
   place; what is at `next` and beyond stays. `d` is what remains to be decoded.
   */
  method Keep(data: array<byte>, n: nat, from: nat, hi: nat, next: nat, written: nat, ghost d: Decoded)
    requires written <= from <= hi <= next <= n <= data.Length
    modifies data
    ensures forall j :: next <= j < data.Length ==> data[j] == old(data[j])
    ensures data[next..n] == old(data[next..n])
    ensures Prepend(data[..written + (hi - from)], d) == Prepend(old(data[..written]), Prepend(old(data[from..hi]), d))
  {
    var end := written + (hi - from);
    PrependTwice(data[..written], data[from..hi], d);
    if from != written {
      CopyWithin(data, from, hi, written);
      assert data[..end] == data[..written] + data[written..end];
      assert forall j :: next <= j < data.Length ==> data[j] == data[end..][j - end];
    } else {
      assert data[..hi] == data[..written] + data[written..hi];
    }
  }

  /** The state of a pass over `data[..n]`: `whole` is the text written, then the decoding of what is left. */
  ghost predicate Pass(whole: Decoded, data: array<byte>, n: nat, written: nat, idx: nat, more: bytes)
    reads data
  {
    written <= idx <= n <= data.Length && whole == Prepend(data[..written], Decode(Start, data[idx..n] + more))
  }

  /** Keeps the run of `i` bytes at `idx`; the bytes after it must wait. */
  method KeepRun(data: array<byte>, n: nat, written: nat, idx: nat, i: nat, ghost more: bytes, ghost whole: Decoded)
    requires Pass(whole, data, n, written, idx, more) && idx + i <= n
    requires forall k: nat :: k < i ==> !IsEscapeAt(data[idx..n], k)
    requires idx + i < n ==> data[idx + i] == CR
    requires idx + i == n ==> LineAfter(Start, data[idx..n]) == Start
    modifies data
    ensures Pass(whole, data, n, written + i, idx + i, more) && forall j :: idx + i <= j < data.Length ==> data[j] == old(data[j])
  {
    ghost var rest := data[idx..n];
    RunThenHeld(rest, i, more);
    assert data[idx..idx + i] == rest[..i] && data[idx + i..n] == rest[i..];
    ghost var d := Decode(Start, rest[i..] + more);
    Keep(data, n, idx, idx + i, idx + i, written, d);
    assert data[idx + i..n] == rest[i..];
  }

  /** Keeps the run up to the line end of the window at `i`, and skips the dot. */
  method DropDot(data: array<byte>, n: nat, written: nat, idx: nat, i: nat, ghost more: bytes, ghost whole: Decoded)
    requires Pass(whole, data, n, written, idx, more) && idx + i + 5 <= n
    requires IsEscapeAt(data[idx..n], i) && (data[idx + i + 3] != CR || data[idx + i + 4] != LF)
    requires forall k: nat :: k < i ==> !IsEscapeAt(data[idx..n], k)
    modifies data
    ensures Pass(whole, data, n, written + i + 2, idx + i + 3, more) && forall j :: idx + i + 3 <= j < data.Length ==> data[j] == old(data[j])
  {
    ghost var rest := data[idx..n];
    assert rest[i + 3] == data[idx + i + 3] && rest[i + 4] == data[idx + i + 4];
    RunThenDot(rest, i, more);
    assert data[idx..idx + i + 2] == rest[..i + 2] && data[idx + i + 3..n] == rest[i + 3..];
    Keep(data, n, idx, idx + i + 2, idx + i + 3, written, Decode(Start, rest[i + 3..] + more));
  }

  /** Keeps the run up to the line end of the window at `i`, where the data ends. */
  method KeepLast(data: array<byte>, n: nat, written: nat, idx: nat, i: nat, ghost more: bytes, ghost whole: Decoded)
    requires Pass(whole, data, n, written, idx, more) && idx + i + 5 <= n
    requires IsEscapeAt(data[idx..n], i) && data[idx + i + 3] == CR && data[idx + i + 4] == LF
    requires forall k: nat :: k < i ==> !IsEscapeAt(data[idx..n], k)
    modifies data
    ensures whole == Decoded(data[..written + i + 2], Some(data[idx + i + 5..n] + more))
    ensures forall j :: idx + i + 5 <= j < data.Length ==> data[j] == old(data[j])
  {
    ghost var rest := data[idx..n];
    assert rest[i + 3] == data[idx + i + 3] && rest[i + 4] == data[idx + i + 4];
    RunThenEnd(rest, i, more);
    assert data[idx..idx + i + 2] == rest[..i + 2] && data[idx + i + 5..n] == rest[i + 5..];
    ghost var d := Decoded([], Some(rest[i + 5..] + more));
    assert Decode(Start, rest + more) == Prepend(rest[..i + 2], d);
    Keep(data, n, idx, idx + i + 2, idx + i + 5, written, d);
  }

  class DataUnescaper {
    var isPrecededByCrlf: bool

    constructor (isPrecededByCrlf: bool)
      ensures this.isPrecededByCrlf == isPrecededByCrlf
    {
      this.isPrecededByCrlf := isPrecededByCrlf;
    }

    function State(): LineState
      reads this
    {
      if isPrecededByCrlf then CrLf else Start
    }

    /**
     Unescapes `data[..n]` in place. Whatever `more` follows it in the stream, the
     text written followed by the decoding of what is left is the decoding of the
     whole; `ended` tells whether the end of data was met.
     */
    method Unescape(data: array<byte>, n: nat, ghost more: bytes) returns (res: UnescapeRes, ghost ended: bool)
      requires n <= data.Length
      modifies this, data
      ensures res.written <= res.unhandledIdx <= n
      ensures forall j :: res.unhandledIdx <= j < data.Length ==> data[j] == old(data[j])
      ensures !ended ==> n - res.unhandledIdx <= 4
      ensures !ended ==>
                Decode(old(State()), old(data[..n]) + more) ==
                Prepend(data[..res.written], Decode(State(), data[res.unhandledIdx..n] + more))
      ensures ended ==>
                Decode(old(State()), old(data[..n]) + more) ==
                Decoded(data[..res.written], Some(data[res.unhandledIdx..n] + more))
    {
      var idx := 0;
      if isPrecededByCrlf {
        if n <= 3 {
          assert data[0..n] == data[..n];
          return UnescapeRes(0, 0), false;
        } else if data[0] == DOT && data[1] == CR && data[2] == LF {
          assert (data[..n] + more)[3..] == data[3..n] + more;
          return UnescapeRes(0, 3), true;
        } else if data[0] == DOT {
          idx := 1;
          assert data[..n] + more == [DOT] + (data[1..n] + more);
          DecodeDrop(data[1..n] + more);
        } else {
          assert data[..n] + more == [data[0]] + (data[1..n] + more);
          DecodeCopy(CrLf, data[0], data[1..n] + more);
          DecodeCopy(Start, data[0], data[1..n] + more);
        }
        isPrecededByCrlf := false;
      }
      assert idx == 0 ==> data[idx..n] == data[..n];
      res, ended := UnescapeLines(data, n, idx, more);
    }

    /** The part of `Unescape` that starts in the middle of a line, at `from`. */
    method UnescapeLines(data: array<byte>, n: nat, from: nat, ghost more: bytes) returns (res: UnescapeRes, ghost ended: bool)
      requires from <= n <= data.Length && (from == 0 || from + 2 <= n)
      modifies data
      ensures res.written <= res.unhandledIdx <= n
      ensures forall j :: res.unhandledIdx <= j < data.Length ==> data[j] == old(data[j])
      ensures !ended ==> n - res.unhandledIdx <= 4
      ensures !ended ==> Pass(Decode(Start, old(data[from..n]) + more), data, n, res.written, res.unhandledIdx, more)
      ensures ended ==>
                Decode(Start, old(data[from..n]) + more) ==
                Decoded(data[..res.written], Some(data[res.unhandledIdx..n] + more))
    {
      ghost var whole := Decode(Start, data[from..n] + more);
      var written: nat, idx := 0, from;
      assert Prepend(data[..0], whole) == whole;
      while true
        invariant Pass(whole, data, n, written, idx, more) && (idx == 0 || idx + 2 <= n)
        invariant forall j :: idx <= j < data.Length ==> data[j] == old(data[j])
        decreases n - idx
      {
        var found := FindEscape(data, idx, n);
        if found.None? {
          res := UnescapeEnd(data, n, written, idx, more, whole);
          return res, false;
        }
        var i := found.value;
        if n > idx + i + 4 && (data[idx + i + 3] != CR || data[idx + i + 4] != LF) {
          DropDot(data, n, written, idx, i, more, whole);
          written, idx := written + i + 2, idx + i + 3;
        } else {
          res, ended := UnescapeStop(data, n, written, idx, i, more, whole);
          return;
        }
      }
    }

    /** The end of a pass at the window at `i`: it is cut short and must wait, or it ends the data. */
    method UnescapeStop(data: array<byte>, n: nat, written: nat, idx: nat, i: nat, ghost more: bytes, ghost whole: Decoded)
      returns (res: UnescapeRes, ghost ended: bool)
      requires Pass(whole, data, n, written, idx, more) && idx + i + 3 <= n
      requires IsEscapeAt(data[idx..n], i) && (n > idx + i + 4 ==> data[idx + i + 3] == CR && data[idx + i + 4] == LF)
      requires forall k: nat :: k < i ==> !IsEscapeAt(data[idx..n], k)
      modifies data
      ensures idx <= res.unhandledIdx && res.written <= res.unhandledIdx <= n
      ensures forall j :: res.unhandledIdx <= j < data.Length ==> data[j] == old(data[j])
      ensures !ended ==> n - res.unhandledIdx <= 4 && Pass(whole, data, n, res.written, res.unhandledIdx, more)
      ensures ended ==> whole == Decoded(data[..res.written], Some(data[res.unhandledIdx..n] + more))
    {
      if n <= idx + i + 4 {
        KeepRun(data, n, written, idx, i, more, whole);
        return UnescapeRes(written + i, idx + i), false;
      }
      KeepLast(data, n, written, idx, i, more, whole);
      return UnescapeRes(written + i + 2, idx + i + 5), true;
    }

    /** The end of a pass, once no window is left: a final CRLF or CR must wait. */
    method UnescapeEnd(data: array<byte>, n: nat, written: nat, idx: nat, ghost more: bytes, ghost whole: Decoded) returns (res: UnescapeRes)
      requires Pass(whole, data, n, written, idx, more) && (idx == 0 || idx + 2 <= n)
      requires forall k: nat :: !IsEscapeAt(data[idx..n], k)
      modifies data
      ensures res.unhandledIdx <= n <= res.unhandledIdx + 2
      ensures forall j :: res.unhandledIdx <= j < data.Length ==> data[j] == old(data[j])
      ensures idx <= res.unhandledIdx && Pass(whole, data, n, res.written, res.unhandledIdx, more)
    {
      var held := if n >= 2 && data[n - 2] == CR && data[n - 1] == LF then 2 else if n >= 1 && data[n - 1] == CR then 1 else 0;
      var i := n - held - idx;
      if n - idx >= 2 { LineAfterTwo(Start, Start, data[idx..n]); }
      KeepRun(data, n, written, idx, i, more, whole);
      return UnescapeRes(written + i, idx + i);
    }
  }
}
