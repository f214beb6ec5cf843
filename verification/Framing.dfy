/** How a stream of bytes falls into commands and lines, whatever pieces it arrives in. */
module Framing {
  import opened Bytes

  /** How many bytes the read buffers of server and client hold. */
  const RDBUF_SIZE: nat := 16 * 1024

  /** What a streaming parser says of the bytes it is given: a value and what is after it, or no, or not yet. */
  datatype Outcome<+T> = Ok(value: T, rest: bytes) | Error | Incomplete

  /** More bytes change nothing once the parser has made up its mind; and it never makes something of nothing. */
  ghost predicate Stable<T(!new)>(parse: bytes -> Outcome<T>) {
    && (forall s :: parse(s).Ok? ==> |parse(s).rest| < |s| && s[|s| - |parse(s).rest|..] == parse(s).rest)
    && (forall s, t :: parse(s).Ok? ==> parse(s + t) == Ok(parse(s).value, parse(s).rest + t))
    && (forall s, t :: parse(s).Error? ==> parse(s + t).Error?)
  }

  // ------------------------------------------------------------------ lines

  predicate CrLfAt(s: bytes, i: int) {
    0 <= i < |s| - 1 && s[i] == CR && s[i + 1] == LF
  }

  /** The first line of `s`, its CRLF included, is `s[..n]`. */
  function LineEnd(s: bytes): (r: Option<nat>)
    ensures r.Some? ==> 2 <= r.value <= |s|
  {
    if |s| < 2 then None
    else if s[0] == CR && s[1] == LF then Some(2)
    else match LineEnd(s[1..]) { case Some(n) => Some(n + 1) case None => None }
  }

  lemma {:induction false} LineEndIsFirst(s: bytes)
    ensures LineEnd(s).Some? ==> CrLfAt(s, LineEnd(s).value - 2)
    ensures forall i :: (if LineEnd(s).Some? then i < LineEnd(s).value - 2 else true) ==> !CrLfAt(s, i)
  {
    if |s| >= 2 && !(s[0] == CR && s[1] == LF) {
      LineEndIsFirst(s[1..]);
      forall i | CrLfAt(s, i) ensures LineEnd(s).Some? && i >= LineEnd(s).value - 2 {
        assert CrLfAt(s[1..], i - 1);
      }
    }
  }

  lemma LineEndAt(s: bytes, i: nat)
    requires CrLfAt(s, i) && forall j :: j < i ==> !CrLfAt(s, j)
    ensures LineEnd(s) == Some(i + 2)
  {
    LineEndIsFirst(s);
  }

  // ------------------------------------------------------------------ frames

  /**
   What the first bytes of a stream are, to a reader that holds at most `size` bytes:
   a value, an error, a value too long to be held, the end of the stream amid a
   value, or nothing at all.
   */
  datatype Awaited<+T> = Got(value: T, len: nat) | Bad | Full | Cut | Closed

  /** A parser that finds something has consumed some of what it was given. */
  ghost predicate Advances<T(!new)>(parse: bytes -> Outcome<T>) {
    forall s :: parse(s).Ok? ==> |parse(s).rest| < |s|
  }

  /** A parser never leaves more than it was given. */
  ghost predicate Consumes<T(!new)>(parse: bytes -> Outcome<T>) {
    forall s :: parse(s).Ok? ==> |parse(s).rest| <= |s|
  }

  /** What the reader makes of the first `k` bytes. */
  function AwaitFrom<T>(parse: bytes -> Outcome<T>, size: nat, s: bytes, k: nat): (r: Awaited<T>)
    requires k <= |s|
    ensures r.Got? ==> r.len <= k
  {
    match parse(s[..k])
    case Ok(v, rest) => if |rest| <= k then Got(v, k - |rest|) else Bad
    case Error => Bad
    case Incomplete => if k == size then Full else Cut
  }

  /** What the reader makes of all it can hold. */
  function Await<T>(parse: bytes -> Outcome<T>, size: nat, s: bytes): (r: Awaited<T>)
    ensures r.Got? ==> r.len <= Min(size, |s|)
  {
    if s == [] then Closed else AwaitFrom(parse, size, s, Min(size, |s|))
  }

  /** The reader decides on some first part of the stream; on all it can hold, if the parser cannot tell before. */
  ghost predicate Decided<T(!new)>(parse: bytes -> Outcome<T>, size: nat, s: bytes, r: Awaited<T>) {
    if s == [] then r == Closed
    else exists k: nat :: 0 < k <= Min(size, |s|) && r == AwaitFrom(parse, size, s, k) && (parse(s[..k]).Incomplete? ==> k == Min(size, |s|))
  }

  lemma GotMeans<T(!new)>(parse: bytes -> Outcome<T>, size: nat, s: bytes, r: Awaited<T>) returns (k: nat)
    requires Decided(parse, size, s, r) && r.Got?
    ensures 0 < k <= Min(size, |s|) && parse(s[..k]).Ok? && |parse(s[..k]).rest| == k - r.len && parse(s[..k]).value == r.value
  {
    k :| 0 < k <= Min(size, |s|) && r == AwaitFrom(parse, size, s, k);
  }

  /**
   What each result of the reader means: too long is what is incomplete in a full buffer,
   bad what the parser has rejected, and cut off what is incomplete at the end of the stream.
   */
  lemma ResultMeans<T(!new)>(parse: bytes -> Outcome<T>, size: nat, s: bytes, r: Awaited<T>)
    requires Decided(parse, size, s, r) && Consumes(parse)
    ensures r.Full? ==> size <= |s| && parse(s[..size]).Incomplete?
    ensures r.Bad? ==> exists k: nat :: 0 < k <= Min(size, |s|) && parse(s[..k]).Error?
    ensures r.Cut? ==> s != [] && |s| < size && parse(s).Incomplete?
    ensures r.Closed? <==> s == []
    ensures r.Got? ==> exists k: nat :: r.len <= k <= Min(size, |s|) && parse(s[..k]).Ok? && parse(s[..k]).value == r.value && |parse(s[..k]).rest| == k - r.len
  {
    if s != [] {
      var k: nat :| 0 < k <= Min(size, |s|) && r == AwaitFrom(parse, size, s, k) && (parse(s[..k]).Incomplete? ==> k == Min(size, |s|));
      assert s[..|s|] == s;
    }
  }

  /** Whatever first part of the stream the parser makes up its mind on, it is the same decision. */
  ghost predicate Decides<T(!new)>(parse: bytes -> Outcome<T>, size: nat, s: bytes) {
    forall k: nat {:trigger s[..k]} :: 0 < k <= Min(size, |s|) && !parse(s[..k]).Incomplete? ==>
      AwaitFrom(parse, size, s, k) == Await(parse, size, s)
  }

  lemma DecidesOnce<T(!new)>(parse: bytes -> Outcome<T>, size: nat, s: bytes, r: Awaited<T>)
    requires Decides(parse, size, s) && Decided(parse, size, s, r)
    ensures r == Await(parse, size, s)
  {
    if s != [] {
      var k: nat :| 0 < k <= Min(size, |s|) && r == AwaitFrom(parse, size, s, k) && (parse(s[..k]).Incomplete? ==> k == Min(size, |s|));
    }
  }

  lemma StableDecides<T(!new)>(parse: bytes -> Outcome<T>, size: nat, s: bytes)
    requires Stable(parse)
    ensures Decides(parse, size, s) && Advances(parse)
  {
    var held := s[..Min(size, |s|)];
    forall k: nat | 0 < k <= Min(size, |s|) && !parse(s[..k]).Incomplete?
      ensures AwaitFrom(parse, size, s, k) == Await(parse, size, s)
    {
      assert held == s[..k] + held[k..];
    }
  }

  lemma DecidedProgress<T(!new)>(parse: bytes -> Outcome<T>, size: nat, s: bytes, r: Awaited<T>)
    requires Decided(parse, size, s, r)
    ensures r.Got? ==> r.len <= |s|
    ensures r.Got? && Advances(parse) ==> r.len > 0
  { }

  lemma FullIsIncomplete<T(!new)>(parse: bytes -> Outcome<T>, size: nat, s: bytes)
    requires Decided(parse, size, s, Full)
    ensures |s| >= size && parse(s[..size]).Incomplete?
  { }

  lemma AwaitIsDecided<T(!new)>(parse: bytes -> Outcome<T>, size: nat, s: bytes)
    requires size > 0
    ensures Decided(parse, size, s, Await(parse, size, s))
  { }
}
