/** The streaming parser combinators that the grammars are made of, on outcomes. */
module Combinators {
  import opened Bytes
  import opened Framing

  /** The bytes `t`, or a first part of them. */
  function Tag(t: bytes, s: bytes): Outcome<bytes> {
    if t <= s then Ok(t, s[|t|..]) else if s < t then Incomplete else Error
  }

  function Take(n: nat, s: bytes): Outcome<bytes> {
    if n <= |s| then Ok(s[..n], s[n..]) else Incomplete
  }

  /** The second alternative counts when the first is an error. */
  function Alt<T>(a: Outcome<T>, b: Outcome<T>): Outcome<T> {
    if a.Error? then b else a
  }

  /** What is not there is passed over. */
  function Opt<T>(a: Outcome<T>, s: bytes): Outcome<Option<T>> {
    match a
    case Ok(v, rest) => Ok(Some(v), rest)
    case Error => Ok(None, s)
    case Incomplete => Incomplete
  }

  /** The outcome `a`, with another value. */
  function As<T, U>(v: T, a: Outcome<U>): Outcome<T> {
    match a
    case Ok(_, rest) => Ok(v, rest)
    case Error => Error
    case Incomplete => Incomplete
  }

  /** Looks ahead. */
  function Peek<T>(a: Outcome<T>, s: bytes): Outcome<T> {
    match a
    case Ok(v, _) => Ok(v, s)
    case Error => Error
    case Incomplete => Incomplete
  }

  /** The bytes `t`, of which the letters may be of either case. */
  function TagNoCase(t: bytes, s: bytes): Outcome<bytes> {
    if !MatchesNoCase(t, s) then Error else if |s| < |t| then Incomplete else Ok(s[..|t|], s[|t|..])
  }

  predicate MatchesNoCase(t: bytes, s: bytes) {
    forall i :: 0 <= i < |t| && i < |s| ==> ToUpper(s[i]) == ToUpper(t[i])
  }

  function ToUpper(b: byte): byte {
    if 97 <= b <= 122 then b - 32 else b
  }

  function OneOf(bs: set<byte>, s: bytes): Outcome<byte> {
    if s == [] then Incomplete else if s[0] in bs then Ok(s[0], s[1..]) else Error
  }

  /** How many bytes of `bs` the input begins with. */
  function Leading(bs: set<byte>, s: bytes): (n: nat)
    ensures n <= |s| && (n < |s| ==> s[n] !in bs) && forall i :: 0 <= i < n ==> s[i] in bs
  {
    if s == [] || s[0] !in bs then 0 else 1 + Leading(bs, s[1..])
  }

  /** One byte of `bs` or more, up to the first that is not one. */
  function IsA(bs: set<byte>, s: bytes): Outcome<bytes> {
    var n := Leading(bs, s);
    if n == |s| then Incomplete else if n == 0 then Error else Ok(s[..n], s[n..])
  }

  /** All that comes before the first CRLF. */
  function TakeUntilCrLf(s: bytes): Outcome<bytes> {
    match LineEnd(s)
    case Some(n) => Ok(s[..n - 2], s[n - 2..])
    case None => Incomplete
  }

  /** A parser that takes `w` off the front of its input. */
  predicate Took<T>(s: bytes, a: Outcome<T>, w: bytes) {
    a.Ok? && s == w + a.rest
  }

  lemma TagTook(w: bytes, s: bytes)
    requires Tag(w, s).Ok?
    ensures Took(s, Tag(w, s), w)
  { }

  lemma Then(s: bytes, v: bytes, s1: bytes, w: bytes, s2: bytes)
    requires s == v + s1 && s1 == w + s2
    ensures s == (v + w) + s2
  { }
}
