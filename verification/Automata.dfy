/** Regular expressions as the parsers use them: an automaton, run for its longest match. */
module Automata {
  import opened Bytes
  import opened Framing

  /** State 0 is the dead state. */
  const DEAD: nat := 0

  datatype Dfa = Dfa(start: nat, next: (nat, byte) -> nat, accepting: nat -> bool)

  /** The dead state is never left, and does not accept. */
  ghost predicate WellFormed(d: Dfa) {
    !d.accepting(DEAD) && forall b :: d.next(DEAD, b) == DEAD
  }

  function Run(d: Dfa, s: bytes): nat {
    if s == [] then d.start else d.next(Run(d, s[..|s| - 1]), s[|s| - 1])
  }

  predicate Accepts(d: Dfa, s: bytes) {
    d.accepting(Run(d, s))
  }

  /** The length of the longest prefix of `s` that is accepted. */
  function Longest(d: Dfa, s: bytes): (r: Option<nat>)
    ensures r.Some? ==> r.value <= |s|
  {
    if Accepts(d, s) then Some(|s|) else if s == [] then None else Longest(d, s[..|s| - 1])
  }

  lemma {:induction false} LongestIsLongest(d: Dfa, s: bytes)
    ensures var r := Longest(d, s); r.Some? ==> Accepts(d, s[..r.value])
    ensures var r := Longest(d, s); forall k: nat {:trigger s[..k]} :: k <= |s| && Accepts(d, s[..k]) ==> r.Some? && k <= r.value
    decreases |s|
  {
    assert s[..|s|] == s;
    if !Accepts(d, s) && s != [] {
      var init := s[..|s| - 1];
      assert forall k: nat {:trigger s[..k]} :: k < |s| ==> init[..k] == s[..k];
      LongestIsLongest(d, init);
    }
  }

  /** The longest match; when there is none, whether more bytes could make one. */
  function ApplyRegex(d: Dfa, s: bytes): Outcome<bytes> {
    match Longest(d, s)
    case Some(n) => Ok(s[..n], s[n..])
    case None => if Run(d, s) == DEAD then Error else Incomplete
  }

  datatype Found = Match(n: nat) | NoMatch(state: nat)

  lemma {:induction false} DeadStaysDead(d: Dfa, s: bytes, t: bytes)
    requires WellFormed(d) && Run(d, s) == DEAD
    ensures Run(d, s + t) == DEAD
    decreases |t|
  {
    if t == [] {
      assert s + t == s;
    } else {
      DeadStaysDead(d, s, t[..|t| - 1]);
      assert (s + t)[..|s + t| - 1] == s + t[..|t| - 1];
    }
  }

  lemma DeadEnds(d: Dfa, s: bytes, i: nat, k: nat)
    requires WellFormed(d) && i <= k <= |s| && Run(d, s[..i]) == DEAD
    ensures Run(d, s[..k]) == DEAD
  {
    DeadStaysDead(d, s[..i], s[i..k]);
    assert s[..i] + s[i..k] == s[..k];
  }

  lemma LongestIs(d: Dfa, s: bytes, n: nat)
    requires n <= |s| && Accepts(d, s[..n])
    requires forall k: nat {:trigger s[..k]} :: n < k <= |s| ==> !Accepts(d, s[..k])
    ensures Longest(d, s) == Some(n)
  {
    LongestIsLongest(d, s);
  }

  lemma LongestNone(d: Dfa, s: bytes)
    requires forall k: nat {:trigger s[..k]} :: k <= |s| ==> !Accepts(d, s[..k])
    ensures Longest(d, s) == None
  {
    LongestIsLongest(d, s);
  }

  /** The loop stops at the first dead state: nothing longer can match. */
  method FindDfa(d: Dfa, buf: bytes) returns (r: Found)
    requires WellFormed(d)
    ensures r.Match? <==> Longest(d, buf).Some?
    ensures r.Match? ==> Longest(d, buf) == Some(r.n)
    ensures r.NoMatch? ==> (r.state == DEAD <==> Run(d, buf) == DEAD)
  {
    var state := d.start;
    var lastMatch: Option<nat> := None;
    assert buf[..0] == [];
    if state == DEAD {
      forall k: nat | k <= |buf| ensures Run(d, buf[..k]) == DEAD { DeadEnds(d, buf, 0, k); }
      assert buf[..|buf|] == buf;
      LongestNone(d, buf);
      return NoMatch(state);
    } else if d.accepting(state) {
      lastMatch := Some(0);
    }
    for i := 0 to |buf|
      invariant state == Run(d, buf[..i])
      invariant lastMatch.Some? ==> lastMatch.value <= i && Accepts(d, buf[..lastMatch.value])
      invariant forall k: nat {:trigger buf[..k]} :: k <= i && Accepts(d, buf[..k]) ==> lastMatch.Some? && k <= lastMatch.value
    {
      assert buf[..i + 1][..i] == buf[..i];
      state := d.next(state, buf[i]);
      if state == DEAD {
        forall k: nat | i < k <= |buf| ensures Run(d, buf[..k]) == DEAD { DeadEnds(d, buf, i + 1, k); }
        assert buf[..|buf|] == buf;
        r := Conclude(d, buf, state, lastMatch);
        return;
      }
      if d.accepting(state) {
        lastMatch := Some(i + 1);
      }
    }
    assert buf[..|buf|] == buf;
    r := Conclude(d, buf, state, lastMatch);
  }

  method Conclude(d: Dfa, buf: bytes, state: nat, lastMatch: Option<nat>) returns (r: Found)
    requires lastMatch.Some? ==> lastMatch.value <= |buf| && Accepts(d, buf[..lastMatch.value])
    requires forall k: nat {:trigger buf[..k]} :: k <= |buf| && Accepts(d, buf[..k]) ==> lastMatch.Some? && k <= lastMatch.value
    ensures Longest(d, buf) == lastMatch
    ensures r == match lastMatch { case Some(n) => Match(n) case None => NoMatch(state) }
  {
    if lastMatch.Some? { LongestIs(d, buf, lastMatch.value); } else { LongestNone(d, buf); }
    r := match lastMatch { case Some(n) => Match(n) case None => NoMatch(state) };
  }

  // ------------------------------------------------------------------ more bytes

  /** An error stays an error. */
  lemma ErrorIsStable(d: Dfa, s: bytes, t: bytes)
    requires WellFormed(d) && ApplyRegex(d, s).Error?
    ensures ApplyRegex(d, s + t).Error?
  {
    DeadStaysDead(d, s, t);
    LongestIsLongest(d, s);
    forall k: nat | k <= |s + t| ensures !Accepts(d, (s + t)[..k]) {
      if k <= |s| {
        assert (s + t)[..k] == s[..k];
      } else {
        assert (s + t)[..k] == s + t[..k - |s|];
        DeadStaysDead(d, s, t[..k - |s|]);
      }
    }
    LongestNone(d, s + t);
  }

  /** A match that the next byte brings to its end is the match, whatever follows. */
  lemma MatchThenDead(d: Dfa, w: bytes, rest: bytes)
    requires WellFormed(d) && Accepts(d, w) && rest != [] && d.next(Run(d, w), rest[0]) == DEAD
    ensures ApplyRegex(d, w + rest) == Ok(w, rest)
  {
    var s := w + rest;
    assert s[..|w|] == w && s[|w|..] == rest && s[..|w| + 1][..|w|] == w;
    forall k: nat | |w| < k <= |s| ensures !Accepts(d, s[..k]) { DeadEnds(d, s, |w| + 1, k); }
    LongestIs(d, s, |w|);
  }

  /** A match followed by a byte that no accepting state lives through is stable. */
  lemma TerminatedIsStable(d: Dfa, s: bytes, t: bytes)
    requires WellFormed(d) && ApplyRegex(d, s).Ok? && ApplyRegex(d, s).rest != []
    requires forall q :: d.accepting(q) ==> d.next(q, ApplyRegex(d, s).rest[0]) == DEAD
    ensures ApplyRegex(d, s + t) == Ok(ApplyRegex(d, s).value, ApplyRegex(d, s).rest + t)
  {
    var r := ApplyRegex(d, s);
    LongestIsLongest(d, s);
    assert s + t == r.value + (r.rest + t);
    MatchThenDead(d, r.value, r.rest + t);
  }

  lemma MatchesAll(d: Dfa, w: bytes)
    requires Accepts(d, w)
    ensures ApplyRegex(d, w) == Ok(w, [])
  {
    assert w[..|w|] == w && w[|w|..] == [];
  }

  lemma NoMatchYet(d: Dfa, s: bytes)
    requires forall k: nat {:trigger s[..k]} :: k <= |s| ==> !Accepts(d, s[..k])
    ensures ApplyRegex(d, s) == if Run(d, s) == DEAD then Error else Incomplete
  {
    LongestNone(d, s);
  }
}
