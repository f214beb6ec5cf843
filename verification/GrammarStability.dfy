/** What more bytes can change in what the grammar of commands says: nothing, unless a character is cut. */
module GrammarStability {
  import opened AddressSyntax
  import opened Automata
  import opened Bytes
  import opened Combinators
  import opened Commands
  import opened CommandSyntax
  import opened Framing
  import opened Utf8

  /** With `t` after what gave `a`, a value stays that value and an error stays an error. */
  ghost predicate Follows<T>(a: Outcome<T>, b: Outcome<T>, t: bytes) {
    (a.Ok? ==> b == Ok(a.value, a.rest + t)) && (a.Error? ==> b.Error?)
  }

  /** Not ending inside a character. */
  predicate Whole(s: bytes) {
    Run(UTF8, s) == 1 || Run(UTF8, s) == DEAD
  }

  predicate Settled(s: bytes) {
    Whole(s) || CR in s
  }

  /** What is left of `s` when some whole characters before its first CR are gone. */
  predicate Leaves(s: bytes, s1: bytes) {
    && |s1| <= |s| && s == s[..|s| - |s1|] + s1
    && CR !in s[..|s| - |s1|] && Run(UTF8, s[..|s| - |s1|]) == 1
  }

  /** What a part of the grammar says of `s`, and of `s` with more after it. */
  ghost predicate Steady<T>(s: bytes, t: bytes, a: Outcome<T>, b: Outcome<T>) {
    && (Settled(s) ==> Follows(a, b, t))
    && (a.Ok? ==> Leaves(s, a.rest))
    && (CR in s ==> !a.Incomplete?)
  }

  /** The same of a part that ends with the line. */
  ghost predicate Ends<T>(s: bytes, t: bytes, a: Outcome<T>, b: Outcome<T>) {
    && (Settled(s) ==> Follows(a, b, t))
    && (a.Ok? ==> LineEnd(s).Some? && a.rest == s[LineEnd(s).value..])
    && (LineEnd(s).Some? ==> !a.Incomplete?)
  }

  // ------------------------------------------------------------------ one after the other

  lemma Gone(gone: bytes, s1: bytes)
    requires CR !in gone && Run(UTF8, gone) == 1
    ensures Leaves(gone + s1, s1)
  {
    assert (gone + s1)[..|gone|] == gone;
  }

  lemma NothingGone(s: bytes)
    ensures Leaves(s, s)
  {
    assert [] + s == s;
    Gone([], s);
  }

  lemma AsciiGone(gone: bytes, s1: bytes)
    requires CR !in gone && forall i :: 0 <= i < |gone| ==> gone[i] < 0x80
    ensures Leaves(gone + s1, s1)
  {
    AllAscii(gone);
    Gone(gone, s1);
  }

  lemma LeavesSettled(s: bytes, s1: bytes)
    requires Leaves(s, s1)
    ensures Settled(s) ==> Settled(s1)
    ensures CR in s ==> CR in s1
  {
    RunFromBoundary(AnyByte, s[..|s| - |s1|], s1);
  }

  lemma LeavesOn(s: bytes, s1: bytes, s2: bytes)
    requires Leaves(s, s1) && Leaves(s1, s2)
    ensures Leaves(s, s2)
  {
    var g, h := s[..|s| - |s1|], s1[..|s1| - |s2|];
    Regroup(g, h, s2);
    RunFromBoundary(AnyByte, g, h);
    Gone(g + h, s2);
  }

  lemma Later<T>(s: bytes, t: bytes, s1: bytes, a: Outcome<T>, b: Outcome<T>)
    requires Leaves(s, s1) && Steady(s1, t, a, b)
    ensures Steady(s, t, a, b)
  {
    LeavesSettled(s, s1);
    if a.Ok? { LeavesOn(s, s1, a.rest); }
  }

  lemma LineLeft(s: bytes, s1: bytes)
    requires Leaves(s, s1)
    ensures LineEnd(s).Some? <==> LineEnd(s1).Some?
    ensures LineEnd(s).Some? ==> LineEnd(s).value == |s| - |s1| + LineEnd(s1).value && s[LineEnd(s).value..] == s1[LineEnd(s1).value..]
  {
    var n := |s| - |s1|;
    assert forall i :: 0 <= i < n ==> s[i] == s[..n][i];
    assert forall i :: n <= i < |s| ==> s[i] == s1[i - n];
    LineEndIsFirst(s);
    LineEndIsFirst(s1);
    if LineEnd(s).Some? {
      assert CrLfAt(s1, LineEnd(s).value - 2 - n);
    }
    if LineEnd(s1).Some? {
      var i := LineEnd(s1).value - 2;
      assert CrLfAt(s, i + n);
      forall j | j < i + n ensures !CrLfAt(s, j) { assert j >= n ==> !CrLfAt(s1, j - n); }
      LineEndAt(s, i + n);
    }
  }

  lemma LineHasCr(s: bytes)
    requires LineEnd(s).Some?
    ensures CR in s
  {
    LineEndIsFirst(s);
  }

  lemma LaterEnd<T>(s: bytes, t: bytes, s1: bytes, a: Outcome<T>, b: Outcome<T>)
    requires Leaves(s, s1) && Ends(s1, t, a, b)
    ensures Ends(s, t, a, b)
  {
    LeavesSettled(s, s1);
    LineLeft(s, s1);
  }

  /** What has no value yet is no more steady than it ends the line. */
  lemma NotYetEnds<T, U>(s: bytes, t: bytes, a: Outcome<T>, b: Outcome<T>, c: Outcome<U>, d: Outcome<U>)
    requires Steady(s, t, a, b) && !a.Ok?
    requires (a.Error? ==> c.Error?) && (a.Incomplete? ==> c.Incomplete?) && (Settled(s) && b.Error? ==> d.Error?)
    ensures Ends(s, t, c, d)
  {
    if LineEnd(s).Some? { LineHasCr(s); }
  }

  // ------------------------------------------------------------------ combinators

  lemma TagSteady(w: bytes, s: bytes, t: bytes)
    requires CR !in w && forall i :: 0 <= i < |w| ==> w[i] < 0x80
    ensures Steady(s, t, Tag(w, s), Tag(w, s + t))
  {
    if w <= s {
      assert s == w + s[|w|..] && (s + t)[|w|..] == s[|w|..] + t;
      AsciiGone(w, s[|w|..]);
    } else if !(s < w) {
      assert !(w <= s + t) && !(s + t < w) by {
        assert forall k :: 0 <= k <= |s| ==> (s + t)[..k] == s[..k];
      }
    }
  }

  lemma TagNoCaseSteady(w: bytes, s: bytes, t: bytes)
    requires forall i :: 0 <= i < |w| ==> w[i] < 0x80 && w[i] != CR
    ensures Steady(s, t, TagNoCase(w, s), TagNoCase(w, s + t))
  {
    if !MatchesNoCase(w, s) {
      var i :| 0 <= i < |w| && i < |s| && ToUpper(s[i]) != ToUpper(w[i]);
      assert (s + t)[i] == s[i];
    } else if |w| <= |s| {
      forall i | 0 <= i < |w| ensures (s + t)[i] == s[i] && s[i] < 0x80 && s[i] != CR {
        assert ToUpper(s[i]) == ToUpper(w[i]);
      }
      assert s == s[..|w|] + s[|w|..] && (s + t)[|w|..] == s[|w|..] + t && (s + t)[..|w|] == s[..|w|];
      AsciiGone(s[..|w|], s[|w|..]);
    } else {
      forall i | 0 <= i < |s| ensures s[i] != CR { assert ToUpper(s[i]) == ToUpper(w[i]); }
    }
  }

  lemma LeadingMore(bs: set<byte>, s: bytes, t: bytes)
    requires Leading(bs, s) < |s|
    ensures Leading(bs, s + t) == Leading(bs, s)
  {
    var n, m := Leading(bs, s), Leading(bs, s + t);
    assert (s + t)[n] == s[n];
    if m < n { assert (s + t)[m] == s[m]; }
  }

  lemma BlanksSteady(s: bytes, t: bytes)
    ensures Steady(s, t, IsA(BLANKS, s), IsA(BLANKS, s + t))
  {
    var n := Leading(BLANKS, s);
    if n < |s| {
      LeadingMore(BLANKS, s, t);
      assert s == s[..n] + s[n..] && (s + t)[n..] == s[n..] + t && (s + t)[..n] == s[..n];
      AsciiGone(s[..n], s[n..]);
    }
  }

  lemma OneBlankSteady(s: bytes, t: bytes)
    ensures Steady(s, t, OneOf(BLANKS, s), OneOf(BLANKS, s + t))
  {
    if s != [] && s[0] in BLANKS {
      assert s == [s[0]] + s[1..] && (s + t)[1..] == s[1..] + t;
      AsciiGone([s[0]], s[1..]);
    }
  }

  lemma OptSteady<T>(s: bytes, t: bytes, a: Outcome<T>, b: Outcome<T>)
    requires Steady(s, t, a, b)
    ensures Steady(s, t, Opt(a, s), Opt(b, s + t))
  {
    NothingGone(s);
  }

  function ThenTag<T>(a: Outcome<T>, b: byte): Outcome<T> {
    match a
    case Ok(v, s1) => As(v, Tag([b], s1))
    case Error => Error
    case Incomplete => Incomplete
  }

  lemma ThenTagSteady<T>(s: bytes, t: bytes, a: Outcome<T>, a': Outcome<T>, b: byte)
    requires Steady(s, t, a, a') && b < 0x80 && b != CR
    ensures Steady(s, t, ThenTag(a, b), ThenTag(a', b))
  {
    if a.Ok? {
      TagSteady([b], a.rest, t);
      Later(s, t, a.rest, Tag([b], a.rest), Tag([b], a.rest + t));
      LeavesSettled(s, a.rest);
    }
  }

  // ------------------------------------------------------------------ regular expressions

  /** A regular expression for text within a line. */
  ghost predicate InLine(d: Dfa) {
    && WellFormed(d) && (forall q :: d.next(q, CR) == DEAD)
    && forall w :: Accepts(d, w) ==> Run(UTF8, w) == 1
  }

  lemma CrKills(d: Dfa, s: bytes)
    requires WellFormed(d) && (forall q :: d.next(q, CR) == DEAD) && CR in s
    ensures Run(d, s) == DEAD
  {
    var i :| 0 <= i < |s| && s[i] == CR;
    assert s[..i + 1][..i] == s[..i] && s[..|s|] == s;
    DeadEnds(d, s, i + 1, |s|);
  }

  lemma LongestOfDead(d: Dfa, s: bytes, t: bytes)
    requires WellFormed(d) && Run(d, s) == DEAD
    ensures Longest(d, s + t) == Longest(d, s) && Run(d, s + t) == DEAD && (Longest(d, s).Some? ==> Longest(d, s).value < |s|)
  {
    DeadStaysDead(d, s, t);
    LongestIsLongest(d, s);
    assert s[..|s|] == s;
    forall k: nat | |s| <= k <= |s + t| ensures !Accepts(d, (s + t)[..k]) {
      assert (s + t)[..k] == s + t[..k - |s|];
      DeadStaysDead(d, s, t[..k - |s|]);
    }
    forall k: nat | k <= |s| ensures (s + t)[..k] == s[..k] {}
    match Longest(d, s)
    case Some(n) => LongestIs(d, s + t, n);
    case None => LongestNone(d, s + t);
  }

  lemma MatchGone(d: Dfa, s: bytes)
    requires InLine(d) && ApplyRegex(d, s).Ok?
    ensures Leaves(s, ApplyRegex(d, s).rest)
  {
    var n := Longest(d, s).value;
    LongestIsLongest(d, s);
    if CR in s[..n] { CrKills(d, s[..n]); }
    assert s == s[..n] + s[n..];
    Gone(s[..n], s[n..]);
  }

  lemma RegexDead(d: Dfa, s: bytes, t: bytes)
    requires InLine(d) && Run(d, s) == DEAD
    ensures Steady(s, t, ApplyRegex(d, s), ApplyRegex(d, s + t)) && !ApplyRegex(d, s).Incomplete?
    ensures ApplyRegex(d, s).Ok? ==> ApplyRegex(d, s).rest != [] && Follows(ApplyRegex(d, s), ApplyRegex(d, s + t), t)
  {
    LongestOfDead(d, s, t);
    var r := Longest(d, s);
    if r.Some? {
      MatchGone(d, s);
      assert (s + t)[r.value..] == s[r.value..] + t && (s + t)[..r.value] == s[..r.value];
    }
  }

  lemma UntilSteady(d: Dfa, term: set<byte>, s: bytes, t: bytes)
    requires InLine(d) && (Settled(s) && Run(d, s) != DEAD ==> ParseUntil(d, term, s).Incomplete?)
    ensures Steady(s, t, ParseUntil(d, term, s), ParseUntil(d, term, s + t))
  {
    if Run(d, s) == DEAD {
      RegexDead(d, s, t);
    } else {
      if CR in s { CrKills(d, s); }
      if ApplyRegex(d, s).Ok? { MatchGone(d, s); }
    }
  }

  lemma MatchAllWaits(d: Dfa, term: set<byte>, s: bytes)
    requires Accepts(d, s)
    ensures ParseUntil(d, term, s).Incomplete?
  {
    MatchesAll(d, s);
  }

  lemma NoMatchWaits(d: Dfa, term: set<byte>, s: bytes)
    requires Run(d, s) != DEAD && forall k: nat {:trigger s[..k]} :: k <= |s| ==> !Accepts(d, s[..k])
    ensures ParseUntil(d, term, s).Incomplete?
  {
    NoMatchYet(d, s);
  }

  lemma NothingWaits(d: Dfa, term: set<byte>)
    requires d.start != DEAD
    ensures ParseUntil(d, term, []).Incomplete?
  { }

  lemma {:induction false} PlusIsClass(ascii: byte -> bool, s: bytes)
    requires s != []
    ensures Run(Utf8Plus(ascii), s) == Run(Utf8Of(ascii), s)
    decreases |s|
  {
    var init := s[..|s| - 1];
    if init != [] {
      PlusIsClass(ascii, init);
      NotStart(ascii, init);
    }
  }

  lemma NotStart(ascii: byte -> bool, s: bytes)
    ensures Run(Utf8Of(ascii), s) <= 8
  { }

  lemma Utf8PlusInLine(ascii: byte -> bool)
    requires !ascii(CR)
    ensures InLine(Utf8Plus(ascii))
  {
    var d := Utf8Plus(ascii);
    Utf8PlusWellFormed(ascii);
    forall q: nat ensures d.next(q, CR) == DEAD { assert NextUtf8(ascii, if q == 9 then 1 else q, CR) == DEAD; }
    forall w | Accepts(d, w) ensures Run(UTF8, w) == 1 {
      if w != [] {
        PlusIsClass(ascii, w);
        ClassIsUtf8(ascii, w);
      }
    }
  }

  /** Alive and not inside a character, it matches all there is. */
  lemma Utf8PlusWaits(ascii: byte -> bool, term: set<byte>, s: bytes)
    requires !ascii(CR) && Settled(s) && Run(Utf8Plus(ascii), s) != DEAD
    ensures ParseUntil(Utf8Plus(ascii), term, s).Incomplete?
  {
    Utf8PlusInLine(ascii);
    if CR in s { CrKills(Utf8Plus(ascii), s); }
    if s == [] {
      NothingWaits(Utf8Plus(ascii), term);
    } else {
      PlusIsClass(ascii, s);
      ClassIsUtf8(ascii, s);
      MatchAllWaits(Utf8Plus(ascii), term, s);
    }
  }

  lemma Utf8PlusSteady(ascii: byte -> bool, term: set<byte>, s: bytes, t: bytes)
    requires !ascii(CR)
    ensures Steady(s, t, ParseUntil(Utf8Plus(ascii), term, s), ParseUntil(Utf8Plus(ascii), term, s + t))
  {
    Utf8PlusInLine(ascii);
    if Settled(s) && Run(Utf8Plus(ascii), s) != DEAD { Utf8PlusWaits(ascii, term, s); }
    UntilSteady(Utf8Plus(ascii), term, s, t);
  }

  // ------------------------------------------------------------------ host names

  /** A host name so far: a domain, an address in brackets not yet closed, or all of one. */
  ghost predicate HostSoFar(q: nat, s: bytes) {
    && (forall i :: 0 <= i < |s| ==> s[i] < 0x80)
    && (q in {1, 2, 4, 5} ==> forall i :: 0 <= i < |s| ==> HostByte(s[i]))
    && (q in {3, 6, 7, 8, 9, 10, 11, 12} ==> forall k: nat {:trigger s[..k]} :: k <= |s| ==> !Accepts(HOSTNAME_ASCII, s[..k]))
    && (q == 1 ==> s == [])
    && q in {1, 2, 3, 4, 5, 6, 7, 8, 9, 10, 11, 12, 13}
  }

  lemma NotAccepted(d: Dfa, s: bytes)
    requires s != [] && !Accepts(d, s)
    requires var init := s[..|s| - 1]; forall k: nat {:trigger init[..k]} :: k <= |init| ==> !Accepts(d, init[..k])
    ensures forall k: nat {:trigger s[..k]} :: k <= |s| ==> !Accepts(d, s[..k])
  {
    var init := s[..|s| - 1];
    forall k: nat | k <= |s| ensures !Accepts(d, s[..k]) {
      if k == |s| { assert s[..k] == s; } else { assert s[..k] == init[..k]; }
    }
  }

  lemma {:induction false} HostRun(s: bytes)
    requires Run(HOSTNAME_ASCII, s) != DEAD
    ensures HostSoFar(Run(HOSTNAME_ASCII, s), s)
    decreases |s|
  {
    if s != [] {
      var init, b := s[..|s| - 1], s[|s| - 1];
      HostRun(init);
      HostNext(Run(HOSTNAME_ASCII, init), init, b);
      assert init + [b] == s;
    }
  }

  lemma HostNext(q: nat, init: bytes, b: byte)
    requires q == Run(HOSTNAME_ASCII, init) && HostSoFar(q, init) && NextHostname(q, b) != DEAD
    ensures HostSoFar(NextHostname(q, b), init + [b])
  {
    var s := init + [b];
    assert s[..|s| - 1] == init;
    assert Run(HOSTNAME_ASCII, s) == NextHostname(q, b);
    if NextHostname(q, b) in {3, 6, 7, 8, 9, 10, 11, 12} {
      if q == 1 { assert init[..0] == []; }
      NotAccepted(HOSTNAME_ASCII, s);
    }
  }

  lemma HostnameInLine()
    ensures InLine(HOSTNAME_ASCII)
  {
    forall w | Accepts(HOSTNAME_ASCII, w) ensures Run(UTF8, w) == 1 {
      HostRun(w);
      AllAscii(w);
    }
  }

  /** Also a domain cut after a dash, which the first alternative takes for an error, is waited for. */
  lemma DomainWaits(f: Foreign, term: set<byte>, s: bytes)
    requires s != [] && (forall i :: 0 <= i < |s| ==> HostByte(s[i])) && forall b :: b in term ==> !HostByte(b)
    ensures ParseHostname(f, term, s).Incomplete?
  {
    PlusIsClass(HostByte, s);
    HostBytesRun(s);
    MatchAllWaits(HOSTNAME_UTF8, term, s);
    var a := ParseUntil(HOSTNAME_ASCII, term, s);
    assert !a.Ok?;
  }

  lemma {:induction false} HostBytesRun(s: bytes)
    requires forall i :: 0 <= i < |s| ==> HostByte(s[i])
    ensures Run(Utf8Of(HostByte), s) == 1
    decreases |s|
  {
    if s != [] { HostBytesRun(s[..|s| - 1]); }
  }

  lemma HostnameWaits(f: Foreign, term: set<byte>, s: bytes)
    requires Run(HOSTNAME_ASCII, s) != DEAD && forall b :: b in term ==> !HostByte(b)
    ensures ParseHostname(f, term, s).Incomplete?
  {
    HostRun(s);
    var q := Run(HOSTNAME_ASCII, s);
    if q in {1, 2, 4, 5} && s != [] {
      DomainWaits(f, term, s);
    } else if q == 13 {
      MatchAllWaits(HOSTNAME_ASCII, term, s);
    } else if s == [] {
      NothingWaits(HOSTNAME_ASCII, term);
    } else {
      NoMatchWaits(HOSTNAME_ASCII, term, s);
    }
  }

  lemma HostnameSteady(f: Foreign, term: set<byte>, s: bytes, t: bytes)
    requires forall b :: b in term ==> !HostByte(b)
    ensures Steady(s, t, ParseHostname(f, term, s), ParseHostname(f, term, s + t))
  {
    HostnameInLine();
    if Run(HOSTNAME_ASCII, s) != DEAD {
      if CR in s { CrKills(HOSTNAME_ASCII, s); }
      HostnameWaits(f, term, s);
    } else {
      AsciiHostnameSteady(f, term, s, t);
      Utf8HostnameSteady(f, term, s, t);
    }
  }

  lemma AsciiHostnameSteady(f: Foreign, term: set<byte>, s: bytes, t: bytes)
    requires Run(HOSTNAME_ASCII, s) == DEAD
    ensures Steady(s, t, ParseAsciiHostname(f, term, s), ParseAsciiHostname(f, term, s + t))
  {
    HostnameInLine();
    UntilSteady(HOSTNAME_ASCII, term, s, t);
  }

  lemma Utf8HostnameSteady(f: Foreign, term: set<byte>, s: bytes, t: bytes)
    ensures Steady(s, t, ParseUtf8Hostname(f, term, s), ParseUtf8Hostname(f, term, s + t))
  {
    Utf8PlusSteady(HostByte, term, s, t);
  }

  lemma AtHostnameSteady(f: Foreign, term: set<byte>, s: bytes, t: bytes)
    requires forall b :: b in term ==> !HostByte(b)
    ensures Steady(s, t, ParseAtHostname(f, term, s), ParseAtHostname(f, term, s + t))
    ensures ParseAtHostname(f, term, s).Ok? ==> |ParseAtHostname(f, term, s).rest| < |s|
  {
    TagSteady([AT], s, t);
    if Tag([AT], s).Ok? {
      var s1 := Tag([AT], s).rest;
      assert s != [] && (s + t)[1..] == s1 + t;
      HostnameSteady(f, term, s1, t);
      Later(s, t, s1, ParseHostname(f, term, s1), ParseHostname(f, term, s1 + t));
    }
  }

  // ------------------------------------------------------------------ local parts

  lemma {:induction false} LocalpartRun(s: bytes)
    requires Run(LOCALPART_ASCII, s) != DEAD
    ensures (forall i :: 0 <= i < |s| ==> s[i] < 0x80) && Run(LOCALPART_ASCII, s) in {1, 2, 3, 4, 5, 6}
    ensures Run(LOCALPART_ASCII, s) in {1, 3, 4, 5} ==> forall k: nat {:trigger s[..k]} :: k <= |s| ==> !Accepts(LOCALPART_ASCII, s[..k])
    decreases |s|
  {
    if s != [] {
      LocalpartRun(s[..|s| - 1]);
      if Run(LOCALPART_ASCII, s) in {3, 4, 5} { NotAccepted(LOCALPART_ASCII, s); }
    }
  }

  lemma LocalpartInLine()
    ensures InLine(LOCALPART_ASCII)
  {
    forall w | Accepts(LOCALPART_ASCII, w) ensures Run(UTF8, w) == 1 {
      LocalpartRun(w);
      AllAscii(w);
    }
  }

  lemma LocalpartWaits(term: set<byte>, s: bytes)
    requires Run(LOCALPART_ASCII, s) != DEAD
    ensures ParseUntil(LOCALPART_ASCII, term, s).Incomplete?
  {
    LocalpartRun(s);
    if Accepts(LOCALPART_ASCII, s) { MatchAllWaits(LOCALPART_ASCII, term, s); } else { NoMatchWaits(LOCALPART_ASCII, term, s); }
  }

  /** Where in a character each state of the second alternative is. */
  function InCharacter(q: nat): nat {
    if q <= 8 then q else if 31 <= q <= 38 then q - 30 else 1
  }

  lemma LocalpartNext(q: nat, b: byte)
    requires q in {9, 30, 41, 50} || 1 <= q <= 8 || 31 <= q <= 38
    requires NextLocalpartUtf8(q, b) != DEAD
    ensures var r := NextLocalpartUtf8(q, b);
            && InCharacter(r) == NextUtf8(AnyByte, InCharacter(q), b)
            && (r in {30, 41, 50} || 1 <= r <= 8 || 31 <= r <= 38)
            && (r != 50 && r >= 30 ==> q == 9 || 30 <= q <= 41)
  { }

  lemma {:induction false} LocalpartUtf8Run(s: bytes)
    requires Run(LOCALPART_UTF8, s) != DEAD
    ensures var q := Run(LOCALPART_UTF8, s);
            && (q in {9, 30, 41, 50} || 1 <= q <= 8 || 31 <= q <= 38)
            && InCharacter(q) == Run(UTF8, s)
            && (q == 9 || 30 <= q <= 41 ==> forall k: nat {:trigger s[..k]} :: k <= |s| ==> !Accepts(LOCALPART_UTF8, s[..k]))
    decreases |s|
  {
    if s != [] {
      var init, b := s[..|s| - 1], s[|s| - 1];
      LocalpartUtf8Run(init);
      LocalpartNext(Run(LOCALPART_UTF8, init), b);
      if 30 <= Run(LOCALPART_UTF8, s) <= 41 { NotAccepted(LOCALPART_UTF8, s); }
    }
  }

  lemma LocalpartUtf8InLine()
    ensures InLine(LOCALPART_UTF8)
  {
    forall q ensures NextLocalpartUtf8(q, CR) == DEAD {}
    forall w | Accepts(LOCALPART_UTF8, w) ensures Run(UTF8, w) == 1 { LocalpartUtf8Run(w); }
  }

  lemma LocalpartUtf8Waits(term: set<byte>, s: bytes)
    requires Run(LOCALPART_UTF8, s) != DEAD && Settled(s)
    ensures ParseUntil(LOCALPART_UTF8, term, s).Incomplete?
  {
    LocalpartUtf8InLine();
    if CR in s { CrKills(LOCALPART_UTF8, s); }
    LocalpartUtf8Run(s);
    if Accepts(LOCALPART_UTF8, s) { MatchAllWaits(LOCALPART_UTF8, term, s); } else { NoMatchWaits(LOCALPART_UTF8, term, s); }
  }

  lemma LocalpartSteady(term: set<byte>, s: bytes, t: bytes)
    ensures Steady(s, t, ParseLocalpart(term, s), ParseLocalpart(term, s + t))
  {
    LocalpartInLine();
    LocalpartUtf8InLine();
    if Run(LOCALPART_ASCII, s) != DEAD { LocalpartWaits(term, s); }
    if Run(LOCALPART_UTF8, s) != DEAD && Settled(s) { LocalpartUtf8Waits(term, s); }
    UntilSteady(LOCALPART_ASCII, term, s, t);
    UntilSteady(LOCALPART_UTF8, term, s, t);
  }

  // ------------------------------------------------------------------ addresses

  lemma EmailSteady(f: Foreign, term: set<byte>, s: bytes, t: bytes)
    requires forall b :: b in term ==> !HostByte(b)
    ensures Steady(s, t, ParseEmail(f, term, s), ParseEmail(f, term, s + t))
  {
    LocalpartSteady(term + {AT}, s, t);
    var a := ParseLocalpart(term + {AT}, s);
    if a.Ok? {
      OptHostnameSteady(f, term, a.rest, t);
      Later(s, t, a.rest, Opt(ParseAtHostname(f, term, a.rest), a.rest), Opt(ParseAtHostname(f, term, a.rest + t), a.rest + t));
    }
  }

  lemma OptHostnameSteady(f: Foreign, term: set<byte>, s: bytes, t: bytes)
    requires forall b :: b in term ==> !HostByte(b)
    ensures Steady(s, t, Opt(ParseAtHostname(f, term, s), s), Opt(ParseAtHostname(f, term, s + t), s + t))
  {
    AtHostnameSteady(f, term, s, t);
    OptSteady(s, t, ParseAtHostname(f, term, s), ParseAtHostname(f, term, s + t));
  }

  lemma NextHostSteady(f: Foreign, s: bytes, t: bytes)
    ensures Steady(s, t, ParseNextHost(f, s), ParseNextHost(f, s + t))
    ensures ParseNextHost(f, s).Ok? ==> |ParseNextHost(f, s).rest| < |s|
  {
    TagSteady([COMMA], s, t);
    var a := Tag([COMMA], s);
    if a.Ok? {
      LeavesSettled(s, a.rest);
      AtHostnameSteady(f, {COLON, COMMA}, a.rest, t);
      Later(s, t, a.rest, ParseAtHostname(f, {COLON, COMMA}, a.rest), ParseAtHostname(f, {COLON, COMMA}, a.rest + t));
    }
  }

  lemma {:induction false} MoreHostsSteady(f: Foreign, s: bytes, t: bytes)
    ensures Steady(s, t, ParseMoreHosts(f, s), ParseMoreHosts(f, s + t))
    decreases |s|
  {
    NextHostSteady(f, s, t);
    NothingGone(s);
    var a := ParseNextHost(f, s);
    if a.Ok? {
      LeavesSettled(s, a.rest);
      MoreHostsSteady(f, a.rest, t);
      Later(s, t, a.rest, ParseMoreHosts(f, a.rest), ParseMoreHosts(f, a.rest + t));
    }
  }

  lemma RouteEndSteady(f: Foreign, s: bytes, t: bytes)
    ensures Steady(s, t, ParseRouteEnd(f, s), ParseRouteEnd(f, s + t))
  {
    MoreHostsSteady(f, s, t);
    ThenTagSteady(s, t, ParseMoreHosts(f, s), ParseMoreHosts(f, s + t), COLON);
  }

  lemma PathSteady(f: Foreign, s: bytes, t: bytes)
    ensures Steady(s, t, ParsePath(f, s), ParsePath(f, s + t))
  {
    AtHostnameSteady(f, {COLON, COMMA}, s, t);
    var a := ParseAtHostname(f, {COLON, COMMA}, s);
    if a.Ok? {
      LeavesSettled(s, a.rest);
      RouteEndSteady(f, a.rest, t);
      Later(s, t, a.rest, ParseRouteEnd(f, a.rest), ParseRouteEnd(f, a.rest + t));
    }
  }

  lemma RoutedEmailSteady(f: Foreign, term: set<byte>, s: bytes, t: bytes)
    requires forall b :: b in term ==> !HostByte(b)
    ensures Steady(s, t, ParseRoutedEmail(f, term, s), ParseRoutedEmail(f, term, s + t))
  {
    PathSteady(f, s, t);
    OptSteady(s, t, ParsePath(f, s), ParsePath(f, s + t));
    var a := Opt(ParsePath(f, s), s);
    if a.Ok? {
      LeavesSettled(s, a.rest);
      EmailSteady(f, term, a.rest, t);
      Later(s, t, a.rest, ParseEmail(f, term, a.rest), ParseEmail(f, term, a.rest + t));
    }
  }

  lemma UntilGtSteady(f: Foreign, term: set<byte>, s: bytes, t: bytes)
    requires forall b :: b in term ==> !HostByte(b)
    ensures Steady(s, t, ParseUntilGt(f, term, s), ParseUntilGt(f, term, s + t))
  {
    RoutedEmailSteady(f, term + {GT}, s, t);
    ThenTagSteady(s, t, ParseRoutedEmail(f, term + {GT}, s), ParseRoutedEmail(f, term + {GT}, s + t), GT);
  }

  lemma BracketedSteady(f: Foreign, term: set<byte>, s: bytes, t: bytes)
    requires forall b :: b in term ==> !HostByte(b)
    ensures Steady(s, t, ParseBracketed(f, term, s), ParseBracketed(f, term, s + t))
  {
    TagSteady([LT], s, t);
    if Tag([LT], s).Ok? {
      var s1 := Tag([LT], s).rest;
      LeavesSettled(s, s1);
      UntilGtSteady(f, term, s1, t);
      Later(s, t, s1, ParseUntilGt(f, term, s1), ParseUntilGt(f, term, s1 + t));
    }
  }

  lemma EmailWithPathSteady(f: Foreign, term: set<byte>, s: bytes, t: bytes)
    requires forall b :: b in term ==> !HostByte(b)
    ensures Steady(s, t, ParseEmailWithPath(f, term, s), ParseEmailWithPath(f, term, s + t))
  {
    BracketedSteady(f, term, s, t);
    RoutedEmailSteady(f, term, s, t);
  }

  // ------------------------------------------------------------------ parameters

  lemma {:induction false} AsciiPlusRun(ascii: byte -> bool, s: bytes)
    requires Run(AsciiPlus(ascii), s) != DEAD
    ensures forall i :: 0 <= i < |s| ==> s[i] < 0x80
    ensures Run(AsciiPlus(ascii), s) == if s == [] then 9 else 1
    decreases |s|
  {
    if s != [] { AsciiPlusRun(ascii, s[..|s| - 1]); }
  }

  lemma AsciiPlusSteady(ascii: byte -> bool, term: set<byte>, s: bytes, t: bytes)
    requires !ascii(CR)
    ensures Steady(s, t, ParseUntil(AsciiPlus(ascii), term, s), ParseUntil(AsciiPlus(ascii), term, s + t))
  {
    var d := AsciiPlus(ascii);
    forall w | Accepts(d, w) ensures Run(UTF8, w) == 1 {
      AsciiPlusRun(ascii, w);
      AllAscii(w);
    }
    if Run(d, s) != DEAD {
      AsciiPlusRun(ascii, s);
      if s == [] { NothingWaits(d, term); } else { MatchAllWaits(d, term, s); }
    }
    UntilSteady(d, term, s, t);
  }

  lemma ValueSteady(s: bytes, t: bytes)
    ensures Steady(s, t, ParseValue(s), ParseValue(s + t))
  {
    AsciiPlusSteady(ValueByte, WORD_END, s, t);
    Utf8PlusSteady(ValueByte, WORD_END, s, t);
  }

  lemma EqualsValueSteady(s: bytes, t: bytes)
    ensures Steady(s, t, ParseEqualsValue(s), ParseEqualsValue(s + t))
  {
    TagSteady([EQUALS], s, t);
    if Tag([EQUALS], s).Ok? {
      var s1 := Tag([EQUALS], s).rest;
      LeavesSettled(s, s1);
      ValueSteady(s1, t);
      Later(s, t, s1, ParseValue(s1), ParseValue(s1 + t));
    }
  }

  lemma {:induction false} NameRun(s: bytes)
    requires Run(PARAMETER_NAME, s) != DEAD
    ensures forall i :: 0 <= i < |s| ==> s[i] < 0x80
    ensures Run(PARAMETER_NAME, s) == if s == [] then 1 else 2
    decreases |s|
  {
    if s != [] { NameRun(s[..|s| - 1]); }
  }

  lemma NameInLine()
    ensures InLine(PARAMETER_NAME)
  {
    forall w | Accepts(PARAMETER_NAME, w) ensures Run(UTF8, w) == 1 {
      NameRun(w);
      AllAscii(w);
    }
  }

  lemma NameWaits(s: bytes)
    requires Run(PARAMETER_NAME, s) != DEAD
    ensures ParseNamed(s).Incomplete?
  {
    NameRun(s);
    if s != [] { MatchesAll(PARAMETER_NAME, s); }
  }

  lemma NamedSteady(s: bytes, t: bytes)
    ensures Steady(s, t, ParseNamed(s), ParseNamed(s + t))
  {
    NameInLine();
    if Run(PARAMETER_NAME, s) != DEAD {
      NameWaits(s);
      if CR in s { CrKills(PARAMETER_NAME, s); }
    } else {
      RegexDead(PARAMETER_NAME, s, t);
      var a := ApplyRegex(PARAMETER_NAME, s);
      if a.Ok? {
        LeavesSettled(s, a.rest);
        EqualsValueSteady(a.rest, t);
        OptSteady(a.rest, t, ParseEqualsValue(a.rest), ParseEqualsValue(a.rest + t));
        Later(s, t, a.rest, Opt(ParseEqualsValue(a.rest), a.rest), Opt(ParseEqualsValue(a.rest + t), a.rest + t));
      }
    }
  }

  lemma ParameterSteady(s: bytes, t: bytes)
    ensures Steady(s, t, ParseParameter(s), ParseParameter(s + t))
    ensures ParseParameter(s).Ok? ==> |ParseParameter(s).rest| < |s|
  {
    BlanksSteady(s, t);
    var a := IsA(BLANKS, s);
    if a.Ok? {
      NamedSteady(a.rest, t);
      AfterBlanks(s, t, a, IsA(BLANKS, s + t), ParseNamed(a.rest), ParseNamed(a.rest + t));
    }
  }

  lemma AfterBlanks(s: bytes, t: bytes, a: Outcome<bytes>, b: Outcome<bytes>, c: Outcome<Parameter>, d: Outcome<Parameter>)
    requires Steady(s, t, a, b) && a.Ok? && |a.rest| < |s| && Steady(a.rest, t, c, d)
    ensures Steady(s, t, c, d) && (Settled(s) ==> b == Ok(a.value, a.rest + t)) && (c.Ok? ==> |c.rest| < |s|)
  {
    Later(s, t, a.rest, c, d);
  }

  lemma {:induction false} ParametersSteady(s: bytes, t: bytes)
    ensures Steady(s, t, ParseParameters(s), ParseParameters(s + t))
    decreases |s|
  {
    ParameterSteady(s, t);
    NothingGone(s);
    var a := ParseParameter(s);
    if a.Ok? {
      LeavesSettled(s, a.rest);
      ParametersSteady(a.rest, t);
      Later(s, t, a.rest, ParseParameters(a.rest), ParseParameters(a.rest + t));
    }
  }

  // ------------------------------------------------------------------ to the end of the line

  lemma CrLfEnds(s: bytes, t: bytes)
    ensures Ends(s, t, Tag(CRLF, s), Tag(CRLF, s + t))
  {
    if CRLF <= s {
      assert s[0] == s[..2][0] && s[1] == s[..2][1] && CrLfAt(s, 0);
      LineEndAt(s, 0);
      assert (s + t)[..2] == s[..2] && (s + t)[2..] == s[2..] + t;
    } else if s < CRLF {
      assert |s| < 2;
    } else {
      assert forall k :: 0 <= k <= |s| ==> (s + t)[..k] == s[..k];
    }
  }

  lemma EndEnds(s: bytes, t: bytes)
    ensures Ends(s, t, ParseEnd(s), ParseEnd(s + t))
  {
    BlanksSteady(s, t);
    OptSteady(s, t, IsA(BLANKS, s), IsA(BLANKS, s + t));
    var a, b := Opt(IsA(BLANKS, s), s), Opt(IsA(BLANKS, s + t), s + t);
    if a.Ok? {
      LeavesSettled(s, a.rest);
      CrLfEnds(a.rest, t);
      LaterEnd(s, t, a.rest, Tag(CRLF, a.rest), Tag(CRLF, a.rest + t));
    } else {
      NotYetEnds(s, t, a, b, ParseEnd(s), ParseEnd(s + t));
    }
  }

  lemma LastHostEnds(f: Foreign, s: bytes, t: bytes)
    ensures Ends(s, t, ParseLastHost(f, s), ParseLastHost(f, s + t))
  {
    HostnameSteady(f, WORD_END, s, t);
    var a, b := ParseHostname(f, WORD_END, s), ParseHostname(f, WORD_END, s + t);
    if a.Ok? {
      EndEnds(a.rest, t);
      LaterEnd(s, t, a.rest, ParseEnd(a.rest), ParseEnd(a.rest + t));
    } else {
      NotYetEnds(s, t, a, b, ParseLastHost(f, s), ParseLastHost(f, s + t));
    }
  }

  lemma HostEnds(f: Foreign, s: bytes, t: bytes)
    ensures Ends(s, t, ParseHost(f, s), ParseHost(f, s + t))
  {
    BlanksSteady(s, t);
    var a, b := IsA(BLANKS, s), IsA(BLANKS, s + t);
    if a.Ok? {
      LastHostEnds(f, a.rest, t);
      LaterEnd(s, t, a.rest, ParseLastHost(f, a.rest), ParseLastHost(f, a.rest + t));
    } else {
      NotYetEnds(s, t, a, b, ParseHost(f, s), ParseHost(f, s + t));
    }
  }

  lemma LineEndMore(s: bytes, t: bytes)
    requires LineEnd(s).Some?
    ensures LineEnd(s + t) == LineEnd(s)
  {
    LineEndIsFirst(s);
    var i := LineEnd(s).value - 2;
    assert CrLfAt(s + t, i);
    forall j | j < i ensures !CrLfAt(s + t, j) { assert !CrLfAt(s, j); }
    LineEndAt(s + t, i);
  }

  lemma LineIs(s: bytes)
    ensures ParseLine(s) == match LineEnd(s) { case Some(n) => Ok(s[..n - 2], s[n..]) case None => Incomplete }
  {
    if LineEnd(s).Some? {
      var n := LineEnd(s).value;
      LineEndIsFirst(s);
      CrLfTag(s[n - 2..]);
      assert s[n - 2..][2..] == s[n..];
    }
  }

  lemma CrLfTag(s: bytes)
    requires |s| >= 2 && s[0] == CR && s[1] == LF
    ensures Tag(CRLF, s) == Ok(CRLF, s[2..])
  {
    assert s[..2] == CRLF;
  }

  lemma LineEnds(s: bytes, t: bytes)
    ensures Ends(s, t, ParseLine(s), ParseLine(s + t))
  {
    LineIs(s);
    LineIs(s + t);
    if LineEnd(s).Some? {
      LineEndMore(s, t);
      var n := LineEnd(s).value;
      assert (s + t)[n..] == s[n..] + t && (s + t)[..n - 2] == s[..n - 2];
    }
  }

  lemma WordEnds(s: bytes, t: bytes)
    ensures Ends(s, t, ParseWord(s), ParseWord(s + t))
  {
    OneBlankSteady(s, t);
    var a, b := OneOf(BLANKS, s), OneOf(BLANKS, s + t);
    if a.Ok? {
      assert (s + t)[1..] == s[1..] + t;
      LineEnds(a.rest, t);
      LaterEnd(s, t, a.rest, ParseLine(a.rest), ParseLine(a.rest + t));
    } else {
      NotYetEnds(s, t, a, b, ParseWord(s), ParseWord(s + t));
    }
  }

  lemma OptionalWordEnds(s: bytes, t: bytes)
    ensures Ends(s, t, ParseOptionalWord(s), ParseOptionalWord(s + t))
  {
    WordEnds(s, t);
    CrLfEnds(s, t);
  }

  lemma SenderSteady(f: Foreign, s: bytes, t: bytes)
    ensures Steady(s, t, ParseSender(f, s), ParseSender(f, s + t))
  {
    TagSteady([LT, GT], s, t);
    EmailWithPathSteady(f, WORD_END, s, t);
  }

  lemma OptionsEnd(s: bytes, t: bytes)
    ensures Ends(s, t, ParseOptions(s), ParseOptions(s + t))
  {
    ParametersSteady(s, t);
    var a, b := ParseParameters(s), ParseParameters(s + t);
    if a.Ok? {
      LeavesSettled(s, a.rest);
      EndEnds(a.rest, t);
      LaterEnd(s, t, a.rest, ParseEnd(a.rest), ParseEnd(a.rest + t));
    } else {
      NotYetEnds(s, t, a, b, ParseOptions(s), ParseOptions(s + t));
    }
  }

  /** After the sender or recipient `a` of `s`, its parameters. */
  lemma ThenOptionsEnd<T>(s: bytes, t: bytes, a: Outcome<T>, b: Outcome<T>)
    requires Steady(s, t, a, b) && a.Ok?
    ensures Ends(s, t, ParseOptions(a.rest), ParseOptions(a.rest + t)) && (Settled(s) ==> b == Ok(a.value, a.rest + t))
  {
    OptionsEnd(a.rest, t);
    LaterEnd(s, t, a.rest, ParseOptions(a.rest), ParseOptions(a.rest + t));
  }

  lemma MailFromEnds(f: Foreign, s: bytes, t: bytes)
    ensures Ends(s, t, ParseMailFrom(f, s), ParseMailFrom(f, s + t))
  {
    SenderSteady(f, s, t);
    var a, b := ParseSender(f, s), ParseSender(f, s + t);
    if a.Ok? { ThenOptionsEnd(s, t, a, b); } else { NotYetEnds(s, t, a, b, ParseMailFrom(f, s), ParseMailFrom(f, s + t)); }
  }

  lemma RcptToEnds(f: Foreign, s: bytes, t: bytes)
    ensures Ends(s, t, ParseRcptTo(f, s), ParseRcptTo(f, s + t))
  {
    EmailWithPathSteady(f, WORD_END, s, t);
    var a, b := ParseEmailWithPath(f, WORD_END, s), ParseEmailWithPath(f, WORD_END, s + t);
    if a.Ok? { ThenOptionsEnd(s, t, a, b); } else { NotYetEnds(s, t, a, b, ParseRcptTo(f, s), ParseRcptTo(f, s + t)); }
  }

  lemma OptBlanksSteady(s: bytes, t: bytes)
    ensures Steady(s, t, Opt(IsA(BLANKS, s), s), Opt(IsA(BLANKS, s + t), s + t))
  {
    BlanksSteady(s, t);
    OptSteady(s, t, IsA(BLANKS, s), IsA(BLANKS, s + t));
  }

  lemma MailEnds(f: Foreign, s: bytes, t: bytes)
    ensures Ends(s, t, ParseMail(f, s), ParseMail(f, s + t))
  {
    OptBlanksSteady(s, t);
    var a, b := Opt(IsA(BLANKS, s), s), Opt(IsA(BLANKS, s + t), s + t);
    if a.Ok? {
      MailFromEnds(f, a.rest, t);
      LaterEnd(s, t, a.rest, ParseMailFrom(f, a.rest), ParseMailFrom(f, a.rest + t));
    } else {
      NotYetEnds(s, t, a, b, ParseMail(f, s), ParseMail(f, s + t));
    }
  }

  lemma RcptEnds(f: Foreign, s: bytes, t: bytes)
    ensures Ends(s, t, ParseRcpt(f, s), ParseRcpt(f, s + t))
  {
    OptBlanksSteady(s, t);
    var a, b := Opt(IsA(BLANKS, s), s), Opt(IsA(BLANKS, s + t), s + t);
    if a.Ok? {
      RcptToEnds(f, a.rest, t);
      LaterEnd(s, t, a.rest, ParseRcptTo(f, a.rest), ParseRcptTo(f, a.rest + t));
    } else {
      NotYetEnds(s, t, a, b, ParseRcpt(f, s), ParseRcpt(f, s + t));
    }
  }

  // ------------------------------------------------------------------ commands

  lemma WithWordEnds(i: nat, s: bytes, t: bytes, a: Outcome<bytes>, b: Outcome<bytes>)
    requires Ends(s, t, a, b)
    ensures Ends(s, t, WithWord(i, a), WithWord(i, b))
  { }

  lemma SimpleEnds(f: Foreign, i: nat, s: bytes, t: bytes)
    ensures Ends(s, t, ParseSimple(f, i, s), ParseSimple(f, i, s + t))
  {
    if i == 1 || i == 3 || i == 5 {
      HostEnds(f, s, t);
    } else if i == 2 || i == 12 {
      WordEnds(s, t);
      WithWordEnds(i, s, t, ParseWord(s), ParseWord(s + t));
    } else if i == 4 || i == 7 {
      OptionalWordEnds(s, t);
      WithWordEnds(i, s, t, ParseOptionalWord(s), ParseOptionalWord(s + t));
    } else {
      EndEnds(s, t);
    }
  }

  lemma AfterEnds(f: Foreign, i: nat, s: bytes, t: bytes)
    ensures Ends(s, t, ParseAfter(f, i, s), ParseAfter(f, i, s + t))
  {
    if i == 6 { MailEnds(f, s, t); } else if i == 9 { RcptEnds(f, s, t); } else { SimpleEnds(f, i, s, t); }
  }

  lemma KeywordsAreAscii(i: nat)
    requires i < 13
    ensures |Keyword(i)| > 0 && forall j :: 0 <= j < |Keyword(i)| ==> Keyword(i)[j] < 0x80 && Keyword(i)[j] != CR
  { }

  lemma AlternativeEnds(f: Foreign, i: nat, s: bytes, t: bytes)
    requires i < 13
    ensures Ends(s, t, ParseAlternative(f, i, s), ParseAlternative(f, i, s + t))
  {
    KeywordsAreAscii(i);
    TagNoCaseSteady(Keyword(i), s, t);
    var a, b := TagNoCase(Keyword(i), s), TagNoCase(Keyword(i), s + t);
    if a.Ok? {
      AfterEnds(f, i, a.rest, t);
      LaterEnd(s, t, a.rest, ParseAfter(f, i, a.rest), ParseAfter(f, i, a.rest + t));
    } else {
      NotYetEnds(s, t, a, b, ParseAlternative(f, i, s), ParseAlternative(f, i, s + t));
    }
  }

  lemma {:induction false} FromEnds(f: Foreign, i: nat, s: bytes, t: bytes)
    requires i <= 13
    ensures Ends(s, t, ParseFrom(f, i, s), ParseFrom(f, i, s + t))
    decreases 13 - i
  {
    if i < 13 {
      AlternativeEnds(f, i, s, t);
      FromEnds(f, i + 1, s, t);
    }
  }

  // ------------------------------------------------------------------ main results

  /** More bytes after a command change nothing; after an error neither, unless the text is cut inside a character of its first line. */
  lemma CommandFollows(f: Foreign, s: bytes, t: bytes)
    ensures ParseCommand(f, s).Ok? || Settled(s) ==> Follows(ParseCommand(f, s), ParseCommand(f, s + t), t)
  {
    FromEnds(f, 0, s, t);
    if ParseCommand(f, s).Ok? { LineHasCr(s); }
  }

  /** A command is a line: as soon as there is one, all of it and no more is taken, or it is an error. */
  lemma CommandIsLine(f: Foreign, s: bytes)
    ensures ParseCommand(f, s).Ok? ==> LineEnd(s).Some? && ParseCommand(f, s).rest == s[LineEnd(s).value..]
    ensures LineEnd(s).Some? ==> !ParseCommand(f, s).Incomplete?
  {
    FromEnds(f, 0, s, []);
  }
}
