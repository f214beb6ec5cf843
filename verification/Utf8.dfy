/** UTF-8 as the regular expressions of the grammars see it. */
module Utf8 {
  import opened Automata
  import opened Bytes

  /**
   Reading UTF-8 byte by byte: state 1 is between two characters, the states above it
   are inside one. `ascii` says which one-byte characters there are.
   */
  function NextUtf8(ascii: byte -> bool, q: nat, b: byte): nat {
    if q == 1 then
      if b < 0x80 then if ascii(b) then 1 else DEAD
      else if 0xC2 <= b <= 0xDF then 2
      else if b == 0xE0 then 3
      else if b == 0xED then 5
      else if 0xE1 <= b <= 0xEF then 4
      else if b == 0xF0 then 6
      else if 0xF1 <= b <= 0xF3 then 7
      else if b == 0xF4 then 8
      else DEAD
    else if q == 2 then if 0x80 <= b <= 0xBF then 1 else DEAD
    else if q == 3 then if 0xA0 <= b <= 0xBF then 2 else DEAD
    else if q == 4 then if 0x80 <= b <= 0xBF then 2 else DEAD
    else if q == 5 then if 0x80 <= b <= 0x9F then 2 else DEAD
    else if q == 6 then if 0x90 <= b <= 0xBF then 4 else DEAD
    else if q == 7 then if 0x80 <= b <= 0xBF then 4 else DEAD
    else if q == 8 then if 0x80 <= b <= 0x8F then 4 else DEAD
    else DEAD
  }

  /** All UTF-8 text whose one-byte characters are in a class. */
  function Utf8Of(ascii: byte -> bool): Dfa {
    Dfa(1, (q, b) => NextUtf8(ascii, q, b), q => q == 1)
  }

  /** All valid UTF-8. */
  const UTF8: Dfa := Utf8Of(AnyByte)

  predicate AnyByte(b: byte) { true }

  /** All text whose characters are in a class of one-byte characters. */
  function AsciiOf(ascii: byte -> bool): Dfa {
    Dfa(1, (q, b) => if q == 1 && b < 0x80 && ascii(b) then 1 else DEAD, q => q == 1)
  }

  lemma ClassesWellFormed(ascii: byte -> bool)
    ensures WellFormed(Utf8Of(ascii)) && WellFormed(AsciiOf(ascii))
  { }

  lemma {:induction false} AsciiRun(ascii: byte -> bool, s: bytes)
    ensures Run(AsciiOf(ascii), s) == if forall i :: 0 <= i < |s| ==> s[i] < 0x80 && ascii(s[i]) then 1 else DEAD
    decreases |s|
  {
    if s != [] {
      var init := s[..|s| - 1];
      AsciiRun(ascii, init);
      assert forall i :: 0 <= i < |init| ==> s[i] == init[i];
      if forall i :: 0 <= i < |init| ==> init[i] < 0x80 && ascii(init[i]) {
        assert (forall i :: 0 <= i < |s| ==> s[i] < 0x80 && ascii(s[i])) <==> s[|s| - 1] < 0x80 && ascii(s[|s| - 1]);
      } else {
        assert !(forall i :: 0 <= i < |s| ==> s[i] < 0x80 && ascii(s[i]));
      }
    }
  }

  /** Between characters, what comes next is read as from the beginning. */
  lemma {:induction false} RunFromBoundary(ascii: byte -> bool, s: bytes, t: bytes)
    requires Run(Utf8Of(ascii), s) == 1
    ensures Run(Utf8Of(ascii), s + t) == Run(Utf8Of(ascii), t)
    decreases |t|
  {
    if t == [] {
      assert s + t == s;
    } else {
      RunFromBoundary(ascii, s, t[..|t| - 1]);
      assert (s + t)[..|s + t| - 1] == s + t[..|t| - 1];
    }
  }

  /** Text of a class is UTF-8, and inside a character where that is. */
  lemma {:induction false} ClassIsUtf8(ascii: byte -> bool, s: bytes)
    requires Run(Utf8Of(ascii), s) != DEAD
    ensures Run(UTF8, s) == Run(Utf8Of(ascii), s)
    decreases |s|
  {
    if s != [] { ClassIsUtf8(ascii, s[..|s| - 1]); }
  }

  /** A first part of text of a class is a first part of such text. */
  lemma PrefixAlive(ascii: byte -> bool, s: bytes, k: nat)
    requires Run(Utf8Of(ascii), s) != DEAD && k <= |s|
    ensures Run(Utf8Of(ascii), s[..k]) != DEAD
  {
    assert s[..|s|] == s;
    if Run(Utf8Of(ascii), s[..k]) == DEAD { DeadEnds(Utf8Of(ascii), s, k, |s|); }
  }

  lemma {:induction false} AsciiIsUtf8(ascii: byte -> bool, s: bytes)
    requires Run(AsciiOf(ascii), s) == 1
    ensures Run(Utf8Of(ascii), s) == 1
    decreases |s|
  {
    if s != [] { AsciiIsUtf8(ascii, s[..|s| - 1]); }
  }

  lemma {:induction false} AllAscii(s: bytes)
    requires forall i :: 0 <= i < |s| ==> s[i] < 0x80
    ensures Run(UTF8, s) == 1
    decreases |s|
  {
    if s != [] { AllAscii(s[..|s| - 1]); }
  }

  lemma AfterAscii(s: bytes, t: bytes)
    requires forall i :: 0 <= i < |s| ==> s[i] < 0x80
    ensures Run(UTF8, s + t) == Run(UTF8, t)
  {
    AllAscii(s);
    RunFromBoundary(AnyByte, s, t);
  }
}
