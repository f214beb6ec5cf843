/**
 What the regular expressions of the grammars match, said of the characters of a
 text and not of the automata.
 */
module Expressions {
  import opened AddressSyntax
  import opened Automata
  import opened Bytes
  import opened CommandSyntax
  import opened Utf8
  import ReplySyntax

  // ------------------------------------------------------------------ characters

  predicate IsDigit(c: char) { '0' <= c <= '9' }

  predicate IsAlnum(c: char) { IsDigit(c) || 'A' <= c <= 'Z' || 'a' <= c <= 'z' }

  predicate IsHex(c: char) { IsDigit(c) || 'A' <= c <= 'F' || 'a' <= c <= 'f' }

  /** The one-byte characters that are not control characters: from the space to the tilde. */
  predicate IsPrintable(c: char) { ' ' <= c <= '~' }

  /** What a dot-string is made of. */
  predicate IsAtom(c: char) { IsAlnum(c) || c in "!#$%&'*+,-./=?^_`{|}~" }

  predicate Each(s: bytes, p: char -> bool) {
    forall i :: 0 <= i < |s| ==> p(Chr(s[i]))
  }

  predicate Starts(s: bytes, t: string) {
    |t| <= |s| && forall i :: 0 <= i < |t| ==> Chr(s[i]) == t[i]
  }

  lemma EachMore(s: bytes, p: char -> bool)
    requires s != []
    ensures Each(s, p) <==> Each(s[..|s| - 1], p) && p(Chr(s[|s| - 1]))
  {
    var init := s[..|s| - 1];
    assert forall i :: 0 <= i < |init| ==> s[i] == init[i];
    if Each(init, p) && p(Chr(s[|s| - 1])) {
      forall i | 0 <= i < |s| ensures p(Chr(s[i])) { if i < |init| { assert p(Chr(init[i])); } }
    }
  }

  // ------------------------------------------------------------------ replies

  /** `[2-5][0-9][0-9]` */
  lemma ReplyCodeIs(s: bytes)
    ensures Accepts(ReplySyntax.REPLY_CODE, s) <==> |s| == 3 && '2' <= Chr(s[0]) <= '5' && IsDigit(Chr(s[1])) && IsDigit(Chr(s[2]))
  {
    CodeState(s);
  }

  lemma {:induction false} CodeState(s: bytes)
    ensures Run(ReplySyntax.REPLY_CODE, s) ==
            if |s| <= 3 && (|s| > 0 ==> '2' <= Chr(s[0]) <= '5') && (|s| > 1 ==> IsDigit(Chr(s[1]))) && (|s| > 2 ==> IsDigit(Chr(s[2])))
            then |s| + 1 else DEAD
    decreases |s|
  {
    if s != [] { CodeState(s[..|s| - 1]); }
  }

  /** Two numbers of one to three digits, with a dot before each: the second dot is at `i`. */
  predicate Numbers(s: bytes, i: nat) {
    && 3 <= i <= 5 && i + 2 <= |s| <= i + 4 && Chr(s[1]) == '.' && Chr(s[i]) == '.'
    && Each(s[2..i], IsDigit) && Each(s[i + 1..], IsDigit)
  }

  /** `[245]\.[0-9]{1,3}\.[0-9]{1,3}` */
  lemma EnhancedCodeIs(s: bytes)
    ensures Accepts(ReplySyntax.ENHANCED_CODE, s) <==> |s| > 0 && Chr(s[0]) in "245" && exists i :: Numbers(s, i)
  {
    EnhancedState(s);
    if Accepts(ReplySyntax.ENHANCED_CODE, s) {
      var i :| EnhancedMeans(Run(ReplySyntax.ENHANCED_CODE, s), s, i);
      assert Numbers(s, i);
    }
    if i :| |s| > 0 && Chr(s[0]) in "245" && Numbers(s, i) {
      assert EnhancedMeans(|s| - i - 1 + 7, s, i);
      EnhancedRun(|s| - i - 1 + 7, s, i);
    }
  }

  /** What has been read in state `q`; from 7 on, the second dot was at `i`. */
  predicate EnhancedMeans(q: nat, s: bytes, i: nat) {
    && 1 <= q <= 10 && (q > 1 ==> |s| > 0 && Chr(s[0]) in "245") && (q > 2 ==> |s| > 1 && Chr(s[1]) == '.')
    && if q <= 6 then |s| == q - 1 && (q > 2 ==> Each(s[2..], IsDigit))
       else 3 <= i <= 5 && |s| == i + 1 + (q - 7) && Chr(s[i]) == '.' && Each(s[2..i], IsDigit) && Each(s[i + 1..], IsDigit)
  }

  lemma {:induction false} EnhancedState(s: bytes)
    ensures Run(ReplySyntax.ENHANCED_CODE, s) != DEAD ==> exists i: nat :: EnhancedMeans(Run(ReplySyntax.ENHANCED_CODE, s), s, i)
    decreases |s|
  {
    if s == [] {
      assert EnhancedMeans(1, s, 0);
    } else if Run(ReplySyntax.ENHANCED_CODE, s) != DEAD {
      var n := |s| - 1;
      EnhancedState(s[..n]);
      var q := Run(ReplySyntax.ENHANCED_CODE, s[..n]);
      var i: nat :| EnhancedMeans(q, s[..n], i);
      i := EnhancedStep(q, s, i);
    }
  }

  lemma EnhancedStep(q: nat, s: bytes, i: nat) returns (j: nat)
    requires s != [] && EnhancedMeans(q, s[..|s| - 1], i) && ReplySyntax.NextEnhanced(q, s[|s| - 1]) != DEAD
    ensures EnhancedMeans(ReplySyntax.NextEnhanced(q, s[|s| - 1]), s, j)
  {
    var n, q' := |s| - 1, ReplySyntax.NextEnhanced(q, s[|s| - 1]);
    j := if q' == 7 then n else i;
    if q' == 7 {
      assert s[2..n] == s[..n][2..];
    } else if q' > 7 {
      assert s[2..i] == s[..n][2..i] && s[i + 1..][..|s[i + 1..]| - 1] == s[..n][i + 1..];
      EachMore(s[i + 1..], IsDigit);
    } else if q' > 3 {
      assert s[2..][..|s[2..]| - 1] == s[..n][2..];
      EachMore(s[2..], IsDigit);
    }
  }

  lemma {:induction false} EnhancedRun(q: nat, s: bytes, i: nat)
    requires EnhancedMeans(q, s, i)
    ensures Run(ReplySyntax.ENHANCED_CODE, s) == q
    decreases |s|
  {
    if s != [] {
      var n := |s| - 1;
      if q > 7 {
        assert s[2..i] == s[..n][2..i] && s[i + 1..][..|s[i + 1..]| - 1] == s[..n][i + 1..];
        EachMore(s[i + 1..], IsDigit);
        EnhancedRun(q - 1, s[..n], i);
      } else if q == 7 {
        assert s[2..i] == s[..n][2..];
        EnhancedRun(n + 1, s[..n], i);
      } else {
        if q > 3 {
          assert s[2..][..|s[2..]| - 1] == s[..n][2..];
          EachMore(s[2..], IsDigit);
        }
        EnhancedRun(q - 1, s[..n], i);
      }
    }
  }

  /** `[\t -~]*` */
  lemma TextIs(s: bytes)
    ensures Accepts(ReplySyntax.TEXT_ASCII, s) <==> Each(s, c => c == '\t' || IsPrintable(c))
  {
    AsciiRun(ReplySyntax.TextByte, s);
    assert forall i :: 0 <= i < |s| ==> (s[i] < 0x80 && ReplySyntax.TextByte(s[i]) <==> Chr(s[i]) == '\t' || IsPrintable(Chr(s[i])));
  }

  // ------------------------------------------------------------------ parameters

  /** `[[:alnum:]]([[:alnum:]-])*` */
  lemma {:induction false} ParameterNameIs(s: bytes)
    ensures Accepts(PARAMETER_NAME, s) <==> |s| > 0 && IsAlnum(Chr(s[0])) && Each(s, c => IsAlnum(c) || c == '-')
    ensures Run(PARAMETER_NAME, s) == if s == [] then 1 else if Accepts(PARAMETER_NAME, s) then 2 else DEAD
    decreases |s|
  {
    if s != [] {
      ParameterNameIs(s[..|s| - 1]);
      EachMore(s, c => IsAlnum(c) || c == '-');
    }
  }

  lemma {:induction false} AsciiPlusRun(ascii: byte -> bool, s: bytes)
    ensures Run(AsciiPlus(ascii), s) ==
            if s == [] then 9 else if forall i :: 0 <= i < |s| ==> s[i] < 0x80 && ascii(s[i]) then 1 else DEAD
    decreases |s|
  {
    if s != [] {
      var init := s[..|s| - 1];
      AsciiPlusRun(ascii, init);
      assert forall i :: 0 <= i < |init| ==> s[i] == init[i];
      if forall i :: 0 <= i < |init| ==> init[i] < 0x80 && ascii(init[i]) {
        assert (forall i :: 0 <= i < |s| ==> s[i] < 0x80 && ascii(s[i])) <==> s[|s| - 1] < 0x80 && ascii(s[|s| - 1]);
      } else {
        assert !(forall i :: 0 <= i < |s| ==> s[i] < 0x80 && ascii(s[i]));
      }
    }
  }

  /** `[[:ascii:]&&[^= [:cntrl:]]]+` */
  lemma ValueIs(s: bytes)
    ensures Accepts(VALUE_ASCII, s) <==> s != [] && Each(s, c => '!' <= c <= '~' && c != '=')
  {
    AsciiPlusRun(ValueByte, s);
    assert forall i :: 0 <= i < |s| ==> (s[i] < 0x80 && ValueByte(s[i]) <==> '!' <= Chr(s[i]) <= '~' && Chr(s[i]) != '=');
  }

  // ------------------------------------------------------------------ host names

  /** The beginning of a domain: every dot in it has a letter or digit before it, and after it unless it is the last byte. */
  predicate BeginsDomain(s: bytes) {
    && s != [] && IsAlnum(Chr(s[0])) && Each(s, c => IsAlnum(c) || c in "-.")
    && forall i {:trigger s[i]} :: 0 < i < |s| && Chr(s[i]) == '.' ==> IsAlnum(Chr(s[i - 1])) && (i + 1 < |s| ==> IsAlnum(Chr(s[i + 1])))
  }

  /** Labels of letters, digits and dashes with dots between them; a label begins and ends with a letter or digit. */
  predicate IsDomain(s: bytes) {
    BeginsDomain(s) && IsAlnum(Chr(s[|s| - 1]))
  }

  /** `open`, one character or more of a kind, and a closing bracket. */
  predicate IsBracketed(s: bytes, open: string, p: char -> bool) {
    Starts(s, open) && |s| >= |open| + 2 && Each(s[|open|..|s| - 1], p) && Chr(s[|s| - 1]) == ']'
  }

  predicate IsHostname(s: bytes) {
    IsDomain(s) || IsBracketed(s, "[IPv6:", c => IsHex(c) || c in ":.") || IsBracketed(s, "[", c => IsDigit(c) || c == '.')
  }

  /** What has been read in state `q` of the expression for host names. */
  predicate HostMeans(q: nat, s: bytes) {
    if q == 1 then s == []
    else if q == 2 then IsDomain(s)
    else if q == 4 then BeginsDomain(s) && Chr(s[|s| - 1]) == '-'
    else if q == 5 then BeginsDomain(s) && Chr(s[|s| - 1]) == '.'
    else if q == 3 then |s| == 1 && Starts(s, "[")
    else if 6 <= q <= 10 then |s| == q - 4 && Starts(s, "[IPv6:"[..q - 4])
    else if q == 11 then |s| > 1 && Starts(s, "[") && Each(s[1..], c => IsDigit(c) || c == '.')
    else if q == 12 then |s| > 6 && Starts(s, "[IPv6:") && Each(s[6..], c => IsHex(c) || c in ":.")
    else q == 13 && !IsDomain(s) && IsHostname(s)
  }

  lemma DomainMore(s: bytes)
    requires |s| > 1
    ensures BeginsDomain(s) <==>
            && BeginsDomain(s[..|s| - 1])
            && var a, b := Chr(s[|s| - 2]), Chr(s[|s| - 1]); IsAlnum(b) || (b == '-' && a != '.') || (b == '.' && IsAlnum(a))
  {
    var n := |s| - 1;
    EachMore(s, c => IsAlnum(c) || c in "-.");
    assert forall i :: 0 <= i < n ==> s[..n][i] == s[i];
  }

  lemma BracketMore(s: bytes, k: nat, p: char -> bool)
    requires k < |s|
    ensures Each(s[k..], p) <==> Each(s[k..|s| - 1], p) && p(Chr(s[|s| - 1]))
    ensures s[k..|s| - 1] == s[..|s| - 1][k..]
  {
    EachMore(s[k..], p);
    assert s[k..][..|s[k..]| - 1] == s[k..|s| - 1];
  }

  lemma HostStepDomain(q: nat, s: bytes)
    requires |s| > 1 && HostMeans(q, s[..|s| - 1]) && (q == 2 || q == 4 || q == 5)
    ensures var q' := NextHostname(q, s[|s| - 1]); q' != DEAD ==> HostMeans(q', s)
  {
    DomainMore(s);
  }

  lemma HostStepBracket(q: nat, s: bytes)
    requires s != [] && HostMeans(q, s[..|s| - 1]) && (q == 3 || 6 <= q)
    ensures var q' := NextHostname(q, s[|s| - 1]); q' != DEAD ==> HostMeans(q', s)
  {
    var n, q' := |s| - 1, NextHostname(q, s[|s| - 1]);
    assert forall i :: 0 <= i < n ==> s[..n][i] == s[i];
    if q' == 11 { BracketMore(s, 1, c => IsDigit(c) || c == '.'); }
    if q' == 12 { BracketMore(s, 6, c => IsHex(c) || c in ":."); }
    if q' == 13 {
      assert s[1..n] == s[..n][1..] && (q == 12 ==> s[6..n] == s[..n][6..]);
      assert if q == 12 then IsBracketed(s, "[IPv6:", c => IsHex(c) || c in ":.") else IsBracketed(s, "[", c => IsDigit(c) || c == '.');
    }
  }

  lemma {:induction false} HostState(s: bytes)
    ensures Run(HOSTNAME_ASCII, s) != DEAD ==> HostMeans(Run(HOSTNAME_ASCII, s), s)
    decreases |s|
  {
    if s != [] {
      var q := Run(HOSTNAME_ASCII, s[..|s| - 1]);
      HostState(s[..|s| - 1]);
      if q == 2 || q == 4 || q == 5 { HostStepDomain(q, s); } else if q != 1 && q != DEAD { HostStepBracket(q, s); }
    }
  }

  /** The state before the last byte. */
  function HostBefore(q: nat, s: bytes): nat
    requires s != []
  {
    if |s| == 1 then 1
    else if q == 2 || q == 4 || q == 5 then var a := Chr(s[|s| - 2]); if a == '-' then 4 else if a == '.' then 5 else 2
    else if q == 6 then 3
    else if 7 <= q <= 10 then q - 1
    else if q == 11 then if |s| == 2 then 3 else 11
    else if q == 12 then if |s| == 7 then 10 else 12
    else if Chr(s[1]) == 'I' then 12 else 11
  }

  lemma HostBackDomain(q: nat, s: bytes)
    requires s != [] && HostMeans(q, s) && (q == 2 || q == 4 || q == 5)
    ensures HostMeans(HostBefore(q, s), s[..|s| - 1]) && NextHostname(HostBefore(q, s), s[|s| - 1]) == q
  {
    if |s| > 1 { DomainMore(s); }
  }

  lemma HostBackBracket(q: nat, s: bytes)
    requires s != [] && HostMeans(q, s) && (q == 3 || 6 <= q <= 12)
    ensures HostMeans(HostBefore(q, s), s[..|s| - 1]) && NextHostname(HostBefore(q, s), s[|s| - 1]) == q
  {
    var n := |s| - 1;
    assert forall i :: 0 <= i < n ==> s[..n][i] == s[i];
    if q == 11 { BracketMore(s, 1, c => IsDigit(c) || c == '.'); }
    if q == 12 { BracketMore(s, 6, c => IsHex(c) || c in ":."); }
  }

  lemma HostBackClosed(s: bytes)
    requires HostMeans(13, s)
    ensures HostMeans(HostBefore(13, s), s[..|s| - 1]) && NextHostname(HostBefore(13, s), s[|s| - 1]) == 13
  {
    var n := |s| - 1;
    assert forall i :: 0 <= i < n ==> s[..n][i] == s[i];
    if IsBracketed(s, "[IPv6:", c => IsHex(c) || c in ":.") {
      assert s[6..n] == s[..n][6..] && Chr(s[1]) == "[IPv6:"[1];
    } else {
      assert s[1..n] == s[..n][1..] && s[1] == s[1..n][0];
    }
  }

  lemma {:induction false} HostRun(q: nat, s: bytes)
    requires HostMeans(q, s)
    ensures Run(HOSTNAME_ASCII, s) == q
    decreases |s|
  {
    if s != [] {
      if q == 2 || q == 4 || q == 5 { HostBackDomain(q, s); } else if q == 13 { HostBackClosed(s); } else { HostBackBracket(q, s); }
      HostRun(HostBefore(q, s), s[..|s| - 1]);
    }
  }

  /** A domain, or an address in brackets. */
  lemma HostnameIs(s: bytes)
    ensures Accepts(HOSTNAME_ASCII, s) <==> IsHostname(s)
  {
    HostState(s);
    if IsDomain(s) { HostRun(2, s); } else if IsHostname(s) { HostRun(13, s); }
  }

  // ------------------------------------------------------------------ local parts

  /** Characters, each of them plain or after a backslash; a byte of a longer character is plain. */
  predicate IsEscaped(s: bytes) {
    || s == []
    || (IsEscaped(s[..|s| - 1]) && IsPlain(s[|s| - 1]))
    || (|s| > 1 && IsEscaped(s[..|s| - 2]) && Chr(s[|s| - 2]) == '\\' && !IsControl(s[|s| - 1]))
  }

  predicate IsControl(b: byte) { b < 0x80 && !IsPrintable(Chr(b)) }

  predicate IsPlain(b: byte) { !IsControl(b) && Chr(b) != '\\' && Chr(b) != '"' }

  /** `"`, one character or more, and `"`. */
  predicate IsQuoted(s: bytes) {
    |s| > 2 && Chr(s[0]) == '"' && IsEscaped(s[1..|s| - 1]) && Chr(s[|s| - 1]) == '"'
  }

  predicate IsAscii(s: bytes) { forall i :: 0 <= i < |s| ==> s[i] < 0x80 }

  lemma AsciiMore(s: bytes)
    requires s != []
    ensures IsAscii(s) <==> IsAscii(s[..|s| - 1]) && s[|s| - 1] < 0x80
  {
    assert forall i :: 0 <= i < |s| - 1 ==> s[..|s| - 1][i] == s[i];
  }

  /** What has been read in state `q` of the expression for ASCII local parts. */
  predicate LocalMeans(q: nat, s: bytes) {
    if q == 1 then s == []
    else if q == 2 then s != [] && Each(s, IsAtom)
    else if q == 3 then |s| == 1 && Chr(s[0]) == '"'
    else if q == 4 then |s| > 1 && IsAscii(s) && Chr(s[0]) == '"' && IsEscaped(s[1..])
    else if q == 5 then |s| > 1 && IsAscii(s) && Chr(s[0]) == '"' && IsEscaped(s[1..|s| - 1]) && Chr(s[|s| - 1]) == '\\'
    else q == 6 && IsAscii(s) && IsQuoted(s)
  }

  /** The parts of a quoted string without its last bytes. */
  lemma Inside(s: bytes)
    requires |s| > 1
    ensures var n := |s| - 1; s[1..][..|s[1..]| - 1] == s[1..n] == s[..n][1..] && s[1..][|s[1..]| - 1] == s[n] && s[..n][0] == s[0]
    ensures |s| > 2 ==> var n := |s| - 1;
            s[1..][..|s[1..]| - 2] == s[1..n - 1] == s[..n][1..n - 1] && s[1..][|s[1..]| - 2] == s[n - 1] == s[..n][n - 1]
  { }

  lemma EscapedMore(s: bytes)
    requires s != []
    ensures IsEscaped(s[..|s| - 1]) && IsPlain(s[|s| - 1]) ==> IsEscaped(s)
    ensures |s| > 1 && IsEscaped(s[..|s| - 2]) && Chr(s[|s| - 2]) == '\\' && !IsControl(s[|s| - 1]) ==> IsEscaped(s)
  { }

  lemma LocalStepQuoted(q: nat, s: bytes)
    requires |s| > 1 && q >= 3 && LocalMeans(q, s[..|s| - 1])
    ensures var q' := NextLocalpart(q, s[|s| - 1]); q' != DEAD ==> LocalMeans(q', s)
  {
    Inside(s);
    AsciiMore(s);
    EscapedMore(s[1..]);
    assert q == 3 ==> s[1..|s| - 1] == [];
  }

  lemma LocalStep(q: nat, s: bytes)
    requires s != [] && q != DEAD && LocalMeans(q, s[..|s| - 1])
    ensures var q' := NextLocalpart(q, s[|s| - 1]); q' != DEAD ==> LocalMeans(q', s)
  {
    if q <= 2 { EachMore(s, IsAtom); } else { LocalStepQuoted(q, s); }
  }

  lemma {:induction false} LocalState(s: bytes)
    ensures Run(LOCALPART_ASCII, s) != DEAD ==> LocalMeans(Run(LOCALPART_ASCII, s), s)
    decreases |s|
  {
    if s != [] {
      LocalState(s[..|s| - 1]);
      if Run(LOCALPART_ASCII, s[..|s| - 1]) != DEAD { LocalStep(Run(LOCALPART_ASCII, s[..|s| - 1]), s); }
    }
  }

  lemma LocalBackAtom(q: nat, s: bytes) returns (before: nat)
    requires s != [] && q <= 3 && LocalMeans(q, s)
    ensures LocalMeans(before, s[..|s| - 1]) && NextLocalpart(before, s[|s| - 1]) == q
  {
    EachMore(s, IsAtom);
    before := if |s| == 1 then 1 else 2;
  }

  lemma LocalBackQuoted(q: nat, s: bytes) returns (before: nat)
    requires s != [] && q > 3 && LocalMeans(q, s)
    ensures LocalMeans(before, s[..|s| - 1]) && NextLocalpart(before, s[|s| - 1]) == q
  {
    var n := |s| - 1;
    Inside(s);
    AsciiMore(s);
    if q == 4 && !(IsEscaped(s[1..n]) && IsPlain(s[n])) {
      before := 5;
    } else {
      before := if |s| == 2 then 3 else 4;
    }
  }

  lemma LocalBack(q: nat, s: bytes) returns (before: nat)
    requires s != [] && LocalMeans(q, s)
    ensures LocalMeans(before, s[..|s| - 1]) && NextLocalpart(before, s[|s| - 1]) == q
  {
    if q <= 3 { before := LocalBackAtom(q, s); } else { before := LocalBackQuoted(q, s); }
  }

  lemma {:induction false} LocalRun(q: nat, s: bytes)
    requires LocalMeans(q, s)
    ensures Run(LOCALPART_ASCII, s) == q
    decreases |s|
  {
    if s != [] {
      var before := LocalBack(q, s);
      LocalRun(before, s[..|s| - 1]);
    }
  }

  /** A dot-string, or a quoted string. */
  lemma LocalpartIs(s: bytes)
    ensures Accepts(LOCALPART_ASCII, s) <==> (s != [] && Each(s, IsAtom)) || (IsAscii(s) && IsQuoted(s))
  {
    LocalState(s);
    if s != [] && Each(s, IsAtom) { LocalRun(2, s); } else if IsAscii(s) && IsQuoted(s) { LocalRun(6, s); }
  }

  // ------------------------------------------------------------------ UTF-8

  /** The numbers of characters. */
  predicate IsScalar(c: nat) { c < 0xD800 || 0xE000 <= c < 0x110000 }

  /** The bytes of a character, as section 3 of RFC 3629 has them. */
  function EncodeChar(c: nat): bytes
    requires IsScalar(c)
  {
    if c < 0x80 then [c as byte]
    else if c < 0x800 then [(0xC0 + c / 0x40) as byte, (0x80 + c % 0x40) as byte]
    else if c < 0x10000 then [(0xE0 + c / 0x1000) as byte, (0x80 + c / 0x40 % 0x40) as byte, (0x80 + c % 0x40) as byte]
    else [(0xF0 + c / 0x40000) as byte, (0x80 + c / 0x1000 % 0x40) as byte, (0x80 + c / 0x40 % 0x40) as byte, (0x80 + c % 0x40) as byte]
  }

  predicate Continues(b: byte) { 0x80 <= b <= 0xBF }

  /** The same, as the table of section 4 of RFC 3629 has them. */
  predicate IsChar(e: bytes) {
    if |e| == 1 then e[0] < 0x80
    else if |e| == 2 then 0xC2 <= e[0] <= 0xDF && Continues(e[1])
    else if |e| == 3 then
      0xE0 <= e[0] <= 0xEF && Continues(e[1]) && Continues(e[2]) && (e[0] == 0xE0 ==> e[1] >= 0xA0) && (e[0] == 0xED ==> e[1] <= 0x9F)
    else
      && |e| == 4 && 0xF0 <= e[0] <= 0xF4 && Continues(e[1]) && Continues(e[2]) && Continues(e[3])
      && (e[0] == 0xF0 ==> e[1] >= 0x90) && (e[0] == 0xF4 ==> e[1] <= 0x8F)
  }

  lemma LongIsChar(c: nat)
    requires IsScalar(c) && c >= 0x10000
    ensures IsChar(EncodeChar(c))
  { }

  lemma EncodedIsChar(c: nat)
    requires IsScalar(c)
    ensures IsChar(EncodeChar(c))
  {
    if c >= 0x10000 { LongIsChar(c); }
  }

  lemma Digits(a: nat, b: nat)
    requires b < 0x40
    ensures (0x40 * a + b) / 0x40 == a && (0x40 * a + b) % 0x40 == b
  { }

  function DecodeChar(e: bytes): nat
    requires IsChar(e)
  {
    if |e| == 1 then e[0] as nat
    else if |e| == 2 then 0x40 * (e[0] as nat - 0xC0) + (e[1] as nat - 0x80)
    else if |e| == 3 then 0x40 * (0x40 * (e[0] as nat - 0xE0) + (e[1] as nat - 0x80)) + (e[2] as nat - 0x80)
    else 0x40 * (0x40 * (0x40 * (e[0] as nat - 0xF0) + (e[1] as nat - 0x80)) + (e[2] as nat - 0x80)) + (e[3] as nat - 0x80)
  }

  lemma CharIsEncoded(e: bytes)
    requires IsChar(e)
    ensures IsScalar(DecodeChar(e)) && EncodeChar(DecodeChar(e)) == e
  {
    if |e| >= 2 {
      var a := e[0] as nat - (if |e| == 2 then 0xC0 else if |e| == 3 then 0xE0 else 0xF0);
      var b := e[1] as nat - 0x80;
      Digits(a, b);
      if |e| >= 3 {
        var c := e[2] as nat - 0x80;
        Digits(0x40 * a + b, c);
        if |e| == 4 { Digits(0x40 * (0x40 * a + b) + c, e[3] as nat - 0x80); }
      }
    }
  }

  predicate AreScalars(cs: seq<nat>) { forall i :: 0 <= i < |cs| ==> IsScalar(cs[i]) }

  function Encode(cs: seq<nat>): bytes
    requires AreScalars(cs)
  {
    if cs == [] then [] else Encode(cs[..|cs| - 1]) + EncodeChar(cs[|cs| - 1])
  }

  function Step(q: nat, b: byte): nat { NextUtf8(AnyByte, q, b) }

  lemma RunAt(s: bytes, k: nat)
    requires k < |s|
    ensures Run(UTF8, s[..k + 1]) == Step(Run(UTF8, s[..k]), s[k])
  {
    assert s[..k + 1][..k] == s[..k];
  }

  lemma CharSteps(e: bytes)
    requires IsChar(e)
    ensures var q := Step(1, e[0]);
            if |e| == 1 then q == 1
            else var q := Step(q, e[1]); if |e| == 2 then q == 1
            else var q := Step(q, e[2]); if |e| == 3 then q == 1
            else Step(q, e[3]) == 1
  { }

  lemma CharRuns(s: bytes, e: bytes)
    requires IsChar(e) && Run(UTF8, s) == 1
    ensures Run(UTF8, s + e) == 1
  {
    var t, n := s + e, |s|;
    CharSteps(e);
    assert t[..n] == s && t[..|t|] == t;
    RunAt(t, n);
    if |e| > 1 { RunAt(t, n + 1); }
    if |e| > 2 { RunAt(t, n + 2); }
    if |e| > 3 { RunAt(t, n + 3); }
  }

  lemma {:induction false} EncodeIsUtf8(cs: seq<nat>)
    requires AreScalars(cs)
    ensures Accepts(UTF8, Encode(cs))
    decreases |cs|
  {
    if cs != [] {
      EncodeIsUtf8(cs[..|cs| - 1]);
      EncodedIsChar(cs[|cs| - 1]);
      CharRuns(Encode(cs[..|cs| - 1]), EncodeChar(cs[|cs| - 1]));
    }
  }

  /** The only ways to the end of a character. */
  lemma StepsBack(q: nat, b: byte)
    ensures Step(q, b) == 1 ==> (q == 1 && b < 0x80) || (q == 2 && Continues(b))
    ensures Step(q, b) == 2 ==> (q == 1 && 0xC2 <= b <= 0xDF) || (q in {3, 4, 5} && Continues(b) && (q == 3 ==> b >= 0xA0) && (q == 5 ==> b <= 0x9F))
    ensures Step(q, b) == 3 ==> q == 1 && b == 0xE0
    ensures Step(q, b) == 4 ==>
              || (q == 1 && 0xE1 <= b <= 0xEF && b != 0xED)
              || (q in {6, 7, 8} && Continues(b) && (q == 6 ==> b >= 0x90) && (q == 8 ==> b <= 0x8F))
    ensures Step(q, b) == 5 ==> q == 1 && b == 0xED
    ensures Step(q, b) == 6 ==> q == 1 && b == 0xF0
    ensures Step(q, b) == 7 ==> q == 1 && 0xF1 <= b <= 0xF3
    ensures Step(q, b) == 8 ==> q == 1 && b == 0xF4
  { }

  /** Valid text ends with a character, of `n` bytes. */
  lemma LastPartStep(s: bytes, m: nat)
    requires 0 < m <= |s| && if m == |s| then Run(UTF8, s[..m]) == 1 else Run(UTF8, s[..m]) != 1 && LastPart(Run(UTF8, s[..m]), s[m..])
    ensures LastPart(Run(UTF8, s[..m - 1]), s[m - 1..])
  {
    var q, b, e := Run(UTF8, s[..m - 1]), s[m - 1], s[m..];
    RunAt(s, m - 1);
    LastPartMore(q, b, e);
    LastSlice(s, m);
  }

  lemma LastSlice(s: bytes, m: nat)
    requires 0 < m <= |s|
    ensures s[m - 1..] == [s[m - 1]] + s[m..]
  { }

  lemma {:induction false} CharFrom(s: bytes, m: nat) returns (k: nat)
    requires m < |s| && LastPart(Run(UTF8, s[..m]), s[m..])
    ensures k < |s| && IsChar(s[k..]) && Run(UTF8, s[..k]) == 1
  {
    if Run(UTF8, s[..m]) == 1 {
      k := m;
    } else {
      LastPartStep(s, m);
      k := CharFrom(s, m - 1);
    }
  }

  lemma LastChar(s: bytes) returns (k: nat)
    requires s != [] && Run(UTF8, s) == 1
    ensures k < |s| && IsChar(s[k..]) && Run(UTF8, s[..k]) == 1
  {
    assert s[..|s|] == s;
    LastPartStep(s, |s|);
    k := CharFrom(s, |s| - 1);
  }

  /** The last bytes of a character of which the first ones lead to state `q`. */
  predicate LastPart(q: nat, e: bytes) {
    && 1 <= |e| <= 4 && (|e| > 1 ==> Continues(e[|e| - 1])) && (|e| > 2 ==> Continues(e[|e| - 2])) && (|e| > 3 ==> Continues(e[|e| - 3]))
    && if q == 1 then IsChar(e)
       else if q == 2 then |e| == 1 && Continues(e[0])
       else if q in {3, 4, 5} then |e| == 2 && Continues(e[0]) && (q == 3 ==> e[0] >= 0xA0) && (q == 5 ==> e[0] <= 0x9F)
       else q in {6, 7, 8} && |e| == 3 && Continues(e[0]) && (q == 6 ==> e[0] >= 0x90) && (q == 8 ==> e[0] <= 0x8F)
  }

  lemma LastPartMore(q: nat, b: byte, e: bytes)
    requires if e == [] then Step(q, b) == 1 else Step(q, b) != 1 && LastPart(Step(q, b), e)
    ensures LastPart(q, [b] + e)
  {
    StepsBack(q, b);
  }

  lemma {:induction false} Utf8IsEncoded(s: bytes) returns (cs: seq<nat>)
    requires Accepts(UTF8, s)
    ensures AreScalars(cs) && s == Encode(cs)
    decreases |s|
  {
    cs := [];
    if s != [] {
      var k := LastChar(s);
      var e := s[k..];
      cs := Utf8IsEncoded(s[..k]);
      CharIsEncoded(e);
      var cs' := cs + [DecodeChar(e)];
      assert cs'[..|cs'| - 1] == cs && s == s[..k] + e;
      cs := cs';
    }
  }

  /** The automaton for UTF-8 accepts just the encodings of characters. */
  lemma Utf8Is(s: bytes)
    ensures Accepts(UTF8, s) <==> exists cs :: AreScalars(cs) && s == Encode(cs)
  {
    if Accepts(UTF8, s) { var cs := Utf8IsEncoded(s); }
    if cs :| AreScalars(cs) && s == Encode(cs) { EncodeIsUtf8(cs); }
  }

  /** All one-byte characters of a text are of a kind. */
  predicate AsciiEach(s: bytes, p: char -> bool) {
    forall i :: 0 <= i < |s| && s[i] < 0x80 ==> p(Chr(s[i]))
  }

  lemma AsciiEachMore(s: bytes, p: char -> bool)
    requires s != []
    ensures AsciiEach(s, p) <==> AsciiEach(s[..|s| - 1], p) && (s[|s| - 1] < 0x80 ==> p(Chr(s[|s| - 1])))
  {
    var init := s[..|s| - 1];
    assert forall i :: 0 <= i < |init| ==> s[i] == init[i];
    if AsciiEach(init, p) && (s[|s| - 1] < 0x80 ==> p(Chr(s[|s| - 1]))) {
      forall i | 0 <= i < |s| && s[i] < 0x80 ensures p(Chr(s[i])) { if i < |init| { assert init[i] < 0x80; } }
    }
  }

  /** Text whose one-byte characters are in a class. */
  lemma {:induction false} ClassRun(ascii: byte -> bool, p: char -> bool, s: bytes)
    requires forall b :: b < 0x80 ==> (ascii(b) <==> p(Chr(b)))
    ensures Run(Utf8Of(ascii), s) == if AsciiEach(s, p) then Run(UTF8, s) else DEAD
    decreases |s|
  {
    if s != [] {
      ClassRun(ascii, p, s[..|s| - 1]);
      AsciiEachMore(s, p);
    }
  }

  lemma {:induction false} ClassPlusRun(ascii: byte -> bool, s: bytes)
    ensures Run(Utf8Plus(ascii), s) == if s == [] then 9 else Run(Utf8Of(ascii), s)
    decreases |s|
  {
    if s != [] { ClassPlusRun(ascii, s[..|s| - 1]); }
  }

  /** `[\t -~[:^ascii:]]*`, `[^= [:cntrl:]]+` and `([-.[:alnum:]]|[[:^ascii:]])+` */
  lemma Utf8ClassesAre(s: bytes)
    ensures Accepts(ReplySyntax.TEXT_UTF8, s) <==> Accepts(UTF8, s) && AsciiEach(s, c => c == '\t' || IsPrintable(c))
    ensures Accepts(VALUE_UTF8, s) <==> s != [] && Accepts(UTF8, s) && AsciiEach(s, c => '!' <= c <= '~' && c != '=')
    ensures Accepts(HOSTNAME_UTF8, s) <==> s != [] && Accepts(UTF8, s) && AsciiEach(s, c => IsAlnum(c) || c in "-.")
  {
    ClassRun(ReplySyntax.TextByte, c => c == '\t' || IsPrintable(c), s);
    ClassRun(ValueByte, c => '!' <= c <= '~' && c != '=', s);
    ClassPlusRun(ValueByte, s);
    ClassRun(HostByte, c => IsAlnum(c) || c in "-.", s);
    ClassPlusRun(HostByte, s);
  }

  /** What has been read in state `q` of the expression for local parts with all characters. */
  predicate LocalUtf8Means(q: nat, s: bytes) {
    if q == 9 then s == []
    else if 1 <= q <= 8 then s != [] && Run(UTF8, s) == q && AsciiEach(s, IsAtom)
    else if q == 30 then |s| == 1 && Chr(s[0]) == '"'
    else if 31 <= q <= 38 then |s| > 1 && Chr(s[0]) == '"' && Run(UTF8, s[1..]) == q - 30 && IsEscaped(s[1..])
    else if q == 41 then
      |s| > 1 && Chr(s[0]) == '"' && Run(UTF8, s[1..|s| - 1]) == 1 && IsEscaped(s[1..|s| - 1]) && Chr(s[|s| - 1]) == '\\'
    else q == 50 && IsQuoted(s) && Run(UTF8, s[1..|s| - 1]) == 1
  }

  lemma AtomClass(b: byte)
    requires b < 0x80
    ensures AtomByte(b) <==> IsAtom(Chr(b))
  { }

  lemma LocalUtf8StepDot(q: nat, s: bytes)
    requires s != [] && (q == 9 || 1 <= q <= 8) && LocalUtf8Means(q, s[..|s| - 1])
    ensures var q' := NextLocalpartUtf8(q, s[|s| - 1]); q' != DEAD ==> LocalUtf8Means(q', s)
  {
    var n := |s| - 1;
    AsciiEachMore(s, IsAtom);
    assert Run(UTF8, s) == Step(Run(UTF8, s[..n]), s[n]);
    if s[n] < 0x80 { AtomClass(s[n]); }
  }

  lemma LocalUtf8StepQuoted(q: nat, s: bytes)
    requires |s| > 1 && q >= 30 && LocalUtf8Means(q, s[..|s| - 1])
    ensures var q' := NextLocalpartUtf8(q, s[|s| - 1]); q' != DEAD ==> LocalUtf8Means(q', s)
  {
    var n := |s| - 1;
    Inside(s);
    EscapedMore(s[1..]);
    assert Run(UTF8, s[1..]) == Step(Run(UTF8, s[1..n]), s[n]);
    if q == 41 { assert Run(UTF8, s[1..n]) == Step(Run(UTF8, s[1..n - 1]), s[n - 1]) by { assert s[1..n][..n - 2] == s[1..n - 1]; } }
    assert q == 30 ==> s[1..n] == [];
  }

  lemma {:induction false} LocalUtf8State(s: bytes)
    ensures Run(LOCALPART_UTF8, s) != DEAD ==> LocalUtf8Means(Run(LOCALPART_UTF8, s), s)
    decreases |s|
  {
    if s != [] {
      var q := Run(LOCALPART_UTF8, s[..|s| - 1]);
      LocalUtf8State(s[..|s| - 1]);
      if q == 9 || 1 <= q <= 8 { LocalUtf8StepDot(q, s); } else if q != DEAD { LocalUtf8StepQuoted(q, s); }
    }
  }

  /** Within a character no state is dead, and it is left by its last byte. */
  lemma StepAlive(q: nat, b: byte)
    requires Step(q, b) != DEAD
    ensures 1 <= q <= 8 && 1 <= Step(q, b) <= 8 && (q > 1 ==> b >= 0x80) && (q == 1 && b < 0x80 ==> Step(q, b) == 1)
  { }

  lemma LocalUtf8BackDot(q: nat, s: bytes) returns (before: nat)
    requires s != [] && 1 <= q <= 8 && LocalUtf8Means(q, s)
    ensures LocalUtf8Means(before, s[..|s| - 1]) && NextLocalpartUtf8(before, s[|s| - 1]) == q
  {
    var n := |s| - 1;
    StepAlive(Run(UTF8, s[..n]), s[n]);
    AsciiEachMore(s, IsAtom);
    if s[n] < 0x80 { AtomClass(s[n]); }
    before := if n == 0 then 9 else Run(UTF8, s[..n]);
  }

  lemma LocalUtf8BackQuoted(q: nat, s: bytes) returns (before: nat)
    requires |s| > 1 && q > 30 && LocalUtf8Means(q, s)
    ensures LocalUtf8Means(before, s[..|s| - 1]) && NextLocalpartUtf8(before, s[|s| - 1]) == q
  {
    var n := |s| - 1;
    Inside(s);
    assert Run(UTF8, s[1..]) == Step(Run(UTF8, s[1..n]), s[n]);
    if q <= 38 { StepAlive(Run(UTF8, s[1..n]), s[n]); }
    if q <= 38 && !(IsEscaped(s[1..n]) && IsPlain(s[n])) {
      assert Run(UTF8, s[1..n]) == Step(Run(UTF8, s[1..n - 1]), s[n - 1]) by { assert s[1..n][..n - 2] == s[1..n - 1]; }
      StepAlive(Run(UTF8, s[1..n - 1]), s[n - 1]);
      before := 41;
    } else {
      before := 30 + if n == 1 then 0 else Run(UTF8, s[1..n]);
    }
  }

  lemma {:induction false} LocalUtf8Run(q: nat, s: bytes)
    requires LocalUtf8Means(q, s)
    ensures Run(LOCALPART_UTF8, s) == q
    decreases |s|
  {
    if s != [] && q != 30 {
      var before;
      if q <= 8 { before := LocalUtf8BackDot(q, s); } else { before := LocalUtf8BackQuoted(q, s); }
      LocalUtf8Run(before, s[..|s| - 1]);
    }
  }

  /** The quotes around a text do not change whether it is UTF-8. */
  lemma QuotedUtf8Runs(s: bytes)
    requires IsQuoted(s)
    ensures Run(UTF8, s) == 1 <==> Run(UTF8, s[1..|s| - 1]) == 1
  {
    var n := |s| - 1;
    assert s[..n] == [s[0]] + s[1..n];
    AfterAscii([s[0]], s[1..n]);
    assert Run(UTF8, s) == Step(Run(UTF8, s[..n]), s[n]);
    if Run(UTF8, s) == 1 { StepAlive(Run(UTF8, s[..n]), s[n]); }
  }

  /** A dot-string, or a quoted string, of all characters. */
  lemma LocalpartUtf8Is(s: bytes)
    ensures Accepts(LOCALPART_UTF8, s) <==> Accepts(UTF8, s) && ((s != [] && AsciiEach(s, IsAtom)) || IsQuoted(s))
  {
    LocalUtf8State(s);
    if IsQuoted(s) { QuotedUtf8Runs(s); }
    if Accepts(UTF8, s) {
      if s != [] && AsciiEach(s, IsAtom) { LocalUtf8Run(1, s); } else if IsQuoted(s) { LocalUtf8Run(50, s); }
    }
  }
}
