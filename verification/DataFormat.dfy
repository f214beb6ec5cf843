/**
 The DATA format of section 4.5.2 of RFC 5321 on whole byte streams: dot-stuffing,
 the end-of-data marker, and the reading of a stuffed stream. The incremental
 machines of the other modules are proved against the functions of this one.
 */
module DataFormat {
  import opened Bytes

  /** Where a byte stream stands with respect to line ends. */
  datatype LineState = Start | Cr | CrLf

  function NextLine(st: LineState, b: byte): LineState {
    if b == CR then Cr else if st == Cr && b == LF then CrLf else Start
  }

  function LineAfter(st: LineState, s: bytes): LineState
    decreases |s|
  {
    if s == [] then st else LineAfter(NextLine(st, s[0]), s[1..])
  }

  lemma {:induction false} LineAfterAppend(st: LineState, a: bytes, b: bytes)
    ensures LineAfter(st, a + b) == LineAfter(LineAfter(st, a), b)
    decreases |a|
  {
    if a == [] {
      assert a + b == b;
    } else {
      assert (a + b)[1..] == a[1..] + b;
      LineAfterAppend(NextLine(st, a[0]), a[1..], b);
    }
  }

  /** `t` ends in CR; in CR LF; in CR LF dot; in CR LF dot CR. */
  predicate EndsCr(t: bytes) { |t| >= 1 && t[|t| - 1] == CR }
  predicate EndsCrLf(t: bytes) { |t| >= 2 && t[|t| - 2] == CR && t[|t| - 1] == LF }
  predicate EndsCrLfDot(t: bytes) { |t| >= 3 && t[|t| - 3] == CR && t[|t| - 2] == LF && t[|t| - 1] == DOT }
  predicate EndsCrLfDotCr(t: bytes) { EndsCr(t) && EndsCrLfDot(t[..|t| - 1]) }

  /** The line state is a matter of the last two bytes, a stream opening as if after CRLF. */
  lemma {:induction false} LineStateMeaning(s: bytes)
    ensures LineAfter(CrLf, s) == CrLf <==> EndsCrLf(CRLF + s)
    ensures LineAfter(CrLf, s) == Cr <==> EndsCr(CRLF + s)
  {
    if s != [] {
      var p, b := s[..|s| - 1], s[|s| - 1];
      assert s == p + [b];
      LineStateMeaning(p);
      LineAfterAppend(CrLf, p, [b]);
      assert CRLF + s == (CRLF + p) + [b];
      assert LineAfter(LineAfter(CrLf, p), [b]) == NextLine(LineAfter(CrLf, p), b);
    }
  }

  /** Dot-stuffing: a dot that opens a line is doubled. */
  function Stuff(st: LineState, s: bytes): bytes
    decreases |s|
  {
    if s == [] then []
    else (if st == CrLf && s[0] == DOT then [DOT, DOT] else [s[0]]) + Stuff(NextLine(st, s[0]), s[1..])
  }

  lemma {:induction false} StuffAppend(st: LineState, a: bytes, b: bytes)
    ensures Stuff(st, a + b) == Stuff(st, a) + Stuff(LineAfter(st, a), b)
    decreases |a|
  {
    if a == [] {
      assert a + b == b;
    } else {
      assert (a + b)[1..] == a[1..] + b;
      StuffAppend(NextLine(st, a[0]), a[1..], b);
    }
  }

  predicate OpensLine(p: bytes) { p == [] || (|p| >= 2 && p[|p| - 2] == 13 && p[|p| - 1] == 10) }

  lemma LineOpens(p: bytes)
    ensures LineAfter(CrLf, p) == CrLf <==> OpensLine(p)
  {
    LineStateMeaning(p);
    var t := CRLF + p;
    if p != [] { assert t[|t| - 1] == p[|p| - 1] && t[|t| - 2] == if |p| == 1 then LF else p[|p| - 2]; }
  }

  /** A dot is doubled just where the message begins and after CRLF. */
  lemma StuffedByte(p: bytes, b: byte)
    ensures Stuff(CrLf, p + [b]) == Stuff(CrLf, p) + if b == 46 && OpensLine(p) then [46, 46] else [b]
  {
    StuffAppend(CrLf, p, [b]);
    LineOpens(p);
    assert [b][1..] == [];
  }

  /** No dot of `s` opens a line, when `s` starts in line state `st`. */
  predicate NoEscape(st: LineState, s: bytes)
    decreases |s|
  {
    s == [] || (!(st == CrLf && s[0] == DOT) && NoEscape(NextLine(st, s[0]), s[1..]))
  }

  lemma {:induction false} StuffPlain(st: LineState, s: bytes)
    requires NoEscape(st, s)
    ensures Stuff(st, s) == s
    decreases |s|
  {
    if s != [] { StuffPlain(NextLine(st, s[0]), s[1..]); }
  }

  lemma {:induction false} NoEscapeAppend(st: LineState, a: bytes, b: bytes)
    ensures NoEscape(st, a + b) <==> NoEscape(st, a) && NoEscape(LineAfter(st, a), b)
    decreases |a|
  {
    if a == [] {
      assert a + b == b;
    } else {
      assert (a + b)[1..] == a[1..] + b;
      NoEscapeAppend(NextLine(st, a[0]), a[1..], b);
    }
  }

  /** Whatever the state before, two bytes decide the line state after them. */
  lemma LineAfterTwo(st: LineState, any: LineState, s: bytes)
    requires |s| >= 2
    ensures LineAfter(st, s) == NextLine(NextLine(any, s[|s| - 2]), s[|s| - 1])
  {
    var p, a, b := s[..|s| - 2], s[|s| - 2], s[|s| - 1];
    assert s == p + [a, b];
    LineAfterAppend(st, p, [a, b]);
    var st1 := LineAfter(st, p);
    assert [a, b][1..] == [b];
    assert LineAfter(NextLine(st1, a), [b]) == NextLine(NextLine(st1, a), b);
  }

  /** What closes a message: the end-of-data line, on a line of its own. */
  function Closing(st: LineState): bytes {
    if st == CrLf then [DOT, CR, LF] else [CR, LF, DOT, CR, LF]
  }

  /** The wire form of a whole message. */
  function Wire(msg: bytes): bytes {
    Stuff(CrLf, msg) + Closing(LineAfter(CrLf, msg))
  }

  /** A message as its receiver sees it: every non-empty message ends in CRLF. */
  function Normalized(msg: bytes): bytes {
    if msg == [] || EndsCrLf(msg) then msg else msg + CRLF
  }

  // ------------------------------------------------------------------ end of data

  /** `s` ends in CR LF dot CR LF, a CRLF being supposed before its first byte. */
  predicate Terminated(s: bytes) {
    var t := CRLF + s;
    EndsCrLf(t) && EndsCrLfDot(t[..|t| - 2])
  }

  /** The data of stream `s` is `s[..n]`: the shortest terminated prefix. */
  ghost predicate IsDataEnd(s: bytes, n: nat) {
    n <= |s| && Terminated(s[..n]) && forall k: nat :: k < n ==> !Terminated(s[..k])
  }

  /** The state of the scan for the end of data. */
  datatype ScanState = AtStart | AtCr | AtCrLf | AtCrLfDot | AtCrLfDotCr | AtEnd

  function NextScan(st: ScanState, b: byte): ScanState {
    match st
    case AtEnd => AtEnd
    case AtCr => if b == LF then AtCrLf else if b == CR then AtCr else AtStart
    case AtCrLf => if b == DOT then AtCrLfDot else if b == CR then AtCr else AtStart
    case AtCrLfDot => if b == CR then AtCrLfDotCr else AtStart
    case AtCrLfDotCr => if b == LF then AtEnd else if b == CR then AtCr else AtStart
    case AtStart => if b == CR then AtCr else AtStart
  }

  function ScanAfter(st: ScanState, s: bytes): ScanState
    decreases |s|
  {
    if s == [] then st else ScanAfter(NextScan(st, s[0]), s[1..])
  }

  lemma {:induction false} ScanAfterAppend(st: ScanState, a: bytes, b: bytes)
    ensures ScanAfter(st, a + b) == ScanAfter(ScanAfter(st, a), b)
    decreases |a|
  {
    if a == [] {
      assert a + b == b;
    } else {
      assert (a + b)[1..] == a[1..] + b;
      ScanAfterAppend(NextScan(st, a[0]), a[1..], b);
    }
  }

  lemma {:induction false} ScanEndAbsorbs(s: bytes)
    ensures ScanAfter(AtEnd, s) == AtEnd
  {
    if s != [] { ScanEndAbsorbs(s[1..]); }
  }

  /** What each live state of the scan says about the bytes seen. */
  predicate ScanMatches(st: ScanState, s: bytes) {
    var t := CRLF + s;
    && (st == AtCrLfDotCr <==> EndsCrLfDotCr(t))
    && (st == AtCrLfDot <==> EndsCrLfDot(t))
    && (st == AtCrLf <==> EndsCrLf(t))
    && (st == AtCr || st == AtCrLfDotCr <==> EndsCr(t))
  }

  lemma ScanMatchesStep(st: ScanState, s: bytes, b: byte)
    requires st != AtEnd && ScanMatches(st, s)
    ensures NextScan(st, b) == AtEnd <==> Terminated(s + [b])
    ensures NextScan(st, b) != AtEnd ==> ScanMatches(NextScan(st, b), s + [b])
  {
    var t := CRLF + s;
    var u := CRLF + (s + [b]);
    assert u == t + [b];
    assert |t| >= 2;
    assert u[..|u| - 1] == t && u[..|u| - 2] == t[..|t| - 1];
  }

  /** The scan ends exactly on streams with a terminated prefix, and tells the exact place. */
  lemma {:induction false} ScanFindsDataEnd(s: bytes)
    ensures ScanAfter(AtCrLf, s) == AtEnd <==> exists k: nat :: k <= |s| && Terminated(s[..k])
    ensures ScanAfter(AtCrLf, s) != AtEnd ==> ScanMatches(ScanAfter(AtCrLf, s), s)
  {
    if s == [] {
      assert CRLF + s == CRLF;
    } else {
      var p, b := s[..|s| - 1], s[|s| - 1];
      assert s == p + [b];
      ScanFindsDataEnd(p);
      ScanAfterAppend(AtCrLf, p, [b]);
      assert forall k: nat :: k <= |p| ==> s[..k] == p[..k];
      assert s[..|s|] == s;
      if ScanAfter(AtCrLf, p) != AtEnd {
        ScanMatchesStep(ScanAfter(AtCrLf, p), p, b);
      }
    }
  }

  /** Where the scan first ends, if it does. */
  function ScanEnd(st: ScanState, s: bytes): Option<nat>
    decreases |s|
  {
    if st == AtEnd then Some(0)
    else if s == [] then None
    else match ScanEnd(NextScan(st, s[0]), s[1..])
         case Some(n) => Some(n + 1)
         case None => None
  }

  lemma {:induction false} ScanEndIsFirst(st: ScanState, s: bytes, n: nat)
    requires n <= |s|
    ensures ScanEnd(st, s) == Some(n) <==>
            ScanAfter(st, s[..n]) == AtEnd && forall k: nat :: k < n ==> ScanAfter(st, s[..k]) != AtEnd
    decreases n
  {
    assert s[..0] == [];
    if st != AtEnd && n > 0 {
      var st1 := NextScan(st, s[0]);
      ScanEndIsFirst(st1, s[1..], n - 1);
      assert forall k: nat :: 0 < k <= n ==> s[..k][1..] == s[1..][..k - 1];
      assert forall k: nat :: 0 < k <= n ==> ScanAfter(st, s[..k]) == ScanAfter(st1, s[1..][..k - 1]);
      assert forall j: nat :: j < n - 1 ==> s[1..][..j] == s[..j + 1][1..];
    }
  }

  ghost predicate TerminatedBy(s: bytes, k: nat)
    requires k <= |s|
  {
    exists j: nat :: j <= k && Terminated(s[..j])
  }

  lemma ScanSees(s: bytes, k: nat)
    requires k <= |s|
    ensures ScanAfter(AtCrLf, s[..k]) == AtEnd <==> TerminatedBy(s, k)
  {
    var t := s[..k];
    ScanFindsDataEnd(t);
    if j: nat :| j <= |t| && Terminated(t[..j]) { assert t[..j] == s[..j]; }
    if j: nat :| j <= k && Terminated(s[..j]) { assert t[..j] == s[..j]; }
  }

  lemma DataEndIsFirst(s: bytes, n: nat)
    requires n <= |s|
    ensures IsDataEnd(s, n) <==> TerminatedBy(s, n) && forall k: nat :: k < n ==> !TerminatedBy(s, k)
  {
    if IsDataEnd(s, n) {
      assert Terminated(s[..n]) && TerminatedBy(s, n);
    } else if TerminatedBy(s, n) {
      var j: nat :| j <= n && Terminated(s[..j]);
      if j < n {
        assert TerminatedBy(s, j);
      } else {
        var k: nat :| k < n && Terminated(s[..k]);
        assert TerminatedBy(s, k);
      }
    }
  }

  /** The first end state of the scan is the end of the data: the shortest terminated prefix. */
  lemma ScanEndIsDataEnd(s: bytes, n: nat)
    ensures IsDataEnd(s, n) <==> n <= |s| && ScanEnd(AtCrLf, s) == Some(n)
  {
    if n <= |s| {
      forall k: nat | k <= n ensures ScanAfter(AtCrLf, s[..k]) == AtEnd <==> TerminatedBy(s, k) { ScanSees(s, k); }
      DataEndIsFirst(s, n);
      ScanEndIsFirst(AtCrLf, s, n);
    }
  }

  // ------------------------------------------------------------------ decoding

  /** A decoded stream: its text, and what follows the end-of-data marker if there is one. */
  datatype Decoded = Decoded(text: bytes, tail: Option<bytes>)

  function Prepend(s: bytes, d: Decoded): Decoded {
    Decoded(s + d.text, d.tail)
  }

  /** `s`, which opens a line, starts with the line of a single dot. */
  predicate IsEndLine(s: bytes) {
    |s| >= 3 && s[0] == DOT && s[1] == CR && s[2] == LF
  }

  /** A dot that opens a line is dropped; the line of a single dot ends the data. */
  function Decode(st: LineState, s: bytes): Decoded
    decreases |s|
  {
    if s == [] then Decoded([], None)
    else if st == CrLf && s[0] == DOT then
      if IsEndLine(s) then Decoded([], Some(s[3..])) else Decode(Start, s[1..])
    else Prepend([s[0]], Decode(NextLine(st, s[0]), s[1..]))
  }

  lemma DecodeCopy(st: LineState, b: byte, s: bytes)
    requires st != CrLf || b != DOT
    ensures Decode(st, [b] + s) == Prepend([b], Decode(NextLine(st, b), s))
  {
    assert ([b] + s)[1..] == s;
  }

  lemma DecodeDrop(s: bytes)
    requires !IsEndLine([DOT] + s)
    ensures Decode(CrLf, [DOT] + s) == Decode(Start, s)
  {
    assert ([DOT] + s)[1..] == s;
  }

  lemma StuffStep(st: LineState, b: byte, msg: bytes, c: bytes)
    ensures var w := Stuff(NextLine(st, b), msg) + c;
            Stuff(st, [b] + msg) + c == if st == CrLf && b == DOT then [b] + ([b] + w) else [b] + w
  {
    assert ([b] + msg)[1..] == msg;
  }

  lemma PrependNothing(d: Decoded)
    ensures Prepend([], d) == d
  {
    assert [] + d.text == d.text;
  }

  lemma PrependTwice(a: bytes, b: bytes, d: Decoded)
    ensures Prepend(a, Prepend(b, d)) == Prepend(a + b, d)
  {
    assert a + (b + d.text) == (a + b) + d.text;
  }

  lemma DecodeByte(st: LineState, b: byte, w: bytes)
    ensures Decode(st, if st == CrLf && b == DOT then [b] + ([b] + w) else [b] + w) == Prepend([b], Decode(NextLine(st, b), w))
  {
    if st == CrLf && b == DOT {
      DecodeDrop([b] + w);
      DecodeCopy(Start, b, w);
    } else {
      DecodeCopy(st, b, w);
    }
  }

  lemma {:induction false} DecodeStuffed(st: LineState, msg: bytes, c: bytes)
    ensures Decode(st, Stuff(st, msg) + c) == Prepend(msg, Decode(LineAfter(st, msg), c))
    decreases |msg|
  {
    if msg == [] {
      assert Stuff(st, msg) + c == c;
      PrependNothing(Decode(st, c));
    } else {
      var b, tail := msg[0], msg[1..];
      var w := Stuff(NextLine(st, b), tail) + c;
      assert [b] + tail == msg;
      StuffStep(st, b, tail, c);
      DecodeByte(st, b, w);
      DecodeStuffed(NextLine(st, b), tail, c);
      PrependTwice([b], tail, Decode(LineAfter(st, msg), c));
    }
  }

  lemma DecodeClosing(st: LineState, rest: bytes)
    ensures Decode(st, Closing(st) + rest) == Decoded(if st == CrLf then [] else CRLF, Some(rest))
  {
    var w := Closing(st) + rest;
    if st == CrLf {
      assert w[..3] == [DOT, CR, LF] && w[3..] == rest;
    } else {
      assert w[1..] == [LF, DOT, CR, LF] + rest;
      assert w[1..][1..] == [DOT, CR, LF] + rest;
      assert w[1..][1..][..3] == [DOT, CR, LF] && w[1..][1..][3..] == rest;
      assert Decode(CrLf, w[1..][1..]) == Decoded([], Some(rest));
      assert Decode(Cr, w[1..]) == Prepend([LF], Decode(CrLf, w[1..][1..]));
      assert [CR] + ([LF] + []) == CRLF;
    }
  }

  /** Decoding the wire form of a message, whatever follows it, gives back the message. */
  lemma WireRoundTrip(msg: bytes, rest: bytes)
    ensures Decode(CrLf, Wire(msg) + rest) == Decoded(Normalized(msg), Some(rest))
  {
    var st := LineAfter(CrLf, msg);
    assert Wire(msg) + rest == Stuff(CrLf, msg) + (Closing(st) + rest);
    DecodeStuffed(CrLf, msg, Closing(st) + rest);
    DecodeClosing(st, rest);
    LineStateMeaning(msg);
    var t := CRLF + msg;
    if |msg| >= 2 {
      assert t[|t| - 2..] == msg[|msg| - 2..];
    } else if |msg| == 1 {
      assert t[|t| - 2..] == [t[1], t[2]];
    }
    assert msg + [] == msg;
  }

  // The scan for the end of data and the decoder agree on where the data ends.

  /** The line state from which the decoder still has `Undecided(st)` to look at. */
  function LineOfScan(st: ScanState): LineState {
    match st
    case AtCr => Cr
    case AtStart => Start
    case _ => CrLf
  }

  /** The bytes the scan has seen and the decoder cannot decide on. */
  function Undecided(st: ScanState): bytes {
    match st
    case AtCrLfDot => [DOT]
    case AtCrLfDotCr => [DOT, CR]
    case AtEnd => [DOT, CR, LF]
    case _ => []
  }

  lemma StepAfterDot(b: byte, s: bytes)
    ensures Decode(CrLf, [DOT] + ([b] + s)).tail == if b == CR then Decode(CrLf, [DOT, CR] + s).tail else Decode(NextLine(Start, b), s).tail
  {
    if b == CR {
      assert [DOT] + ([b] + s) == [DOT, CR] + s;
    } else {
      DecodeDrop([b] + s);
      DecodeCopy(Start, b, s);
    }
  }

  lemma StepAfterDotCr(b: byte, s: bytes)
    ensures Decode(CrLf, [DOT, CR] + ([b] + s)).tail ==
            if b == LF then Decode(CrLf, [DOT, CR, LF] + s).tail else Decode(NextLine(Cr, b), s).tail
  {
    if b == LF {
      assert [DOT, CR] + ([b] + s) == [DOT, CR, LF] + s;
    } else {
      assert [DOT, CR] + ([b] + s) == [DOT] + ([CR] + ([b] + s));
      DecodeDrop([CR] + ([b] + s));
      DecodeCopy(Start, CR, [b] + s);
      DecodeCopy(Cr, b, s);
    }
  }

  lemma StepPlain(st: LineState, b: byte, s: bytes)
    requires st != CrLf || b != DOT
    ensures Decode(st, [b] + s).tail == Decode(NextLine(st, b), s).tail
  {
    DecodeCopy(st, b, s);
  }

  /** One byte of the scan leaves the decoder's view of the end of data as it was. */
  lemma DecodeTailScanStep(st: ScanState, b: byte, s: bytes)
    requires st != AtEnd
    ensures Decode(LineOfScan(st), Undecided(st) + ([b] + s)).tail ==
            Decode(LineOfScan(NextScan(st, b)), Undecided(NextScan(st, b)) + s).tail
  {
    var st1 := NextScan(st, b);
    assert [] + s == s && [] + ([b] + s) == [b] + s;
    if st == AtCrLfDot { StepAfterDot(b, s); }
    else if st == AtCrLfDotCr { StepAfterDotCr(b, s); }
    else if st1 != AtCrLfDot { StepPlain(LineOfScan(st), b, s); }
  }

  lemma UndecidedHasNoTail(st: ScanState)
    requires st != AtEnd
    ensures Decode(LineOfScan(st), Undecided(st)).tail == None
  {
    if st == AtCrLfDot {
      DecodeDrop([]);
    } else if st == AtCrLfDotCr {
      assert Undecided(st) == [DOT] + ([CR] + []);
      DecodeDrop([CR] + []);
      DecodeCopy(Start, CR, []);
    }
  }

  lemma {:induction false} DecodeTailIsScanEnd(st: ScanState, s: bytes)
    ensures ScanEnd(st, s).Some? ==> ScanEnd(st, s).value <= |s|
    ensures Decode(LineOfScan(st), Undecided(st) + s).tail ==
            match ScanEnd(st, s) { case Some(n) => Some(s[n..]) case None => None }
    decreases |s|
  {
    if st == AtEnd {
      assert (Undecided(st) + s)[3..] == s[0..] == s;
    } else if s == [] {
      assert Undecided(st) + s == Undecided(st);
      UndecidedHasNoTail(st);
    } else {
      assert [s[0]] + s[1..] == s;
      DecodeTailScanStep(st, s[0], s[1..]);
      DecodeTailIsScanEnd(NextScan(st, s[0]), s[1..]);
    }
  }

  lemma DecodeTailIsScanEndAt(s: bytes, n: nat)
    requires n <= |s|
    ensures ScanEnd(AtCrLf, s) == Some(n) <==> Decode(CrLf, s).tail == Some(s[n..])
  {
    assert Undecided(AtCrLf) + s == s;
    DecodeTailIsScanEnd(AtCrLf, s);
    if ScanEnd(AtCrLf, s).Some? { SameRest(s, ScanEnd(AtCrLf, s).value, n); }
  }

  lemma SameRest(s: bytes, k: nat, n: nat)
    requires k <= |s| && n <= |s|
    ensures s[k..] == s[n..] <==> k == n
  {
    assert |s[k..]| == |s| - k && |s[n..]| == |s| - n;
  }

  /** The reader's end of data and the decoder's are the same place. */
  lemma DecodeTailIsRest(s: bytes, n: nat)
    requires n <= |s|
    ensures IsDataEnd(s, n) <==> Decode(CrLf, s).tail == Some(s[n..])
  {
    ScanEndIsDataEnd(s, n);
    DecodeTailIsScanEndAt(s, n);
  }

  /** The end of data of a wire form, whatever follows it, is the end of that wire form. */
  lemma WireEndsAtItsEnd(msg: bytes, rest: bytes)
    ensures IsDataEnd(Wire(msg) + rest, |Wire(msg)|)
  {
    WireRoundTrip(msg, rest);
    assert (Wire(msg) + rest)[|Wire(msg)|..] == rest;
    DecodeTailIsRest(Wire(msg) + rest, |Wire(msg)|);
  }

  /** CR, LF and a dot at `k`. */
  predicate IsEscapeAt(s: bytes, k: nat) {
    k + 3 <= |s| && s[k] == CR && s[k + 1] == LF && s[k + 2] == DOT
  }

  lemma ClosingDot(st: LineState, p: nat)
    requires p < |Closing(st)| && LineAfter(st, Closing(st)[..p]) == CrLf && Closing(st)[p] == DOT
    ensures p == |Closing(st)| - 3
  { }

  lemma LineAfterHead(st: LineState, b: byte, s: bytes, p: nat)
    requires 0 < p <= |s| + 1
    ensures LineAfter(st, ([b] + s)[..p]) == LineAfter(NextLine(st, b), s[..p - 1])
  {
    assert ([b] + s)[..p][1..] == s[..p - 1];
  }

  /** Every dot that opens a line of stuffed data is doubled, but the one that ends the data. */
  lemma {:induction false} DotsAreDoubled(st: LineState, s: bytes, p: nat)
    requires var t := Stuff(st, s) + Closing(LineAfter(st, s)); p < |t| && LineAfter(st, t[..p]) == CrLf && t[p] == DOT
    ensures var t := Stuff(st, s) + Closing(LineAfter(st, s)); p == |t| - 3 || (p + 1 < |t| && t[p + 1] == DOT)
    decreases |s|
  {
    var end := Closing(LineAfter(st, s));
    var t := Stuff(st, s) + end;
    if s == [] {
      assert t == end;
      ClosingDot(st, p);
    } else {
      var st1, t1 := NextLine(st, s[0]), Stuff(NextLine(st, s[0]), s[1..]) + end;
      assert [s[0]] + s[1..] == s;
      StuffStep(st, s[0], s[1..], end);
      if st == CrLf && s[0] == DOT {
        if p > 0 { LineAfterHead(st, DOT, [DOT] + t1, p); }
        if p > 1 {
          LineAfterHead(Start, DOT, t1, p - 1);
          DotsAreDoubled(st1, s[1..], p - 2);
        }
      } else {
        if p > 0 {
          LineAfterHead(st, s[0], t1, p);
          DotsAreDoubled(st1, s[1..], p - 1);
        }
      }
    }
  }

  /** CR, LF and a dot are followed by another dot, but at the end; and that is how the wire ends. */
  ghost predicate LooksGood(w: bytes) {
    && (w == [DOT, CR, LF] || (|w| >= 5 && w[|w| - 5..] == [CR, LF, DOT, CR, LF]))
    && forall k: nat :: IsEscapeAt(w, k) ==> k == |w| - 5 || (k + 3 < |w| && w[k + 3] == DOT)
  }

  lemma WireLooksGood(msg: bytes)
    ensures LooksGood(Wire(msg))
  {
    var w := Wire(msg);
    forall k: nat | IsEscapeAt(w, k) ensures k == |w| - 5 || (k + 3 < |w| && w[k + 3] == DOT) {
      LineAfterTwo(CrLf, CrLf, w[..k + 2]);
      DotsAreDoubled(CrLf, msg, k + 2);
    }
    WireEnd(msg);
  }

  lemma WireEnd(msg: bytes)
    ensures var w := Wire(msg); w == [DOT, CR, LF] || (|w| >= 5 && w[|w| - 5..] == [CR, LF, DOT, CR, LF])
  {
    var w, body, st := Wire(msg), Stuff(CrLf, msg), LineAfter(CrLf, msg);
    if st != CrLf {
      assert w[|w| - 5..] == Closing(st);
    } else if msg == [] {
      assert w == Closing(CrLf);
    } else {
      StuffEndsInLine(CrLf, msg);
      assert w[|w| - 5..] == body[|body| - 2..] + Closing(CrLf);
    }
  }

  /** Stuffing keeps the end of a line. */
  lemma {:induction false} StuffEndsInLine(st: LineState, s: bytes)
    requires s != [] && LineAfter(st, s) == CrLf
    ensures var t := Stuff(st, s); |t| >= 1 && t[|t| - 1] == LF && (|t| >= 2 ==> t[|t| - 2] == CR) && (|t| == 1 ==> st == Cr)
    decreases |s|
  {
    var st1, t1 := NextLine(st, s[0]), Stuff(NextLine(st, s[0]), s[1..]);
    if s[1..] != [] {
      StuffEndsInLine(st1, s[1..]);
      assert |t1| == 1 ==> s[0] == CR;
    }
  }

  /** How many bytes the end of data takes, counted from each line state. */
  lemma {:induction false} DecodeTailRoom(st: LineState, s: bytes)
    requires Decode(st, s).tail.Some?
    ensures |s| - |Decode(st, s).tail.value| >= (match st case CrLf => 3 case Cr => 4 case Start => 5)
    ensures st == CrLf && |s| - |Decode(st, s).tail.value| <= 4 ==> Decode(st, s).text == []
    decreases |s|
  {
    if st == CrLf && s[0] == DOT {
      if !IsEndLine(s) { DecodeTailRoom(Start, s[1..]); }
    } else {
      DecodeTailRoom(NextLine(st, s[0]), s[1..]);
    }
  }

  /** With at most four bytes to go before the end of data, none of them is text. */
  lemma ShortTailHasNoText(st: LineState, held: bytes, rest: bytes)
    requires st != Cr && |held| <= 4
    requires Decode(st, held + rest).tail == Some(rest)
    ensures Decode(st, held + rest).text == []
  {
    DecodeTailRoom(st, held + rest);
  }
}
