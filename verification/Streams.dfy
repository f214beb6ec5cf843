/** The two ends of a connection, as the code of the repository sees them. */
module Streams {
  import opened Bytes

  /** `b` has the shape of `a`: as many slices, of the same lengths. */
  predicate SameShape(a: seq<bytes>, b: seq<bytes>) {
    |a| == |b| && forall i :: 0 <= i < |a| ==> |a[i]| == |b[i]|
  }

  lemma {:induction false} SameShapeFlat(a: seq<bytes>, b: seq<bytes>, i: nat)
    requires SameShape(a, b) && i <= |a|
    ensures |Flatten(a[..i])| == |Flatten(b[..i])|
  {
    if i > 0 {
      SameShapeFlat(a, b, i - 1);
      FlattenSnoc(a, i - 1);
      FlattenSnoc(b, i - 1);
    }
  }

  /** The slices with `data` written over their first bytes. */
  function Fill(slices: seq<bytes>, data: bytes): (r: seq<bytes>)
    requires |data| <= |Flatten(slices)|
    ensures SameShape(slices, r)
  {
    if slices == [] then []
    else
      var k := Min(|slices[0]|, |data|);
      [data[..k] + slices[0][k..]] + Fill(slices[1..], data[k..])
  }

  lemma {:induction false} FillFlat(slices: seq<bytes>, data: bytes)
    requires |data| <= |Flatten(slices)|
    ensures |Flatten(Fill(slices, data))| == |Flatten(slices)|
    ensures Flatten(Fill(slices, data))[..|data|] == data
  {
    if slices != [] {
      var k := Min(|slices[0]|, |data|);
      FillFlat(slices[1..], data[k..]);
      var r := Fill(slices, data);
      assert r[1..] == Fill(slices[1..], data[k..]);
      assert Flatten(r) == (data[..k] + slices[0][k..]) + Flatten(r[1..]);
      FillJoin(slices[0], data, k, Flatten(r[1..]));
    }
  }

  lemma FillJoin(slice: bytes, data: bytes, k: nat, rest: bytes)
    requires k == Min(|slice|, |data|) && |data| - k <= |rest| && rest[..|data| - k] == data[k..]
    ensures ((data[..k] + slice[k..]) + rest)[..|data|] == data
  {
    assert data == data[..k] + data[k..];
  }

  /**
   A byte stream to read from. A read delivers some non-empty part of what is left,
   of any length up to what was asked for: everything proved about a caller is
   proved for every way the network may split the stream. Nothing is delivered only
   at the end of the stream, or when nothing is asked for.
   */
  class Source {
    var unread: bytes

    constructor (s: bytes)
      ensures unread == s
    {
      unread := s;
    }

    method Read(want: nat) returns (got: bytes)
      modifies this
      ensures old(unread) == got + unread
      ensures |got| <= want
      ensures got == [] <==> want == 0 || old(unread) == []
    {
      var most := Min(want, |unread|);
      var n: nat :| n <= most && (most > 0 ==> n > 0);
      got := unread[..n];
      unread := unread[n..];
    }

    /** Fills the slices in order; `n` bytes were read. */
    method ReadVectored(slices: seq<bytes>) returns (filled: seq<bytes>, n: nat)
      modifies this
      ensures SameShape(slices, filled)
      ensures n <= |Flatten(filled)| == |Flatten(slices)|
      ensures old(unread) == Flatten(filled)[..n] + unread
      ensures n == 0 <==> Flatten(slices) == [] || old(unread) == []
    {
      var got := Read(|Flatten(slices)|);
      filled, n := Fill(slices, got), |got|;
      FillFlat(slices, got);
    }
  }

  /**
   A byte stream to write to. One that `takesAll` accepts everything it is offered;
   any other accepts some non-empty part of it, of any length.
   */
  class Sink {
    const takesAll: bool
    var wire: bytes

    constructor (takesAll: bool)
      ensures wire == [] && this.takesAll == takesAll
    {
      this.takesAll := takesAll;
      wire := [];
    }

    method WriteVectored(slices: seq<bytes>) returns (n: nat)
      modifies this
      ensures n <= |Flatten(slices)|
      ensures wire == old(wire) + Flatten(slices)[..n]
      ensures takesAll ==> n == |Flatten(slices)|
      ensures n == 0 ==> Flatten(slices) == []
    {
      var all := Flatten(slices);
      n :| n <= |all| && (takesAll ==> n == |all|) && (n == 0 ==> all == []);
      wire := wire + all[..n];
    }
  }
}
