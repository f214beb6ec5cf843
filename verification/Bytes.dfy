/** Bytes, byte strings and the in-place copy that the buffers of the repository rely on. */
module Bytes {

  newtype byte = b: int | 0 <= b < 256

  type bytes = seq<byte>

  const CR: byte := 13
  const LF: byte := 10
  const SP: byte := 32
  const DASH: byte := 45
  const DOT: byte := 46
  const CRLF: bytes := [CR, LF]

  predicate Digit(b: byte) { 48 <= b <= 57 }

  /** A byte as the character of that number. */
  function Chr(b: byte): char { b as int as char }

  datatype Option<+T> = None | Some(value: T)

  function Min(a: nat, b: nat): nat { if a < b then a else b }

  function Max(a: nat, b: nat): nat { if a < b then b else a }

  lemma Regroup(a: bytes, b: bytes, c: bytes)
    ensures (a + b) + c == a + (b + c)
  { }

  /** The bytes of a list of slices, in order. */
  function Flatten(slices: seq<bytes>): bytes {
    if slices == [] then [] else slices[0] + Flatten(slices[1..])
  }

  lemma {:induction false} FlattenAppend(a: seq<bytes>, b: seq<bytes>)
    ensures Flatten(a + b) == Flatten(a) + Flatten(b)
  {
    if a == [] {
      assert a + b == b;
    } else {
      assert (a + b)[1..] == a[1..] + b;
      FlattenAppend(a[1..], b);
    }
  }

  lemma FlattenSnoc(slices: seq<bytes>, i: nat)
    requires i < |slices|
    ensures Flatten(slices[..i + 1]) == Flatten(slices[..i]) + slices[i]
  {
    assert slices[..i + 1] == slices[..i] + [slices[i]];
    FlattenAppend(slices[..i], [slices[i]]);
    assert Flatten([slices[i]]) == slices[i] + Flatten([]);
  }

  lemma FlattenCut(slices: seq<bytes>, i: nat)
    requires i <= |slices|
    ensures Flatten(slices) == Flatten(slices[..i]) + Flatten(slices[i..])
  {
    assert slices == slices[..i] + slices[i..];
    FlattenAppend(slices[..i], slices[i..]);
  }

  lemma FlattenIndex(slices: seq<bytes>, b: nat, i: nat)
    requires b < |slices| && i < |slices[b]|
    ensures |Flatten(slices[..b])| + |slices[b]| <= |Flatten(slices)|
    ensures Flatten(slices)[|Flatten(slices[..b])| + i] == slices[b][i]
  {
    FlattenCut(slices, b);
    assert slices[b..][0] == slices[b];
  }

  /** Overlapping copy towards lower indices, as `copy_within` does. */
  method CopyWithin(a: array<byte>, lo: nat, hi: nat, dest: nat)
    requires dest <= lo <= hi <= a.Length
    modifies a
    ensures a[dest..dest + (hi - lo)] == old(a[lo..hi])
    ensures a[..dest] == old(a[..dest])
    ensures a[dest + (hi - lo)..] == old(a[dest + (hi - lo)..])
  {
    var k := 0;
    while k < hi - lo
      invariant 0 <= k <= hi - lo
      invariant forall j {:trigger a[j]} :: dest <= j < dest + k ==> a[j] == old(a[..])[j - dest + lo]
      invariant forall j :: dest + k <= j < a.Length ==> a[j] == old(a[j])
      invariant forall j :: 0 <= j < dest ==> a[j] == old(a[j])
    {
      a[dest + k] := a[lo + k];
      k := k + 1;
    }
  }
}
