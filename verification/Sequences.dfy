/** Sequences with one element less, or with some elements replaced. */
module Sequences {

  function Without<T>(s: seq<T>, i: nat): (r: seq<T>)
    requires i < |s|
    ensures |r| == |s| - 1
  {
    s[..i] + s[i + 1..]
  }

  lemma WithoutHas<T>(s: seq<T>, i: nat)
    requires i < |s|
    ensures forall x | x in Without(s, i) :: x in s
    ensures forall x | x in s && x != s[i] :: x in Without(s, i)
  {
  }

  function Overwritten<T>(s: seq<T>, off: nat, b: seq<T>): (r: seq<T>)
    requires off + |b| <= |s|
    ensures |r| == |s|
  {
    s[..off] + b + s[off + |b|..]
  }

  /** A part of a part. */
  lemma Slice<T>(s: seq<T>, off: nat, n: nat, at: nat, width: nat)
    requires off + n <= |s| && at + width <= n
    ensures s[off..off + n][at..at + width] == s[off + at..off + at + width]
  {
    var x := s[off..off + n];
    var y, z := x[at..at + width], s[off + at..off + at + width];
    forall k | 0 <= k < width
      ensures y[k] == z[k]
    {
      assert y[k] == x[at + k];
    }
  }

  lemma OverwrittenAt<T>(s: seq<T>, off: nat, b: seq<T>)
    requires off + |b| <= |s|
    ensures Overwritten(s, off, b)[off..off + |b|] == b
  {
  }

  lemma OverwrittenApart<T>(s: seq<T>, off: nat, b: seq<T>, lo: nat, hi: nat)
    requires off + |b| <= |s| && lo <= hi <= |s| && (hi <= off || off + |b| <= lo)
    ensures Overwritten(s, off, b)[lo..hi] == s[lo..hi]
  {
  }

  /** memcpy into an array. */
  method CopyInto<T>(a: array<T>, off: nat, b: seq<T>)
    requires off + |b| <= a.Length
    modifies a
    ensures a[..] == Overwritten(old(a[..]), off, b)
  {
    for i := 0 to |b|
      invariant forall j | 0 <= j < a.Length :: a[j] == if off <= j < off + i then b[j - off] else old(a[j])
    {
      a[off + i] := b[i];
    }
  }
}
