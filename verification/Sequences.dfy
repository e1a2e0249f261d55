/** Concatenation of pieces, removal of a value, and copying into an array. */
module Sequences {
  function Concat<T>(pieces: seq<seq<T>>): seq<T> {
    if pieces == [] then [] else Concat(pieces[..|pieces| - 1]) + pieces[|pieces| - 1]
  }

  lemma ConcatSnoc<T>(pieces: seq<seq<T>>, last: seq<T>)
    ensures Concat(pieces + [last]) == Concat(pieces) + last
  {
    assert (pieces + [last])[..|pieces|] == pieces;
  }

  /** The sequence without the occurrences of one value. */
  function Without<T(==)>(l: seq<T>, x: T): seq<T> {
    if l == [] then [] else (if l[0] == x then [] else [l[0]]) + Without(l[1..], x)
  }

  ghost predicate Distinct<T>(l: seq<T>) {
    forall i, j :: 0 <= i < j < |l| ==> l[i] != l[j]
  }

  lemma {:induction false} WithoutMembers<T>(l: seq<T>, x: T)
    ensures x !in Without(l, x)
    ensures forall y :: y in Without(l, x) <==> y in l && y != x
    ensures Distinct(l) ==> Distinct(Without(l, x))
  {
    if l != [] {
      WithoutMembers(l[1..], x);
      assert l == [l[0]] + l[1..];
      if Distinct(l) {
        assert Distinct(l[1..]) && l[0] !in l[1..];
      }
    }
  }

  /** `memcpy(a + at, data, |data|)`. */
  method CopyInto<T>(a: array<T>, at: nat, data: seq<T>)
    requires at + |data| <= a.Length
    modifies a
    ensures a[..] == old(a[..])[..at] + data + old(a[..])[at + |data|..]
  {
    ghost var before := a[..];
    var i := 0;
    while i < |data|
      invariant 0 <= i <= |data|
      invariant a[..] == before[..at] + data[..i] + before[at + i..]
    {
      a[at + i] := data[i];
      i := i + 1;
    }
  }
}
