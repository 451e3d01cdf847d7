/** A sequence found inside another one. */
module Slices {
  /** `part` stands in `whole` at `at`. */
  predicate HasSlice<T(==)>(whole: seq<T>, at: nat, part: seq<T>) {
    at + |part| <= |whole| && whole[at..at + |part|] == part
  }

  lemma SliceSplit<T>(whole: seq<T>, at: nat, a: seq<T>, b: seq<T>)
    requires HasSlice(whole, at, a + b)
    ensures HasSlice(whole, at, a) && HasSlice(whole, at + |a|, b)
  {
    var part := whole[at..at + |a| + |b|];
    assert part == a + b;
    assert forall i :: 0 <= i < |part| ==> part[i] == whole[at + i];
    assert part[..|a|] == a && part[|a|..] == b;
    assert whole[at..at + |a|] == part[..|a|];
    assert whole[at + |a|..at + |a| + |b|] == part[|a|..];
  }

  lemma SliceJoin<T>(whole: seq<T>, at: nat, a: seq<T>, b: seq<T>)
    requires HasSlice(whole, at, a) && HasSlice(whole, at + |a|, b)
    ensures HasSlice(whole, at, a + b)
  {
    assert whole[at..at + |a| + |b|] == whole[at..at + |a|] + whole[at + |a|..at + |a| + |b|];
  }

  lemma SliceWhole<T>(whole: seq<T>)
    ensures HasSlice(whole, 0, whole)
  {
  }

  lemma SliceWithin<T>(inner: seq<T>, at: nat, part: seq<T>, whole: seq<T>, offset: nat)
    requires HasSlice(inner, at, part) && HasSlice(whole, offset, inner)
    ensures HasSlice(whole, offset + at, part)
  {
    forall i | 0 <= i < |part| ensures whole[offset + at + i] == part[i] {
      assert whole[offset..offset + |inner|][at + i] == inner[at..at + |part|][i];
    }
  }

  lemma SliceEnds<T>(whole: seq<T>, at: nat, part: seq<T>)
    requires HasSlice(whole, at, part)
    ensures at + |part| <= |whole|
  {
  }

  lemma SliceElement<T>(whole: seq<T>, at: nat, part: seq<T>, k: nat)
    requires HasSlice(whole, at, part) && k < |part|
    ensures whole[at + k] == part[k]
  {
    assert whole[at..at + |part|][k] == whole[at + k];
  }

  lemma SliceKept<T>(whole: seq<T>, at: nat, part: seq<T>, more: seq<T>)
    requires HasSlice(whole, at, part)
    ensures HasSlice(whole + more, at, part)
  {
    assert (whole + more)[at..at + |part|] == whole[at..at + |part|];
  }

  lemma SliceBehind<T>(front: seq<T>, part: seq<T>)
    ensures HasSlice(front + part, |front|, part)
  {
    assert (front + part)[|front|..|front| + |part|] == part;
  }
}
