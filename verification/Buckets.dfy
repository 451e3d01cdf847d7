/** The bucket structure of the hash map, as sequences. `hash` gives the stored hash of an element. */
module Buckets {
  import Bits

  /** hash & (nbuckets - 1) */
  function Index(hash: nat, nbuckets: nat): (i: nat)
    requires nbuckets > 0
    ensures i < nbuckets
  {
    Bits.AndAtMost(hash, nbuckets - 1);
    Bits.And(hash, nbuckets - 1)
  }

  /** With a power of two of buckets the mask is the remainder. */
  lemma IndexIsRemainder(hash: nat, nbuckets: nat)
    requires Bits.IsPow2(nbuckets)
    ensures nbuckets > 0 && Index(hash, nbuckets) == hash % nbuckets
  {
    var n: nat :| nbuckets == Bits.Pow2(n);
    Bits.MaskIsMod(hash, n);
  }

  /** map_addnode: in front of its chain. */
  function Insert<T>(b: seq<seq<T>>, hash: T -> nat, x: T): (r: seq<seq<T>>)
    requires |b| > 0
    ensures |r| == |b|
  {
    var i := Index(hash(x), |b|);
    b[i := [x] + b[i]]
  }

  /** Pushes a chain onto a list, one node after the other. */
  function PushAll<T>(chain: seq<T>, list: seq<T>): seq<T> {
    if chain == [] then list else PushAll(chain[1..], [chain[0]] + list)
  }

  /** The first loop of map_resize: all chains below `i`, from the last to the first, onto one list. */
  function Gather<T>(b: seq<seq<T>>, i: nat, list: seq<T>): seq<T>
    requires i <= |b|
  {
    if i == 0 then list else Gather(b, i - 1, PushAll(b[i - 1], list))
  }

  function InsertAll<T>(b: seq<seq<T>>, hash: T -> nat, list: seq<T>): (r: seq<seq<T>>)
    requires |b| > 0
    ensures |r| == |b|
    decreases |list|
  {
    if list == [] then b else InsertAll(Insert(b, hash, list[0]), hash, list[1..])
  }

  function NoChains<T>(n: nat): seq<seq<T>> { seq(n, i => []) }

  /** map_resize. */
  function Rehash<T>(b: seq<seq<T>>, hash: T -> nat, n: nat): (r: seq<seq<T>>)
    requires n > 0
    ensures |r| == n
  {
    InsertAll(NoChains(n), hash, Gather(b, |b|, []))
  }

  /** The order of map_next_: bucket by bucket, each chain from its head. */
  function Flat<T>(b: seq<seq<T>>): seq<T> {
    if b == [] then [] else b[0] + Flat(b[1..])
  }

  // ----- every element is kept -----

  lemma {:induction false} FlatConcat<T>(a: seq<seq<T>>, b: seq<seq<T>>)
    ensures Flat(a + b) == Flat(a) + Flat(b)
  {
    if a == [] {
      assert a + b == b;
    } else {
      assert (a + b)[1..] == a[1..] + b;
      FlatConcat(a[1..], b);
    }
  }

  /** The bucket list around bucket `i`. */
  lemma FlatAround<T>(b: seq<seq<T>>, i: nat)
    requires i < |b|
    ensures Flat(b) == Flat(b[..i]) + b[i] + Flat(b[i + 1..])
  {
    assert b == b[..i] + b[i..];
    FlatConcat(b[..i], b[i..]);
    assert b[i..][1..] == b[i + 1..];
  }

  lemma InsertKeeps<T>(b: seq<seq<T>>, hash: T -> nat, x: T)
    requires |b| > 0
    ensures multiset(Flat(Insert(b, hash, x))) == multiset(Flat(b)) + multiset{x}
  {
    var i := Index(hash(x), |b|);
    var r := Insert(b, hash, x);
    FlatAround(b, i);
    FlatAround(r, i);
    assert r[..i] == b[..i] && r[i + 1..] == b[i + 1..];
    assert multiset(Flat(r)) == multiset(Flat(b[..i])) + multiset([x] + b[i]) + multiset(Flat(b[i + 1..]));
  }

  lemma {:induction false} InsertAllKeeps<T>(b: seq<seq<T>>, hash: T -> nat, list: seq<T>)
    requires |b| > 0
    ensures multiset(Flat(InsertAll(b, hash, list))) == multiset(Flat(b)) + multiset(list)
    decreases |list|
  {
    if list != [] {
      InsertKeeps(b, hash, list[0]);
      InsertAllKeeps(Insert(b, hash, list[0]), hash, list[1..]);
      assert list == [list[0]] + list[1..];
    }
  }

  lemma {:induction false} PushAllKeeps<T>(chain: seq<T>, list: seq<T>)
    ensures multiset(PushAll(chain, list)) == multiset(chain) + multiset(list)
    decreases |chain|
  {
    if chain != [] {
      PushAllKeeps(chain[1..], [chain[0]] + list);
      assert chain == [chain[0]] + chain[1..];
    }
  }

  lemma FlatLast<T>(b: seq<seq<T>>, i: nat)
    requires 0 < i <= |b|
    ensures Flat(b[..i]) == Flat(b[..i - 1]) + b[i - 1]
  {
    var last := [b[i - 1]];
    FlatConcat(b[..i - 1], last);
    assert b[..i - 1] + last == b[..i] && last[1..] == [];
    assert Flat(last) == b[i - 1];
  }

  lemma {:induction false} GatherKeeps<T>(b: seq<seq<T>>, i: nat, list: seq<T>)
    requires i <= |b|
    ensures multiset(Gather(b, i, list)) == multiset(Flat(b[..i])) + multiset(list)
  {
    if i > 0 {
      PushAllKeeps(b[i - 1], list);
      GatherKeeps(b, i - 1, PushAll(b[i - 1], list));
      FlatLast(b, i);
    }
  }

  lemma {:induction false} FlatOfNoChains<T>(n: nat)
    ensures Flat<T>(NoChains(n)) == []
  {
    if n > 0 {
      FlatOfNoChains<T>(n - 1);
      assert NoChains<T>(n)[1..] == NoChains(n - 1);
    }
  }

  /** Resizing loses and duplicates nothing. */
  lemma RehashKeeps<T>(b: seq<seq<T>>, hash: T -> nat, n: nat)
    requires n > 0
    ensures multiset(Flat(Rehash(b, hash, n))) == multiset(Flat(b))
  {
    FlatOfNoChains<T>(n);
    GatherKeeps(b, |b|, []);
    assert b[..|b|] == b;
    InsertAllKeeps(NoChains(n), hash, Gather(b, |b|, []));
  }

  // ----- every element is where it is looked for -----

  ghost predicate Placed<T>(b: seq<seq<T>>, hash: T -> nat) {
    forall i, k :: 0 <= i < |b| && 0 <= k < |b[i]| ==> Index(hash(b[i][k]), |b|) == i
  }

  lemma InsertPlaces<T>(b: seq<seq<T>>, hash: T -> nat, x: T)
    requires |b| > 0 && Placed(b, hash)
    ensures Placed(Insert(b, hash, x), hash)
  {
    var j := Index(hash(x), |b|);
    var r := Insert(b, hash, x);
    forall i, k | 0 <= i < |r| && 0 <= k < |r[i]| ensures Index(hash(r[i][k]), |r|) == i {
      if i == j && k > 0 {
        assert r[i][k] == b[i][k - 1];
      } else if i != j {
        assert r[i][k] == b[i][k];
      }
    }
  }

  /** The order of iteration holds the elements of the chains. */
  lemma {:induction false} InFlat<T>(b: seq<seq<T>>, x: T)
    ensures x in Flat(b) <==> exists i :: 0 <= i < |b| && x in b[i]
  {
    if b != [] {
      InFlat(b[1..], x);
      if x in b[0] {
      } else if x in Flat(b) {
        var i :| 0 <= i < |b[1..]| && x in b[1..][i];
        assert x in b[i + 1];
      }
      if i :| 0 <= i < |b| && x in b[i] {
        if i > 0 {
          assert x in b[1..][i - 1];
        }
      }
    }
  }
}
