/** csrc/include/rxi/map.h: a hash map with chained buckets, relinked in place. Whether an allocation
    succeeds is a parameter of the operations that allocate. */
module HashMap {
  import Bits
  import opened Buckets
  import opened Chains

  /** A node for a new key goes to the head of its chain. When there are as many nodes as buckets, all are put into
      twice as many first, or into one if there was none. */
  ghost predicate Appended<V>(chains: seq<seq<Node<V>>>, nnodes: nat, key: string, chains': seq<seq<Node<V>>>) {
    chains' != [] &&
    var i := Index(HashKey(key), |chains'|);
    chains'[i] != [] && AppendedNode(chains, nnodes, key, chains'[i][0], chains')
  }

  ghost predicate AppendedNode<V>(chains: seq<seq<Node<V>>>, nnodes: nat, key: string, node: Node<V>, chains': seq<seq<Node<V>>>) {
    && node.key == key
    && chains' ==
       if nnodes < |chains| then Insert(chains, NodeHash(), node)
       else Insert(Rehash(chains, NodeHash(), if chains == [] then 1 else 2 * |chains|), NodeHash(), node)
  }

  /** Node `k` of chain `i` is gone, all others are where they were. */
  ghost predicate CutAt<V>(chains: seq<seq<Node<V>>>, i: nat, k: nat, chains': seq<seq<Node<V>>>) {
    i < |chains| && k < |chains[i]| && chains' == Cut(chains, i, k)
  }

  class HashTable<V> {
    var buckets: array?<Node?<V>>
    var nnodes: nat
    var count: int
    ghost var chains: seq<seq<Node<V>>>

    ghost function Nodes(): set<Node<V>>
      reads this`chains
    {
      Members(chains)
    }

    /** The number of buckets is 0 or a power of two, and at least the number of nodes. */
    ghost predicate Valid()
      reads this`buckets, this`chains, this`nnodes, buckets, Nodes()
    {
      && (buckets == null <==> chains == [])
      && (buckets != null ==> Shaped(buckets, chains) && Bits.IsPow2(|chains|))
      && nnodes == |Flat(chains)| <= |chains|
      && KeysOk(chains)
    }

    ghost function Contents(): map<string, V>
      requires Valid()
      reads this`buckets, this`chains, this`nnodes, buckets, Nodes()
    {
      ValuesOf(Nodes())
    }

    /** The keys in the order of map_next_. */
    ghost function Order(): (keys: seq<string>)
      reads this`chains
      ensures |keys| == |Flat(chains)|
    {
      KeysOf(Flat(chains))
    }

    /** Every key exactly once, and nnodes counts them. */
    lemma OrderListsTheKeys()
      requires Valid()
      ensures NoDup(Order()) && (forall key :: key in Order() <==> key in Contents())
      ensures |Order()| == nnodes == |Contents()|
    {
      hide Flat, Placed, Linked, Members;
      var flat := Flat(chains);
      FlatMembers(chains);
      if buckets == null {
        NoChainsNoNodes(chains);
      } else {
        forall i | 0 <= i < |chains| ensures NoDup(chains[i]) {
          assert ChainOk(buckets, chains, i);
        }
        FlatHasNoDup(chains);
      }
      forall i, j | 0 <= i < j < |flat| ensures Order()[i] != Order()[j] {
        assert flat[i] in Members(chains) && flat[j] in Members(chains);
        assert flat[i] != flat[j];
      }
      forall key ensures key in Order() <==> key in Contents() {
        KeysOfHas(flat, key);
        assert key in Contents() <==> exists x :: x in Nodes() && x.key == key;
      }
      DistinctCount(Order());
      assert Contents().Keys == set key | key in Order();
    }

    /** The values in the order of map_next_. */
    ghost function Values(): (values: seq<V>)
      requires Valid()
      reads this`buckets, this`chains, this`nnodes, buckets, Nodes()
      ensures |values| == |Order()|
    {
      OrderListsTheKeys();
      Pick(Contents(), Order())
    }

    lemma ValuesAreContents()
      requires Valid()
      ensures forall i :: 0 <= i < |Order()| ==> Order()[i] in Contents() && Contents()[Order()[i]] == Values()[i]
      ensures Contents().Keys == set key | key in Order()
    {
      OrderListsTheKeys();
    }

    constructor ()
      ensures Valid() && Nodes() == {} && Contents() == map[] && nnodes == count == 0
      ensures fresh(Repr())
    {
      buckets, nnodes, count, chains := null, 0, 0, [];
    }

    /** What the operations may change. */
    ghost function Repr(): set<object>
      reads this`buckets, this`chains
    {
      {this} + (if buckets == null then {} else {buckets}) + Nodes()
    }

    method NewBuckets(n: nat) returns (b: array<Node?<V>>)
      requires n > 0
      ensures fresh(b) && b.Length == n && forall i :: 0 <= i < n ==> b[i] == null
    {
      b := new Node?<V>[n](i => null);
    }

    /** All nodes on one list. */
    method Unlink() returns (list: Node?<V>, ghost l: seq<Node<V>>)
      requires buckets == null ==> chains == []
      requires buckets != null ==> Shaped(buckets, chains)
      modifies Nodes()`next
      ensures l == Gather(chains, |chains|, []) && Linked(list, l) && NoDup(l)
      ensures forall x :: x in l ==> x in Nodes()
    {
      list, l := null, [];
      if buckets != null {
        list := GatherNodes(buckets, chains);
        l := Gather(chains, |chains|, []);
        forall x | x in l ensures x in Nodes() {
          GatheredIsMember(chains, x);
        }
      }
    }

    /** Fills the empty array `b` with the nodes on `list` and installs it. */
    method Install(b: array<Node?<V>>, list: Node?<V>, ghost l: seq<Node<V>>)
      requires b.Length > 0 && forall i :: 0 <= i < b.Length ==> b[i] == null
      requires l == Gather(chains, |chains|, []) && Linked(list, l) && NoDup(l)
      requires forall x :: x in l ==> x in Nodes()
      modifies this`buckets, this`chains, b, Nodes()`next
      ensures buckets == b && chains == Rehash(old(chains), NodeHash(), b.Length) && Shaped(b, chains)
      ensures Nodes() == old(Nodes()) && |Flat(chains)| == old(|Flat(chains)|)
    {
      RehashSameNodes(chains, NodeHash<V>(), b.Length);
      Refill(b, list, l);
      buckets := b;
      chains := Rehash(chains, NodeHash(), b.Length);
    }

    /** Nodes are gathered first; a failed allocation puts them back into the old buckets. */
    method Resize(n: nat, memory: bool) returns (ok: bool)
      requires Valid() && n >= nnodes && n > 0 && Bits.IsPow2(n)
      modifies this`buckets, this`chains, buckets, Nodes()`next
      ensures Valid() && ok == memory
      ensures Nodes() == old(Nodes())
      ensures memory ==> fresh(buckets) && chains == Rehash(old(chains), NodeHash(), n)
      ensures !memory ==> buckets == old(buckets) && |chains| == |old(chains)|
      ensures !memory && old(chains) != [] ==> chains == Rehash(old(chains), NodeHash(), |old(chains)|)
    {
      hide Rehash, Gather, Flat, Bits.IsPow2, Placed, Linked, NoDup;
      var list;
      ghost var l;
      list, l := Unlink();
      if memory {
        var b := NewBuckets(n);
        Install(b, list, l);
      } else if buckets != null {
        forall i | 0 <= i < buckets.Length {
          buckets[i] := null;
        }
        Install(buckets, list, l);
      }
      ok := memory;
    }

    /** map_getref: `prev` is null when the slot is the bucket itself, else the slot is prev.next. */
    method GetRef(key: string) returns (bucket: nat, prev: Node?<V>, node: Node?<V>, ghost k: nat)
      requires Valid()
      ensures node == null ==> forall x :: x in Nodes() ==> x.key != key
      ensures node != null ==> node in Nodes() && node.key == key
      ensures node != null ==> bucket < |chains| && k < |chains[bucket]| && chains[bucket][k] == node
      ensures node != null ==> prev == Previous(chains[bucket], k)
    {
      hide Flat, NoDup, HashFrom;
      bucket, prev, node, k := 0, null, null, 0;
      if buckets != null {
        var hash := MapHash(CBytes(key));
        bucket := Index(hash, buckets.Length);
        assert ChainOk(buckets, chains, bucket);
        MembersIn(chains);
        prev, node, k := WalkChain(buckets[bucket], chains[bucket], hash, key);
        if node == null {
          forall x | x in Nodes() ensures x.key != key {
            KeyInItsChain(chains, x);
          }
        } else {
          assert chains[bucket][k] in chains[bucket];
        }
      }
    }

    /** map_get_: the address of the value, here the node it lies in. */
    method Find(key: string) returns (node: Node?<V>)
      requires Valid()
      ensures node == null <==> key !in Contents()
      ensures node != null ==> node in Nodes() && node.key == key && node.value == Contents()[key]
    {
      var bucket, prev;
      ghost var k;
      bucket, prev, node, k := GetRef(key);
    }

    /** map_get_ of the key number `k` of an iteration. */
    method FindAt(key: string, ghost k: nat) returns (node: Node<V>)
      requires Valid() && k < |Order()| && Order()[k] == key
      ensures node in Nodes() && node.key == key && node.value == Values()[k]
    {
      hide HashTable.Order, ValuesOf;
      ValuesAreContents();
      assert Order()[k] in Contents();
      var found := Find(key);
      assert key in Contents();
      node := found;
    }

    method Get(key: string) returns (r: Option<V>)
      requires Valid()
      ensures r == if key in Contents() then Some(Contents()[key]) else None
    {
      var node := Find(key);
      r := if node == null then None else Some(node.value);
    }

    /** Links a new node into the buckets. */
    method Link(node: Node<V>)
      requires Valid() && nnodes < |chains| && node !in Nodes() && node.hash == HashKey(node.key)
      requires forall x :: x in Nodes() ==> x.key != node.key
      modifies this`chains, this`nnodes, buckets, node`next
      ensures Valid() && nnodes == old(nnodes) + 1 && |chains| == |old(chains)| && Nodes() == old(Nodes()) + {node}
      ensures chains == Insert(old(chains), NodeHash(), node)
    {
      hide Flat, Placed;
      InsertCounts(chains, node);
      InsertMembers(chains, node);
      AddNode(buckets, node, chains);
      chains := Insert(chains, NodeHash(), node);
      nnodes := nnodes + 1;
    }

    /** map_set_: false when an allocation fails, which leaves the contents alone. */
    method Set(key: string, value: V, nodeMemory: bool, bucketMemory: bool) returns (ok: bool)
      requires Valid()
      modifies this`buckets, this`chains, this`nnodes, buckets, Nodes()
      ensures Valid()
      ensures Contents() == if ok then old(Contents())[key := value] else old(Contents())
      ensures key in old(Contents()) ==> ok && chains == old(chains) && nnodes == old(nnodes)
      ensures key !in old(Contents()) ==>
                ok == (nodeMemory && (bucketMemory || old(nnodes) < old(|chains|)))
                && nnodes == old(nnodes) + (if ok then 1 else 0)
                && (ok ==> Appended(old(chains), old(nnodes), key, chains))
      ensures old(Nodes()) <= Nodes() && fresh(Nodes() - old(Nodes()))
      ensures buckets == old(buckets) || fresh(buckets)
    {
      hide Flat, Placed, Shaped;
      var bucket, prev, found;
      ghost var k;
      bucket, prev, found, k := GetRef(key);
      if found != null {
        Overwrite(found, value);
        ok := true;
      } else {
        ok := Append(key, value, nodeMemory, bucketMemory);
      }
    }

    /** The macro map_set: `count` is incremented even when a value is replaced or the call fails. */
    method MapSet(key: string, value: V, nodeMemory: bool, bucketMemory: bool) returns (ok: bool)
      requires Valid()
      modifies this, buckets, Nodes()
      ensures Valid() && old(Nodes()) <= Nodes() && fresh(Repr() - old(Repr()))
      ensures Contents() == if ok then old(Contents())[key := value] else old(Contents())
      ensures key in old(Contents()) ==> ok && Order() == old(Order())
      ensures key !in old(Contents()) ==>
                ok == (nodeMemory && (bucketMemory || old(nnodes) < old(|chains|)))
                && (ok ==> Appended(old(chains), old(nnodes), key, chains))
      ensures count - nnodes == old(count - nnodes) + (if ok && key !in old(Contents()) then 0 else 1)
    {
      hide Appended, Flat, Placed, Shaped, ValuesOf, KeysOk, Members;
      ok := Set(key, value, nodeMemory, bucketMemory);
      count := count + 1;
    }

    /** The macro map_remove: `count` is decremented even when nothing is removed. */
    method MapRemove(key: string)
      requires Valid()
      modifies this`chains, this`nnodes, this`count, buckets, Nodes()`next
      ensures Valid() && Contents() == old(Contents()) - {key}
      ensures count - nnodes == old(count - nnodes) - (if key in old(Contents()) then 0 else 1)
    {
      hide Flat, Placed, Shaped, ValuesOf, KeysOk, Members;
      count := count - 1;
      Remove(key);
    }

    method Overwrite(node: Node<V>, value: V)
      requires Valid() && node in Nodes()
      modifies node`value
      ensures Valid() && Contents() == old(Contents())[node.key := value]
    {
      hide Flat, Placed;
      node.value := value;
      if buckets != null {
        ValuesAreNotLinks();
      }
    }

    /** Overwrites the value of the key number `k`. */
    method OverwriteAt(node: Node<V>, value: V, ghost k: nat)
      requires Valid() && node in Nodes() && k < |Order()| && Order()[k] == node.key
      modifies node`value
      ensures Valid() && Values() == old(Values())[k := value]
    {
      hide HashTable.Valid, HashTable.Contents, HashTable.Order;
      OrderListsTheKeys();
      Overwrite(node, value);
    }

    /** Changing values does not change the chains. */
    twostate lemma ValuesAreNotLinks()
      requires unchanged(this) && buckets != null && old(Shaped(buckets, chains)) && buckets[..] == old(buckets[..])
      requires forall x :: x in Nodes() ==> x.next == old(x.next)
      ensures Shaped(buckets, chains)
    {
      MembersIn(chains);
      var b, c := buckets, chains;
      forall i | 0 <= i < |c| ensures ChainOk(b, c, i) {
        assert old(ChainOk(b, c, i)) && b[i] == b[..][i] && old(b[i]) == old(b[..])[i];
        forall k | 0 <= k < |c[i]| ensures LinkOk(c[i], k) {
          assert old(LinkOk(c[i], k)) && c[i][k] in c[i];
        }
      }
    }

    method Append(key: string, value: V, nodeMemory: bool, bucketMemory: bool) returns (ok: bool)
      requires Valid() && forall x :: x in Nodes() ==> x.key != key
      modifies this`buckets, this`chains, this`nnodes, buckets, Nodes()`next
      ensures Valid() && ok == (nodeMemory && (bucketMemory || old(nnodes) < old(|chains|)))
      ensures ok ==> Appended(old(chains), old(nnodes), key, chains)
      ensures Contents() == if ok then old(Contents())[key := value] else old(Contents())
      ensures nnodes == old(nnodes) + (if ok then 1 else 0)
      ensures old(Nodes()) <= Nodes() && fresh(Nodes() - old(Nodes()))
      ensures buckets == old(buckets) || fresh(buckets)
    {
      hide Flat, Placed, Shaped, ValuesOf;
      if !nodeMemory {
        return false;
      }
      var hash := MapHash(CBytes(key));
      var node := new Node(key, hash, value);
      var size := if buckets == null then 0 else buckets.Length;
      SizeIsChains();
      if nnodes >= size {
        DoubledPow2(size);
        ok := Resize(if size > 0 then 2 * size else 1, bucketMemory);
        if !ok {
          ValuesKept(old(Nodes()));
          return;
        }
      }
      Link(node);
      ValuesGrow(old(Nodes()), node);
      ok := true;
    }

    /** *next = (*next)->next */
    method Drop(bucket: nat, prev: Node?<V>, node: Node<V>, ghost k: nat)
      requires Valid() && bucket < |chains| && k < |chains[bucket]| && chains[bucket][k] == node
      requires prev == Previous(chains[bucket], k)
      modifies this`chains, this`nnodes, buckets, Nodes()`next
      ensures Valid() && |chains| == |old(chains)| && nnodes == old(nnodes) - 1
      ensures Nodes() == old(Nodes()) - {node}
      ensures CutAt(old(chains), bucket, k, chains)
    {
      hide Flat, Placed;
      ghost var c := chains[bucket];
      assert ChainOk(buckets, chains, bucket);
      MembersIn(chains);
      CutCounts(chains, bucket, k);
      OthersApart(chains, bucket);
      if prev == null {
        buckets[bucket] := node.next;
      } else {
        prev.next := node.next;
      }
      chains := Cut(chains, bucket, k);
      nnodes := nnodes - 1;
      forall j | 0 <= j < |c| && j + 1 != k && j != k ensures LinkOk(c, j) {
        assert old(LinkOk(c, j)) && c[j] in c;
      }
      assert old(LinkOk(c, k));
      CutLinks(buckets[bucket], c, k);
      forall i | 0 <= i < |chains| ensures ChainOk(buckets, chains, i) {
        assert i != bucket ==> old(ChainOk(buckets, chains, i));
      }
    }

    method Remove(key: string)
      requires Valid()
      modifies this`chains, this`nnodes, buckets, Nodes()`next
      ensures Valid() && |chains| == |old(chains)|
      ensures Nodes() == set x | x in old(Nodes()) && x.key != key
      ensures Contents() == old(Contents()) - {key}
      ensures nnodes == old(nnodes) - (if key in old(Contents()) then 1 else 0)
      ensures chains == old(chains) || exists i: nat, k: nat :: CutAt(old(chains), i, k, chains)
    {
      hide Flat, Placed, Shaped;
      var bucket, prev, node;
      ghost var k;
      bucket, prev, node, k := GetRef(key);
      if node != null {
        Drop(bucket, prev, node, k);
      }
      ValuesShrink(old(Nodes()), key);
      assert Nodes() == set x | x in old(Nodes()) && x.key != key;
    }

    lemma OneNodePerKey(a: Node<V>, b: Node<V>)
      requires Valid() && a in Nodes() && b in Nodes() && a.key == b.key
      ensures a == b
    {
    }

    lemma NodeHolds(x: Node<V>)
      requires Valid() && x in Nodes()
      ensures x.key in Contents() && Contents()[x.key] == x.value
    {
    }

    /** The stored number of buckets makes the mask of map_bucketidx a remainder, and that is where a key is. */
    lemma KeyIsInItsBucket(x: Node<V>)
      requires Valid() && x in Nodes()
      ensures |chains| > 0 && x in chains[HashKey(x.key) % |chains|]
    {
      hide Flat, Linked, ValuesOf;
      MembersIn(chains);
      var i :| 0 <= i < |chains| && x in chains[i];
      KeyInItsChain(chains, x);
      IndexIsRemainder(HashKey(x.key), |chains|);
    }

    lemma SizeIsChains()
      requires Valid()
      ensures |chains| == (if buckets == null then 0 else buckets.Length)
      ensures |chains| > 0 ==> Bits.IsPow2(|chains|)
    {
    }
  }

  /** map_iter_t. The ghost fields say how many keys have been returned and where in its chain `node` is. */
  class MapIterator<V> {
    var bucket: int
    var node: Node?<V>
    ghost var yielded: nat
    ghost var place: nat

    constructor (ghost m: HashTable<V>)
      ensures Over(m.chains) && yielded == 0
    {
      bucket, node, yielded, place := -1, null, 0, 0;
    }

    /** The iterator stands behind the first `yielded` keys of the chains `c`. */
    ghost predicate Over(c: seq<seq<Node<V>>>)
      reads this
    {
      && -1 <= bucket
      && (node == null ==> yielded == |Flat(c[..Clip(bucket + 1, |c|)])|)
      && (node != null ==> 0 <= bucket < |c| && OnNode(c))
    }

    ghost predicate OnNode(c: seq<seq<Node<V>>>)
      requires 0 <= bucket < |c|
      reads this
    {
      place < |c[bucket]| && c[bucket][place] == node && yielded == |Flat(c[..bucket])| + place + 1
    }

    /** map_next_ */
    method Next(m: HashTable<V>) returns (key: Option<string>)
      requires m.Valid() && Over(m.chains)
      modifies this
      ensures Over(m.chains)
      ensures if old(yielded) < |m.Order()|
              then key == Some(m.Order()[old(yielded)]) && yielded == old(yielded) + 1
              else key == None && yielded == old(yielded)
    {
      hide Flat, Members, Placed;
      if node != null {
        NodeAt(m.chains, bucket, place);
        assert ChainOk(m.buckets, m.chains, bucket) && LinkOk(m.chains[bucket], place);
        node := node.next;
        if node == null {
          FlatLast(m.chains, bucket + 1);
          NextBucket(m);
        } else {
          place, yielded := place + 1, yielded + 1;
          NodeAt(m.chains, bucket, place);
        }
      } else {
        NextBucket(m);
      }
      key := if node == null then None else Some(node.key);
    }

    /** The loop of map_next_ over empty buckets. */
    method NextBucket(m: HashTable<V>)
      requires m.Valid() && node == null && Over(m.chains)
      modifies this
      ensures Over(m.chains)
      ensures if old(yielded) < |Flat(m.chains)|
              then node == Flat(m.chains)[old(yielded)] && yielded == old(yielded) + 1
              else node == null && yielded == old(yielded)
    {
      hide Flat, Members, Placed, Linked;
      ghost var c := m.chains;
      m.SizeIsChains();
      var size := if m.buckets == null then 0 else m.buckets.Length;
      assert c[..|c|] == c;
      while node == null
        invariant -1 <= bucket
        invariant node == null ==> yielded == old(yielded) == |Flat(c[..Clip(bucket + 1, |c|)])|
        invariant node != null ==> 0 <= bucket < |c| && OnNode(c) && yielded == old(yielded) + 1
        invariant node != null ==> old(yielded) < |Flat(c)| && node == Flat(c)[old(yielded)]
        decreases |c| - bucket, if node == null then 1 else 0
      {
        bucket := bucket + 1;
        if bucket >= size {
          return;
        }
        node := m.buckets[bucket];
        ChainHead(m.buckets, c, bucket);
        FlatLast(c, bucket + 1);
        if node != null {
          place, yielded := 0, yielded + 1;
          NodeAt(c, bucket, 0);
        }
      }
    }
  }

  function Clip(x: int, n: nat): (r: nat)
    requires x >= 0
    ensures r <= n && (x <= n ==> r == x) && (x >= n ==> r == n)
  {
    if x < n then x else n
  }
}
