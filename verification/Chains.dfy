/** csrc/include/rxi/map.h: hashing, nodes, and the chains they form in the buckets. */
module Chains {
  import opened MachineInts
  import opened Bits
  import opened Buckets

  datatype Option<T> = None | Some(value: T)

  /** The values of the keys `names`, in that order. */
  function Pick<T>(m: map<string, T>, names: seq<string>): (r: seq<T>)
    requires forall n :: n in names ==> n in m
    ensures |r| == |names| && forall i :: 0 <= i < |r| ==> r[i] == m[names[i]]
  {
    seq(|names|, i requires 0 <= i < |names| => assert names[i] in names; m[names[i]])
  }

  const U64: nat := 0x1_0000_0000_0000_0000

  /** One round of map_hash on a uint64_t. */
  function Mix(hash: nat, byte: nat): nat { Xor((32 * hash + hash) % U64, byte) }

  function HashFrom(hash: nat, bytes: seq<Byte>): nat
    decreases |bytes|
  {
    if bytes == [] then hash else HashFrom(Mix(hash, bytes[0]), bytes[1..])
  }

  /** The bytes of a C string, terminator included. */
  function CBytes(key: string): seq<Byte> { seq(|key|, i requires 0 <= i < |key| => Wrap8(key[i] as int)) + [0] }

  function HashKey(key: string): nat { HashFrom(5381, CBytes(key)) }

  /** One round multiplies by 33 modulo 2^64, and the byte is added without carry into the lowest eight bits. */
  lemma MixIsTimes33(hash: nat, byte: Byte)
    ensures Mix(hash, 0) == 33 * hash % 0x1_0000_0000_0000_0000
    ensures Mix(hash, byte) / 256 == Mix(hash, 0) / 256 && Mix(hash, byte) % 256 == Xor(Mix(hash, 0) % 256, byte)
  {
    hide Xor;
    var h := (32 * hash + hash) % U64;
    XorNothing(h);
    XorBytes(h, byte);
  }

  lemma XorNothing(a: nat)
    ensures Xor(a, 0) == a && Xor(0, a) == a
  {
  }

  /** Bits above the lowest eight are left alone. */
  lemma XorBytes(a: nat, b: nat)
    requires b < 256
    ensures Xor(a, b) / 256 == a / 256 && Xor(a, b) % 256 == Xor(a % 256, b)
  {
    XorLow(a, b, 8);
    assert Pow2(4) == 16;
    Pow2Add(4, 4);
  }

  lemma {:induction false} XorLow(a: nat, b: nat, n: nat)
    requires b < Pow2(n)
    ensures Xor(a, b) / Pow2(n) == a / Pow2(n) && Xor(a, b) % Pow2(n) == Xor(a % Pow2(n), b)
    decreases n
  {
    hide Xor;
    if n == 0 {
      XorNothing(a);
      XorNothing(0);
    } else {
      var p := Pow2(n - 1);
      XorLow(a / 2, b / 2, n - 1);
      XorHalves(a, b);
      XorHalves(a % Pow2(n), b);
      HalfOfMod(a, p);
      DoubleOver(Xor(a / 2, b / 2), Bit(a, b), p);
      DivHalves(a, p);
    }
  }

  function Bit(a: nat, b: nat): nat { if a % 2 == b % 2 then 0 else 1 }

  lemma XorHalves(a: nat, b: nat)
    ensures Xor(a, b) == 2 * Xor(a / 2, b / 2) + Bit(a, b)
  {
    if a == 0 {
      XorNothing(b);
      XorNothing(b / 2);
    } else if b == 0 {
      XorNothing(a);
      XorNothing(a / 2);
    }
  }

  lemma HalfOfMod(a: nat, p: nat)
    requires p > 0
    ensures a % (2 * p) / 2 == a / 2 % p && a % (2 * p) % 2 == a % 2
  {
    ModHalves(a, p);
  }

  lemma DivHalves(a: nat, p: nat)
    requires p > 0
    ensures a / (2 * p) == a / 2 / p
  {
    var q, r := a / 2 / p, a / 2 % p;
    assert a / 2 == p * q + r;
    assert a == (2 * p) * q + (2 * r + a % 2);
    DivUnique(a, 2 * p, q, 2 * r + a % 2);
  }

  lemma DivUnique(a: int, m: int, q: int, r: int)
    requires m > 0 && a == m * q + r && 0 <= r < m
    ensures a / m == q
  {
    ModUnique(a, m, q, r);
    assert a == m * (a / m) + a % m;
    Cancel(m, a / m, q);
  }

  lemma Cancel(m: int, x: int, y: int)
    requires m > 0 && m * x == m * y
    ensures x == y
  {
    assert m * (x - y) == 0;
  }

  lemma DoubleOver(x: nat, bit: nat, p: nat)
    requires p > 0 && bit < 2
    ensures (2 * x + bit) / (2 * p) == x / p && (2 * x + bit) % (2 * p) == 2 * (x % p) + bit
  {
    assert (2 * x + bit) / 2 == x && (2 * x + bit) % 2 == bit;
    ModHalves(2 * x + bit, p);
    DivHalves(2 * x + bit, p);
  }

  /** The hashes of two keys, as numbers; the terminator is hashed, too. */
  lemma HashOfShortKeys()
    ensures HashKey("") == 177573 && HashKey("a") == 5860932
  {
    hide Xor;
    MixIsTimes33(5381, 0);
    MixIsTimes33(5381, 97);
    XorExample();
    assert Mix(5381, 97) == 177604;
    MixIsTimes33(177604, 0);
    assert CBytes("") == [0] && CBytes("a") == [97, 0];
    assert [0][1..] == [] && [97, 0][1..] == [0];
    assert HashFrom(5381, [0]) == HashFrom(Mix(5381, 0), []);
    assert HashFrom(5381, [97, 0]) == HashFrom(Mix(5381, 97), [0]) == HashFrom(Mix(177604, 0), []);
  }

  lemma XorExample()
    ensures Xor(165, 97) == 196
  {
    assert Xor(2, 1) == 3 && Xor(5, 3) == 6 && Xor(10, 6) == 12;
    assert Xor(20, 12) == 24 && Xor(41, 24) == 49 && Xor(82, 48) == 98;
  }

  method MapHash(bytes: seq<Byte>) returns (hash: nat)
    ensures hash == HashFrom(5381, bytes)
  {
    hash := 5381;
    var i := 0;
    assert bytes[0..] == bytes;
    while i < |bytes|
      invariant i <= |bytes| && HashFrom(hash, bytes[i..]) == HashFrom(5381, bytes)
    {
      assert bytes[i..][1..] == bytes[i + 1..];
      hash := Mix(hash, bytes[i]);
      i := i + 1;
    }
  }

  lemma {:induction false} HashIsWord(hash: nat, bytes: seq<Byte>)
    requires hash < U64
    ensures HashFrom(hash, bytes) < U64
    decreases |bytes|
  {
    hide Pow2, Xor;
    if bytes != [] {
      U64IsPow2();
      XorBound((32 * hash + hash) % U64, bytes[0], 64);
      HashIsWord(Mix(hash, bytes[0]), bytes[1..]);
    }
  }

  lemma Pow2Of4()
    ensures Pow2(4) == 16
  {
  }

  lemma U64IsPow2()
    ensures Pow2(64) == U64
  {
    hide Pow2;
    Pow2Of4();
    Pow2Add(4, 4);
    Pow2Add(8, 8);
    Pow2Add(16, 16);
    Pow2Add(32, 32);
  }

  lemma {:induction false} Pow2Add(a: nat, b: nat)
    ensures Pow2(a + b) == Pow2(a) * Pow2(b)
  {
    if a > 0 {
      Pow2Add(a - 1, b);
    }
  }

  // ----- nodes and chains -----

  class Node<V> {
    const hash: nat
    const key: string
    var value: V
    var next: Node?<V>

    constructor (key: string, hash: nat, value: V)
      ensures this.key == key && this.hash == hash && this.value == value && this.next == null
    {
      this.key, this.hash, this.value, this.next := key, hash, value, null;
    }
  }

  function NodeHash<V>(): Node<V> -> nat { (n: Node<V>) => n.hash }

  function At<V>(c: seq<Node<V>>, k: nat): Node?<V> { if k < |c| then c[k] else null }

  ghost predicate LinkOk<V>(c: seq<Node<V>>, k: nat)
    requires k < |c|
    reads c
  {
    c[k].next == At(c, k + 1)
  }

  /** The nodes `c`, from `head` to null. */
  ghost predicate Linked<V>(head: Node?<V>, c: seq<Node<V>>)
    reads c
  {
    head == At(c, 0) && forall k :: 0 <= k < |c| ==> LinkOk(c, k)
  }

  ghost predicate NoDup<T>(c: seq<T>) { forall i, j :: 0 <= i < j < |c| ==> c[i] != c[j] }

  ghost predicate Apart<T>(a: seq<T>, b: seq<T>) { forall x :: x in a ==> x !in b }

  lemma MoveHead<T>(c: seq<T>, l: seq<T>)
    requires c != [] && NoDup(c) && NoDup(l) && Apart(c, l)
    ensures c[0] !in c[1..] && c[0] !in l && (forall x :: x in c[1..] ==> x in c)
    ensures NoDup(c[1..]) && NoDup([c[0]] + l) && Apart(c[1..], [c[0]] + l)
  {
    assert c[0] in c;
    forall x | x in c[1..] ensures x in c && x != c[0] {
      var k :| 0 <= k < |c[1..]| && c[1..][k] == x;
      assert c[k + 1] == x;
    }
    var m := [c[0]] + l;
    forall i, j | 0 <= i < j < |m| ensures m[i] != m[j] {
      assert m[j] == l[j - 1] && m[j] in l;
    }
  }

  lemma {:induction false} PushAllFacts<T>(c: seq<T>, l: seq<T>)
    requires NoDup(c) && NoDup(l) && Apart(c, l)
    ensures NoDup(PushAll(c, l)) && forall x :: x in PushAll(c, l) <==> x in c || x in l
    decreases |c|
  {
    if c != [] {
      MoveHead(c, l);
      PushAllFacts(c[1..], [c[0]] + l);
    }
  }

  lemma PushedFrom<T>(c: seq<T>, l: seq<T>)
    ensures var r := PushAll(c, l);
            forall k :: 0 <= k < |r| ==> r[k] in c || exists j :: 0 <= j < |l| && l[j] == r[k]
  {
    PushAllKeeps(c, l);
    var r := PushAll(c, l);
    forall k | 0 <= k < |r| ensures r[k] in c || exists j :: 0 <= j < |l| && l[j] == r[k] {
      assert r[k] in multiset(r);
      assert r[k] in c || r[k] in l;
    }
  }

  /** Links of the tail of a chain. */
  lemma LinkedTail<V>(head: Node?<V>, c: seq<Node<V>>)
    requires Linked(head, c) && c != []
    ensures head == c[0] && Linked(c[0].next, c[1..])
  {
    assert LinkOk(c, 0);
    forall k | 0 <= k < |c[1..]| ensures LinkOk(c[1..], k) {
      assert LinkOk(c, k + 1);
    }
  }

  lemma LinkedFront<V>(x: Node<V>, l: seq<Node<V>>)
    requires Linked(x.next, l)
    ensures Linked(x, [x] + l)
  {
    forall k | 0 <= k < |[x] + l| ensures LinkOk([x] + l, k) {
      if k > 0 {
        assert LinkOk(l, k - 1);
      }
    }
  }

  /** The inner loop of map_resize's first pass. */
  method PushChain<V>(head: Node?<V>, list: Node?<V>, ghost c: seq<Node<V>>, ghost l: seq<Node<V>>) returns (r: Node?<V>)
    requires Linked(head, c) && Linked(list, l) && NoDup(c) && NoDup(l) && Apart(c, l)
    modifies (set x | x in c)`next
    ensures Linked(r, PushAll(c, l))
  {
    r := list;
    var node := head;
    ghost var todo, done := c, l;
    while node != null
      invariant Linked(node, todo) && Linked(r, done) && NoDup(todo) && NoDup(done) && Apart(todo, done)
      invariant forall x :: x in todo ==> x in c
      invariant PushAll(todo, done) == PushAll(c, l)
      decreases |todo|
    {
      MoveHead(todo, done);
      LinkedTail(node, todo);
      var next := node.next;
      node.next := r;
      LinkedFront(node, done);
      r := node;
      done := [todo[0]] + done;
      todo := todo[1..];
      node := next;
    }
  }

  ghost function Members<T>(c: seq<seq<T>>): set<T> { set i, x | 0 <= i < |c| && x in c[i] :: x }

  lemma MembersIn<T>(c: seq<seq<T>>)
    ensures forall i, x :: 0 <= i < |c| && x in c[i] ==> x in Members(c)
  {
  }

  /** The heads in `b` start the chains `c`; every node lies in the chain its hash selects. */
  ghost predicate Shaped<V>(b: array<Node?<V>>, c: seq<seq<Node<V>>>)
    reads b, Members(c)
  {
    MembersIn(c);
    b.Length == |c| && Placed(c, NodeHash()) && forall i :: 0 <= i < |c| ==> ChainOk(b, c, i)
  }

  ghost predicate ChainOk<V>(b: array<Node?<V>>, c: seq<seq<Node<V>>>, i: nat)
    requires i < b.Length && i < |c|
    reads b, c[i]
  {
    NoDup(c[i]) && Linked(b[i], c[i])
  }

  lemma PlacedIndex<V>(c: seq<seq<Node<V>>>, i: nat, x: Node<V>)
    requires Placed(c, NodeHash()) && i < |c| && x in c[i]
    ensures Index(x.hash, |c|) == i
  {
    var k :| 0 <= k < |c[i]| && c[i][k] == x;
    assert Index(NodeHash()(c[i][k]), |c|) == i;
  }

  /** Chains with different numbers share no node. */
  lemma PlacedApart<V>(c: seq<seq<Node<V>>>, i: nat, j: nat)
    requires Placed(c, NodeHash()) && i < |c| && j < |c| && i != j
    ensures Apart(c[i], c[j])
  {
    forall x | x in c[i] ensures x !in c[j] {
      PlacedIndex(c, i, x);
      if x in c[j] {
        PlacedIndex(c, j, x);
      }
    }
  }

  /** map_addnode */
  method AddNode<V>(b: array<Node?<V>>, node: Node<V>, ghost c: seq<seq<Node<V>>>)
    requires Shaped(b, c) && |c| > 0 && node !in Members(c)
    modifies b, node`next
    ensures Shaped(b, Insert(c, NodeHash(), node))
  {
    var n := Index(node.hash, b.Length);
    assert ChainOk(b, c, n);
    assert forall i, x :: 0 <= i < |c| && x in c[i] ==> x in Members(c);
    label Before:
    node.next := b[n];
    LinkedFront(node, c[n]);
    b[n] := node;
    ghost var d := Insert(c, NodeHash(), node);
    InsertPlaces(c, NodeHash(), node);
    forall i | 0 <= i < |d| ensures ChainOk(b, d, i) {
      assert old@Before(ChainOk(b, c, i));
      if i == n {
        assert d[i][1..] == c[i];
      }
    }
  }

  lemma {:induction false} GatherFacts<T>(c: seq<seq<T>>, i: nat, l: seq<T>)
    requires i <= |c|
    ensures forall x :: x in Gather(c, i, l) <==> x in l || exists j :: 0 <= j < i && x in c[j]
  {
    GatherKeeps(c, i, l);
    forall x ensures x in Gather(c, i, l) <==> x in l || exists j :: 0 <= j < i && x in c[j] {
      InFlat(c[..i], x);
      assert x in Gather(c, i, l) <==> x in multiset(Gather(c, i, l));
      assert x in Flat(c[..i]) <==> x in multiset(Flat(c[..i]));
      if j :| 0 <= j < i && x in c[j] {
        assert x in c[..i][j];
      }
    }
  }

  /** `l` holds nodes of the chains from number `i` on. */
  ghost predicate GatheredFrom<V>(c: seq<seq<Node<V>>>, i: nat, l: seq<Node<V>>)
    requires |c| > 0
  {
    NoDup(l) && forall k :: 0 <= k < |l| ==> l[k] in Members(c) && Index(l[k].hash, |c|) >= i
  }

  lemma GatheredApart<V>(c: seq<seq<Node<V>>>, i: nat, l: seq<Node<V>>)
    requires Placed(c, NodeHash()) && i < |c| && NoDup(c[i]) && GatheredFrom(c, i + 1, l)
    ensures Apart(c[i], l) && GatheredFrom(c, i, PushAll(c[i], l))
  {
    forall x | x in c[i] ensures x in Members(c) && Index(x.hash, |c|) == i {
      PlacedIndex(c, i, x);
    }
    forall k | 0 <= k < |l| ensures l[k] !in c[i] {
      if l[k] in c[i] {
        PlacedIndex(c, i, l[k]);
      }
    }
    PushAllFacts(c[i], l);
    PushedFrom(c[i], l);
  }

  /** The first pass of map_resize: every node of every chain onto one list. */
  method GatherNodes<V>(b: array<Node?<V>>, ghost c: seq<seq<Node<V>>>) returns (list: Node?<V>)
    requires Shaped(b, c)
    modifies Members(c)`next
    ensures Linked(list, Gather(c, |c|, [])) && NoDup(Gather(c, |c|, []))
  {
    list := null;
    ghost var l: seq<Node<V>> := [];
    var i := b.Length;
    while i > 0
      invariant 0 <= i <= |c| && Linked(list, l)
      invariant forall j :: 0 <= j < i ==> ChainOk(b, c, j)
      invariant if |c| > 0 then GatheredFrom(c, i, l) else l == []
      invariant Gather(c, i, l) == Gather(c, |c|, [])
    {
      i := i - 1;
      assert ChainOk(b, c, i);
      OthersApart(c, i);
      GatheredApart(c, i, l);
      label Before:
      list := PushChain(b[i], list, c[i], l);
      forall j | 0 <= j < i ensures ChainOk(b, c, j) {
        assert old@Before(ChainOk(b, c, j));
      }
      l := PushAll(c[i], l);
    }
  }

  /** The second pass of map_resize: the list into empty buckets. */
  method Refill<V>(b: array<Node?<V>>, list: Node?<V>, ghost l: seq<Node<V>>)
    requires b.Length > 0 && (forall i :: 0 <= i < b.Length ==> b[i] == null)
    requires Linked(list, l) && NoDup(l)
    modifies b, (set x | x in l)`next
    ensures Shaped(b, InsertAll(NoChains(b.Length), NodeHash(), l))
  {
    var node := list;
    ghost var rest := l;
    ghost var c: seq<seq<Node<V>>> := NoChains(b.Length);
    while node != null
      invariant Shaped(b, c) && |c| > 0 && Linked(node, rest) && NoDup(rest)
      invariant forall x :: x in rest ==> x in l && x !in Members(c)
      invariant InsertAll(c, NodeHash(), rest) == InsertAll(NoChains(b.Length), NodeHash(), l)
      decreases |rest|
    {
      MoveHead(rest, []);
      LinkedTail(node, rest);
      var first: Node<V> := node;
      InsertMembers(c, first);
      var next := node.next;
      AddNode(b, first, c);
      c := Insert(c, NodeHash(), first);
      rest := rest[1..];
      node := next;
    }
  }

  lemma InsertMembers<V>(c: seq<seq<Node<V>>>, x: Node<V>)
    requires |c| > 0
    ensures Members(Insert(c, NodeHash(), x)) == Members(c) + {x}
  {
    var n := Index(x.hash, |c|);
    var d := Insert(c, NodeHash(), x);
    assert d[n] == [x] + c[n];
    forall y ensures y in Members(d) <==> y in Members(c) || y == x {
      if y in Members(c) {
        var i :| 0 <= i < |c| && y in c[i];
        assert y in d[i];
      }
      if y == x {
        assert y in d[n];
      }
    }
  }

  // ----- facts about the nodes -----

  /** Stored hashes are those of the keys, and no key occurs twice. */
  ghost predicate KeysOk<V>(c: seq<seq<Node<V>>>) {
    && (forall x :: x in Members(c) ==> x.hash == HashKey(x.key))
    && (forall x, y :: x in Members(c) && y in Members(c) && x.key == y.key ==> x == y)
  }

  lemma MembersAreFlat<T>(c: seq<seq<T>>)
    ensures forall x :: x in Members(c) <==> x in Flat(c)
  {
    forall x ensures x in Members(c) <==> x in Flat(c) {
      InFlat(c, x);
    }
  }

  /** The same nodes in the same number. */
  ghost predicate SameNodes<T>(c: seq<seq<T>>, d: seq<seq<T>>) {
    Members(c) == Members(d) && |Flat(c)| == |Flat(d)|
  }

  lemma RehashSameNodes<T>(c: seq<seq<T>>, hash: T -> nat, n: nat)
    requires n > 0
    ensures SameNodes(Rehash(c, hash, n), c)
  {
    hide Rehash, Flat;
    var d := Rehash(c, hash, n);
    RehashKeeps(c, hash, n);
    MembersAreFlat(c);
    MembersAreFlat(d);
    SameBag(Flat(c), Flat(d));
    assert Members(d) == Members(c);
  }

  lemma SameBag<T>(a: seq<T>, b: seq<T>)
    requires multiset(a) == multiset(b)
    ensures |a| == |b| && forall x :: x in a <==> x in b
  {
    assert |a| == |multiset(a)| && |b| == |multiset(b)|;
    assert forall x :: (x in a <==> x in multiset(a)) && (x in b <==> x in multiset(b));
  }

  lemma GatherIsMembers<V>(c: seq<seq<Node<V>>>)
    ensures forall x :: x in Gather(c, |c|, []) <==> x in Members(c)
  {
    GatherFacts(c, |c|, []);
    MembersIn(c);
  }

  lemma GatheredIsMember<V>(c: seq<seq<Node<V>>>, x: Node<V>)
    requires x in Gather(c, |c|, [])
    ensures x in Members(c)
  {
    GatherIsMembers(c);
  }

  lemma InsertCounts<V>(c: seq<seq<Node<V>>>, x: Node<V>)
    requires |c| > 0
    ensures |Flat(Insert(c, NodeHash(), x))| == |Flat(c)| + 1
  {
    InsertKeeps(c, NodeHash(), x);
    var d := Insert(c, NodeHash(), x);
    assert |Flat(d)| == |multiset(Flat(d))| && |Flat(c)| == |multiset(Flat(c))|;
  }

  function Previous<V>(c: seq<Node<V>>, k: nat): Node?<V>
    requires k <= |c|
  {
    if k == 0 then null else c[k - 1]
  }

  /** The first node with this hash and key. */
  method WalkChain<V>(head: Node?<V>, ghost c: seq<Node<V>>, hash: nat, key: string)
    returns (prev: Node?<V>, node: Node?<V>, ghost k: nat)
    requires Linked(head, c)
    ensures k <= |c| && node == At(c, k) && prev == Previous(c, k)
    ensures node != null ==> node.hash == hash && node.key == key
    ensures node == null ==> forall x :: x in c ==> x.hash != hash || x.key != key
  {
    prev, node, k := null, head, 0;
    while node != null
      invariant k <= |c| && node == At(c, k) && prev == Previous(c, k)
      invariant forall j :: 0 <= j < k ==> c[j].hash != hash || c[j].key != key
      decreases |c| - k
    {
      assert LinkOk(c, k);
      if node.hash == hash && node.key == key {
        return;
      }
      prev := node;
      node := node.next;
      k := k + 1;
    }
  }

  twostate lemma ValuesShrink<V>(nodes: set<Node<V>>, new key: string)
    requires DistinctKeys(nodes) && forall x :: x in nodes ==> x.value == old(x.value)
    ensures ValuesOf(set x | x in nodes && x.key != key) == old(ValuesOf(nodes)) - {key}
  {
  }

  ghost predicate DistinctKeys<V>(nodes: set<Node<V>>) {
    forall x, y :: x in nodes && y in nodes && x.key == y.key ==> x == y
  }

  ghost function KeySet<V>(nodes: set<Node<V>>): set<string> { set x | x in nodes :: x.key }

  ghost function NodeWith<V>(nodes: set<Node<V>>, key: string): (x: Node<V>)
    requires key in KeySet(nodes)
    ensures x in nodes && x.key == key
  {
    var x :| x in nodes && x.key == key;
    x
  }

  /** The bound variable is the key itself: Dafny 4.11 is unsound for maps whose keys are computed from it. */
  ghost function ValuesOf<V>(nodes: set<Node<V>>): map<string, V>
    requires DistinctKeys(nodes)
    reads nodes
  {
    map key | key in KeySet(nodes) :: NodeWith(nodes, key).value
  }

  twostate lemma ValuesKept<V>(nodes: set<Node<V>>)
    requires DistinctKeys(nodes) && forall x :: x in nodes ==> x.value == old(x.value)
    ensures ValuesOf(nodes) == old(ValuesOf(nodes))
  {
  }

  twostate lemma ValuesGrow<V>(nodes: set<Node<V>>, new node: Node<V>)
    requires DistinctKeys(nodes) && (forall x :: x in nodes ==> x.value == old(x.value) && x.key != node.key)
    ensures ValuesOf(nodes + {node}) == old(ValuesOf(nodes))[node.key := node.value]
  {
  }

  /** Without node `k` of chain `i`. */
  ghost function Cut<T>(c: seq<seq<T>>, i: nat, k: nat): seq<seq<T>>
    requires i < |c| && k < |c[i]|
  {
    c[i := c[i][..k] + c[i][k + 1..]]
  }

  lemma OthersApart<V>(c: seq<seq<Node<V>>>, i: nat)
    requires Placed(c, NodeHash()) && i < |c|
    ensures forall j :: 0 <= j < |c| && j != i ==> Apart(c[i], c[j])
  {
    forall j | 0 <= j < |c| && j != i ensures Apart(c[i], c[j]) {
      PlacedApart(c, i, j);
    }
  }

  lemma CutCounts<V>(c: seq<seq<Node<V>>>, i: nat, k: nat)
    requires i < |c| && k < |c[i]| && Placed(c, NodeHash()) && NoDup(c[i])
    ensures |Flat(Cut(c, i, k))| == |Flat(c)| - 1 && Placed(Cut(c, i, k), NodeHash())
    ensures Members(Cut(c, i, k)) == Members(c) - {c[i][k]}
  {
    var d := Cut(c, i, k);
    FlatAround(c, i);
    FlatAround(d, i);
    assert d[..i] == c[..i] && d[i + 1..] == c[i + 1..];
    CutPlaced(c, i, k);
    CutMembers(c, i, k);
  }

  /** The node before the removed one has been linked to the one behind it. */
  lemma CutLinks<V>(head: Node?<V>, c: seq<Node<V>>, k: nat)
    requires k < |c| && NoDup(c) && head == (if k > 0 then c[0] else At(c, 1))
    requires forall j :: 0 <= j < |c| && j + 1 != k && j != k ==> LinkOk(c, j)
    requires k > 0 ==> c[k - 1].next == At(c, k + 1)
    ensures var d := c[..k] + c[k + 1..]; Linked(head, d) && NoDup(d)
  {
    var d := c[..k] + c[k + 1..];
    assert forall m :: 0 <= m < |d| ==> d[m] == c[if m < k then m else m + 1];
    forall m | 0 <= m < |d| ensures LinkOk(d, m) {
      if m + 1 != k {
        assert LinkOk(c, if m < k then m else m + 1);
      }
    }
  }

  lemma CutPlaced<V>(c: seq<seq<Node<V>>>, i: nat, k: nat)
    requires i < |c| && k < |c[i]| && Placed(c, NodeHash())
    ensures Placed(Cut(c, i, k), NodeHash())
  {
    var d := Cut(c, i, k);
    forall j, m | 0 <= j < |d| && 0 <= m < |d[j]| ensures Index(NodeHash()(d[j][m]), |d|) == j {
      var m' := if j == i && m >= k then m + 1 else m;
      assert d[j][m] == c[j][m'];
    }
  }

  lemma CutMembers<V>(c: seq<seq<Node<V>>>, i: nat, k: nat)
    requires i < |c| && k < |c[i]| && Placed(c, NodeHash()) && NoDup(c[i])
    ensures Members(Cut(c, i, k)) == Members(c) - {c[i][k]}
  {
    hide Placed, NoDup;
    var d := Cut(c, i, k);
    OthersApart(c, i);
    CutElements(c[i], k);
    assert c[i][k] in c[i];
    forall x ensures x in Members(d) <==> x in Members(c) && x != c[i][k] {
      if x in Members(d) {
        var j :| 0 <= j < |d| && x in d[j];
        assert x in c[j] && (j != i ==> x !in c[i]);
      }
      if x in Members(c) && x != c[i][k] {
        var j :| 0 <= j < |c| && x in c[j];
        assert x in d[j];
      }
    }
  }

  lemma CutElements<T>(s: seq<T>, k: nat)
    requires k < |s| && NoDup(s)
    ensures forall x :: x in s[..k] + s[k + 1..] <==> x in s && x != s[k]
  {
    var d := s[..k] + s[k + 1..];
    forall x ensures x in d <==> x in s && x != s[k] {
      if x in d {
        var m :| 0 <= m < |d| && d[m] == x;
        assert x == s[if m < k then m else m + 1];
      }
      if x in s && x != s[k] {
        var m :| 0 <= m < |s| && s[m] == x;
        assert x == d[if m < k then m else m - 1];
      }
    }
  }

  lemma DoubledPow2(n: nat)
    ensures IsPow2(1) && (IsPow2(n) ==> IsPow2(2 * n))
  {
    assert Pow2(0) == 1;
    if IsPow2(n) {
      var k: nat :| n == Pow2(k);
      assert Pow2(k + 1) == 2 * n;
    }
  }

  /** A node lies in the chain selected by the hash of its key. */
  lemma KeyInItsChain<V>(c: seq<seq<Node<V>>>, x: Node<V>)
    requires Placed(c, NodeHash()) && KeysOk(c) && x in Members(c) && |c| > 0
    ensures x in c[Index(HashKey(x.key), |c|)]
  {
    var i :| 0 <= i < |c| && x in c[i];
    PlacedIndex(c, i, x);
  }

  // ----- the order of the keys -----

  function KeysOf<V>(nodes: seq<Node<V>>): (keys: seq<string>)
    ensures |keys| == |nodes| && forall i :: 0 <= i < |keys| ==> keys[i] == nodes[i].key
  {
    seq(|nodes|, i requires 0 <= i < |nodes| => nodes[i].key)
  }

  lemma KeysOfHas<V>(nodes: seq<Node<V>>, key: string)
    ensures key in KeysOf(nodes) <==> exists x :: x in nodes && x.key == key
  {
    if x :| x in nodes && x.key == key {
      var i :| 0 <= i < |nodes| && nodes[i] == x;
      assert KeysOf(nodes)[i] == key;
    }
  }

  lemma {:induction false} DistinctCount<T>(s: seq<T>)
    requires NoDup(s)
    ensures |set x | x in s| == |s|
  {
    if s != [] {
      var front, last := s[..|s| - 1], s[|s| - 1];
      DistinctCount(front);
      assert (set x | x in s) == (set x | x in front) + {last} by {
        assert s == front + [last];
      }
    }
  }

  lemma FlatMembers<T>(c: seq<seq<T>>)
    ensures forall i :: 0 <= i < |Flat(c)| ==> Flat(c)[i] in Members(c)
    ensures Members(c) == set x | x in Flat(c)
  {
    MembersAreFlat(c);
    forall i | 0 <= i < |Flat(c)| ensures Flat(c)[i] in Members(c) {
      assert Flat(c)[i] in Flat(c);
    }
  }

  lemma NoChainsNoNodes<T>(c: seq<seq<T>>)
    requires c == []
    ensures Flat(c) == []
  {
  }

  lemma FlatHasNoDup<V>(c: seq<seq<Node<V>>>)
    requires Placed(c, NodeHash()) && forall i :: 0 <= i < |c| ==> NoDup(c[i])
    ensures NoDup(Flat(c))
  {
    assert c[..|c|] == c;
    FlatPrefixNoDup(c, |c|);
  }

  lemma {:induction false} FlatPrefixNoDup<V>(c: seq<seq<Node<V>>>, i: nat)
    requires Placed(c, NodeHash()) && i <= |c| && forall j :: 0 <= j < |c| ==> NoDup(c[j])
    ensures NoDup(Flat(c[..i]))
  {
    if i > 0 {
      FlatPrefixNoDup(c, i - 1);
      FlatLast(c, i);
      var front, last := Flat(c[..i - 1]), c[i - 1];
      forall x | x in front ensures x !in last {
        InFlat(c[..i - 1], x);
        var j :| 0 <= j < |c[..i - 1]| && x in c[..i - 1][j];
        PlacedApart(c, j, i - 1);
      }
      AppendNoDup(front, last);
    }
  }

  lemma AppendNoDup<T>(a: seq<T>, b: seq<T>)
    requires NoDup(a) && NoDup(b) && Apart(a, b)
    ensures NoDup(a + b)
  {
    forall i, j | 0 <= i < j < |a + b| ensures (a + b)[i] != (a + b)[j] {
      if i < |a| <= j {
        assert a[i] in a && b[j - |a|] in b;
      }
    }
  }

  lemma NodeAt<T>(c: seq<seq<T>>, i: nat, k: nat)
    requires i < |c| && k < |c[i]|
    ensures |Flat(c[..i])| + k < |Flat(c)| && Flat(c)[|Flat(c[..i])| + k] == c[i][k]
  {
    FlatAround(c, i);
  }

  lemma ChainHead<V>(b: array<Node?<V>>, c: seq<seq<Node<V>>>, i: nat)
    requires Shaped(b, c) && i < |c|
    ensures b[i] == At(c[i], 0)
  {
    assert ChainOk(b, c, i);
  }
}
