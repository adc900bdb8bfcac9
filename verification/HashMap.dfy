/** map.c: a chained hash map over a power-of-two table of buckets. */
module HashMap {
  import opened Pages
  import opened Powers

  const MAX_BUCKETS: nat := 0x4000_0000   // the largest count that stays positive as an int

  /** A character of a C string: every byte but the terminator. */
  type Char = c: bv8 | c != 0 witness 1

  type Key = seq<Char>

  // ---------- hashing ----------

  /** char is signed on x86_64. */
  function SignExtend(c: Char): bv32 {
    if c < 0x80 then c as bv32 else (c as bv32) | 0xffff_ff00
  }

  function FoldLeft<S, C>(f: (S, C) -> S, h: S, xs: seq<C>): S
    decreases |xs|
  {
    if xs == [] then h else FoldLeft(f, f(h, xs[0]), xs[1..])
  }

  function HashStep(h: bv32, c: Char): bv32 {
    ((h << 5) + h) ^ SignExtend(c)
  }

  function HashFrom(h: bv32, key: Key): bv32 {
    FoldLeft(HashStep, h, key)
  }

  function Hash(key: Key): nat {
    HashFrom(5381, key) as nat
  }

  lemma {:induction false} FoldLeftAppend<S, C>(f: (S, C) -> S, h: S, xs: seq<C>, x: C)
    ensures FoldLeft(f, h, xs + [x]) == f(FoldLeft(f, h, xs), x)
    decreases |xs|
  {
    if xs == [] {
      assert (xs + [x])[1..] == [];
    } else {
      assert (xs + [x])[1..] == xs[1..] + [x];
      FoldLeftAppend(f, f(h, xs[0]), xs[1..], x);
    }
  }

  lemma Times33(h: bv32, s: bv32)
    ensures ((h << 5) + h) ^ s == (33 * h) ^ s
  {
  }

  lemma StepIs33(h: bv32, c: Char)
    ensures HashStep(h, c) == (33 * h) ^ SignExtend(c)
  {
    Times33(h, SignExtend(c));
  }

  lemma StepFrom(h: bv32, c: Char, h': bv32)
    requires h' == (33 * h) ^ SignExtend(c)
    ensures HashStep(h, c) == h'
  {
    StepIs33(h, c);
  }

  lemma SignedChar(c: Char)
    ensures SignExtend(c) == if c < 128 then c as bv32 else 0 - (256 - c as bv32)
  {
  }

  /** The hash begins at 5381; each further character multiplies by 33 and is added without carry,
      as a signed number, in 32 bits. */
  lemma HashOfOneMore(key: Key, c: Char, h: bv32, h': bv32)
    requires Hash(key) == h as nat && h == HashFrom(5381, key) && h' == (33 * h) ^ SignExtend(c)
    ensures Hash([]) == 5381 && Hash(key + [c]) == h' as nat
  {
    StepFrom(h, c, h');
    HashMoved(key, c, h, h');
  }

  lemma HashMoved(key: Key, c: Char, h: bv32, h': bv32)
    requires h == HashFrom(5381, key) && HashStep(h, c) == h'
    ensures Hash([]) == 5381 && Hash(key + [c]) == h' as nat
  {
    FoldLeftAppend(HashStep, 5381, key, c);
  }

  ghost predicate Marked(k: Key) {
    true
  }

  /** h is the hash of k, said so that a proof learns it only of a key that it marks. */
  ghost predicate HashOf(k: Key, h: nat) {
    forall q {:trigger Marked(q)} :: Marked(q) && q == k ==> h == Hash(q)
  }

  lemma HashOfIs(k: Key, h: nat)
    ensures HashOf(k, h) <==> h == Hash(k)
  {
    assert Marked(k);
  }

  /** Two hashes of a key agree. */
  lemma OneHash(k: Key, h: nat, h': nat)
    requires HashOf(k, h) && HashOf(k, h')
    ensures h == h'
  {
    assert Marked(k);
  }

  method MapHash(str: Key) returns (hash: nat)
    ensures hash == Hash(str)
  {
    var h: bv32 := 5381;
    var i := 0;
    while i < |str|
      invariant 0 <= i <= |str|
      invariant HashFrom(h, str[i..]) == HashFrom(5381, str)
    {
      assert str[i..][0] == str[i] && str[i..][1..] == str[i + 1..];
      h := ((h << 5) + h) ^ SignExtend(str[i]);
      i := i + 1;
    }
    hash := h as nat;
  }

  // ---------- the bucket mask ----------

  /** Bitwise AND of two numbers. */
  function And(a: nat, b: nat): (r: nat)
    ensures r <= b
  {
    if a == 0 || b == 0 then 0
    else (if a % 2 == 1 && b % 2 == 1 then 1 else 0) + 2 * And(a / 2, b / 2)
  }

  lemma Halve(h: nat, p: nat)
    requires p > 0
    ensures h % (2 * p) == h % 2 + 2 * (h / 2 % p)
  {
    var q, r := h / 2 / p, h / 2 % p;
    assert h / 2 == q * p + r;
    assert h == (2 * p) * q + (h % 2 + 2 * r) by {
      assert h == 2 * (h / 2) + h % 2;
      assert 2 * (q * p) == (2 * p) * q;
    }
    RemainderIs(h, 2 * p, q, h % 2 + 2 * r);
  }

  lemma RemainderIs(h: nat, n: nat, q: nat, r: nat)
    requires r < n && h == n * q + r
    ensures h % n == r
  {
    var d := q - h / n;
    assert n * q == n * (h / n) + n * d;
    if d >= 1 {
      MultipleAtLeast(n, d);
    } else if d <= -1 {
      MultipleAtLeast(n, -d);
    }
  }

  lemma MultipleAtLeast(n: nat, d: int)
    requires d >= 1
    ensures n * d >= n && n * -d <= 0 - n
  {
  }

  /** Masking with one less than a power of two takes the remainder. */
  lemma {:induction false} MaskIsRemainder(h: nat, k: nat)
    ensures Pow2(k) > 0
    ensures And(h, Pow2(k) - 1) == h % Pow2(k)
  {
    if k > 0 {
      MaskIsRemainder(h / 2, k - 1);
      Halve(h, Pow2(k - 1));
    }
  }

  lemma MaskInRange(h: nat, n: nat)
    requires PowerOfTwo(n)
    ensures n > 0 && And(h, n - 1) == h % n
  {
    var k: nat :| n == Pow2(k);
    MaskIsRemainder(h, k);
  }

  /** The bucket of a hash in a table of n. */
  function Home(hash: nat, n: nat): (r: nat)
    requires n > 0
    ensures r < n
  {
    And(hash, n - 1)
  }

  lemma HomeIsRemainder(hash: nat, n: nat)
    requires PowerOfTwo(n)
    ensures n > 0 && Home(hash, n) == hash % n < n
  {
    MaskInRange(hash, n);
  }

  // ---------- nodes and lists ----------

  /** An address; 0 is NULL. */
  type Ptr = nat

  /** What of a node never changes. */
  datatype Head = Head(hash: nat, key: Key)

  /** The heads of the nodes in memory, and their next fields. */
  type Heads = map<Ptr, Head>
  type Nexts = map<Ptr, Ptr>

  /** The node at place i of a list, or the null that ends it. */
  function PtrAt(s: seq<Ptr>, i: nat): Ptr {
    if i < |s| then s[i] else 0
  }

  /** The nodes of s from place i on are linked in this order. */
  ghost predicate LinkedFrom(next: Nexts, s: seq<Ptr>, i: nat) {
    && (forall p :: i <= p < |s| ==> s[p] in next && s[p] != 0)
    && (forall p {:trigger next[s[p]]} :: i <= p < |s| ==> next[s[p]] == PtrAt(s, p + 1))
  }

  /** The list that starts at first is s. */
  ghost predicate Links(next: Nexts, first: Ptr, s: seq<Ptr>) {
    first == PtrAt(s, 0) && LinkedFrom(next, s, 0)
  }

  ghost predicate Distinct(s: seq<Ptr>) {
    forall i, j :: 0 <= i < j < |s| ==> s[i] != s[j]
  }

  lemma Prepended(next: Nexts, x: Ptr, s: seq<Ptr>)
    requires LinkedFrom(next, s, 0) && x !in s && x != 0
    ensures Links(next[x := PtrAt(s, 0)], x, [x] + s)
  {
  }

  // ---------- buckets and chains ----------

  /** The chain of each bucket. */
  type Chains = seq<seq<Ptr>>

  /** The node of each key, and its bucket. */
  type Index = map<Key, Ptr>
  type Places = map<Key, nat>

  /** The first i buckets hold the chains that are claimed for them. */
  ghost predicate LinkedBelow(next: Nexts, buckets: seq<Ptr>, chains: Chains, i: nat)
    requires i <= |buckets| == |chains|
  {
    forall j :: 0 <= j < i ==> Links(next, buckets[j], chains[j])
  }

  ghost predicate InNoChain(chains: Chains, i: nat, x: Ptr)
    requires i <= |chains|
  {
    forall j :: 0 <= j < i ==> x !in chains[j]
  }

  /** A write to the next field of a node matters only to the lists with that node. */
  lemma RelinkedList(next: Nexts, first: Ptr, s: seq<Ptr>, x: Ptr, y: Ptr)
    requires Links(next, first, s) && x !in s
    ensures Links(next[x := y], first, s)
  {
  }

  lemma Relinked(next: Nexts, buckets: seq<Ptr>, chains: Chains, i: nat, x: Ptr, y: Ptr)
    requires i <= |buckets| == |chains| && LinkedBelow(next, buckets, chains, i) && InNoChain(chains, i, x)
    ensures LinkedBelow(next[x := y], buckets, chains, i)
  {
  }

  lemma AddLinked(next: Nexts, buckets: seq<Ptr>, chains: Chains, n: nat, x: Ptr)
    requires |buckets| == |chains| && n < |buckets| && x != 0
    requires LinkedBelow(next, buckets, chains, |buckets|) && InNoChain(chains, |chains|, x)
    ensures LinkedBelow(next[x := buckets[n]], buckets[n := x], chains[n := [x] + chains[n]], |buckets|)
  {
  }

  /** Taking node i out of list s by a write to the field that points at it. */
  lemma Unlinked(next: Nexts, first: Ptr, s: seq<Ptr>, i: nat)
    requires Links(next, first, s) && Distinct(s) && i < |s|
    ensures var s' := s[..i] + s[i + 1..];
      if i == 0 then Links(next, next[s[0]], s')
      else Links(next[s[i - 1] := next[s[i]]], first, s')
  {
    var s' := s[..i] + s[i + 1..];
    var next' := if i == 0 then next else next[s[i - 1] := next[s[i]]];
    assert s[i] in next && next[s[i]] == PtrAt(s, i + 1) == PtrAt(s', i);
    forall p | 0 <= p < |s'|
      ensures s'[p] in next' && s'[p] != 0 && next'[s'[p]] == PtrAt(s', p + 1)
    {
      var q := if p < i then p else p + 1;
      assert s'[p] == s[q] && next[s[q]] == PtrAt(s, q + 1);
      if i > 0 && p != i - 1 { assert if q < i - 1 then s[q] != s[i - 1] else s[i - 1] != s[q]; }
    }
  }

  /** x is the node of its key. */
  ghost predicate Indexed(heads: Heads, nodes: Index, x: Ptr) {
    x in heads && heads[x].key in nodes && nodes[heads[x].key] == x && x != 0
  }

  /** No node in memory has the key of another that the map knows. */
  ghost predicate OnePerKey(heads: Heads, nodes: Index) {
    forall x :: OneForKey(heads, nodes, x)
  }

  ghost predicate OneForKey(heads: Heads, nodes: Index, x: Ptr) {
    x in heads && heads[x].key in nodes ==> Indexed(heads, nodes, x)
  }

  ghost predicate ChainOk(s: seq<Ptr>, heads: Heads, nodes: Index, place: Places, j: nat) {
    && Distinct(s)
    && forall x :: x in s ==> Indexed(heads, nodes, x) && heads[x].key in place && place[heads[x].key] == j
  }

  ghost predicate Present(chains: Chains, heads: Heads, nodes: Index, place: Places, k: Key) {
    k in nodes ==>
      && k in place && place[k] < |chains| && nodes[k] in chains[place[k]]
      && KeyedAt(heads, nodes, k)
  }

  ghost predicate KeyedAt(heads: Heads, nodes: Index, k: Key) {
    k in nodes ==> nodes[k] in heads && heads[nodes[k]].key == k
  }

  /** Every node is in the chain of its bucket, once, and nothing else is in a chain. */
  ghost predicate Filed(chains: Chains, heads: Heads, nodes: Index, place: Places) {
    && place.Keys == nodes.Keys
    && (forall j :: 0 <= j < |chains| ==> ChainOk(chains[j], heads, nodes, place, j))
    && (forall k :: Present(chains, heads, nodes, place, k))
  }

  /** The hash in a node is that of its key. */
  ghost predicate Hashed(heads: Heads) {
    forall x :: HashedAt(heads, x)
  }

  ghost predicate HashedAt(heads: Heads, x: Ptr) {
    x in heads ==> HashOf(heads[x].key, heads[x].hash)
  }

  /** The hash of a node decides its bucket. */
  ghost predicate ByHash(heads: Heads, place: Places, n: nat) {
    forall x :: PlacedAt(heads, place, n, x)
  }

  ghost predicate PlacedAt(heads: Heads, place: Places, n: nat, x: Ptr) {
    x in heads && heads[x].key in place ==> n > 0 && place[heads[x].key] == Home(heads[x].hash, n)
  }

  /** A node in the chain of one bucket is in no other. */
  lemma OtherChains(chains: Chains, heads: Heads, nodes: Index, place: Places, i: nat, x: Ptr)
    requires Filed(chains, heads, nodes, place) && i < |chains| && x in chains[i]
    ensures forall j :: 0 <= j < |chains| && j != i ==> x !in chains[j]
  {
  }

  /** The first i nodes of the chain have other keys. */
  ghost predicate NoneBefore(heads: Heads, s: seq<Ptr>, i: nat, k: Key) {
    forall p :: 0 <= p < i && p < |s| ==> s[p] in heads && heads[s[p]].key != k
  }

  /** A node with another key, or with another hash. */
  lemma OtherKey(heads: Heads, x: Ptr, k: Key, h: nat)
    requires Hashed(heads) && x in heads && HashOf(k, h) && !(heads[x].hash == h && heads[x].key == k)
    ensures heads[x].key != k
  {
    assert HashedAt(heads, x);
    if heads[x].key == k { OneHash(k, h, heads[x].hash); }
  }

  lemma NotFiled(chains: Chains, heads: Heads, nodes: Index, place: Places, k: Key, h: nat, n: nat)
    requires Filed(chains, heads, nodes, place) && n < |chains|
    requires ByHash(heads, place, |chains|) && Hashed(heads) && HashOf(k, h) && n == Home(h, |chains|)
    requires NoneBefore(heads, chains[n], |chains[n]|, k)
    ensures k !in nodes
  {
    if k in nodes {
      assert Present(chains, heads, nodes, place, k) && PlacedAt(heads, place, |chains|, nodes[k]);
      assert HashedAt(heads, nodes[k]);
      OneHash(k, h, heads[nodes[k]].hash);
      assert false;
    }
  }

  /** The bucket of a key is its hash modulo the number of buckets. */
  lemma InHashBucket(chains: Chains, heads: Heads, nodes: Index, place: Places, k: Key)
    requires Filed(chains, heads, nodes, place) && PowerOfTwo(|chains|)
    requires ByHash(heads, place, |chains|) && Hashed(heads) && k in nodes
    ensures |chains| > 0 && nodes[k] in chains[Hash(k) % |chains|]
    ensures forall j :: 0 <= j < |chains| && nodes[k] in chains[j] ==> j == Hash(k) % |chains|
  {
    assert Present(chains, heads, nodes, place, k) && PlacedAt(heads, place, |chains|, nodes[k]);
    assert HashedAt(heads, nodes[k]);
    HashOfIs(k, heads[nodes[k]].hash);
    HomeIsRemainder(Hash(k), |chains|);
    OtherChains(chains, heads, nodes, place, place[k], nodes[k]);
  }

  lemma NotYet(chains: Chains, heads: Heads, nodes: Index, place: Places, x: Ptr)
    requires Filed(chains, heads, nodes, place) && (x in heads ==> heads[x].key !in nodes)
    ensures InNoChain(chains, |chains|, x)
  {
  }

  lemma FiledAdd(chains: Chains, heads: Heads, nodes: Index, place: Places, x: Ptr, b: nat)
    requires Filed(chains, heads, nodes, place) && b < |chains|
    requires x != 0 && x in heads && heads[x].key !in nodes
    ensures Filed(chains[b := [x] + chains[b]], heads, nodes[heads[x].key := x], place[heads[x].key := b])
  {
    var key := heads[x].key;
    var chains', nodes', place' := chains[b := [x] + chains[b]], nodes[key := x], place[key := b];
    NotYet(chains, heads, nodes, place, x);
    forall j | 0 <= j < |chains|
      ensures ChainOk(chains'[j], heads, nodes', place', j)
    {
      assert ChainOk(chains[j], heads, nodes, place, j);
      forall y | y in chains'[j]
        ensures Indexed(heads, nodes', y) && heads[y].key in place' && place'[heads[y].key] == j
      {
        if y != x { assert y in chains[j]; }
      }
    }
    forall k
      ensures Present(chains', heads, nodes', place', k)
    {
      assert Present(chains, heads, nodes, place, k);
    }
  }

  lemma ByHashAdd(heads: Heads, nodes: Index, place: Places, n: nat, x: Ptr)
    requires ByHash(heads, place, n) && n > 0 && x in heads
    requires OnePerKey(heads, nodes)
    requires heads[x].key in nodes && place.Keys <= nodes.Keys
    ensures ByHash(heads, place[heads[x].key := Home(heads[x].hash, n)], n)
  {
    var place' := place[heads[x].key := Home(heads[x].hash, n)];
    forall y
      ensures PlacedAt(heads, place', n, y)
    {
      assert OneForKey(heads, nodes, y) && OneForKey(heads, nodes, x) && PlacedAt(heads, place, n, y);
    }
  }

  lemma FiledRemove(chains: Chains, heads: Heads, nodes: Index, place: Places, n: nat, i: nat)
    requires Filed(chains, heads, nodes, place) && n < |chains| && i < |chains[n]|
    ensures var x := chains[n][i];
      x in heads && Filed(chains[n := chains[n][..i] + chains[n][i + 1..]], heads - {x}, nodes - {heads[x].key},
                          place - {heads[x].key})
  {
    var s, x := chains[n], chains[n][i];
    assert ChainOk(s, heads, nodes, place, n) && x in s && Indexed(heads, nodes, x);
    var s', heads', nodes' := s[..i] + s[i + 1..], heads - {x}, nodes - {heads[x].key};
    var chains', place' := chains[n := s'], place - {heads[x].key};
    OtherChains(chains, heads, nodes, place, n, x);
    forall j | 0 <= j < |chains|
      ensures ChainOk(chains'[j], heads', nodes', place', j)
    {
      assert ChainOk(chains[j], heads, nodes, place, j);
      forall y | y in chains'[j]
        ensures Indexed(heads', nodes', y) && heads[y].key in place' && place'[heads[y].key] == j
      {
        assert y in chains[j] && Indexed(heads, nodes, y);
        assert y != x;
      }
    }
    forall k
      ensures Present(chains', heads', nodes', place', k)
    {
      assert Present(chains, heads, nodes, place, k);
      if k in nodes' && place[k] == n {
        var p :| 0 <= p < |s| && s[p] == nodes[k];
        assert s'[if p < i then p else p - 1] == nodes[k];
      }
    }
  }

  // ---------- the list of all nodes ----------

  /** s lists nodes of the map, none twice. */
  ghost predicate Listing(heads: Heads, nodes: Index, s: seq<Ptr>) {
    Distinct(s) && forall x :: x in s ==> Indexed(heads, nodes, x)
  }

  /** Every node of s belongs to bucket i or above. */
  ghost predicate FromBucket(heads: Heads, place: Places, s: seq<Ptr>, i: nat) {
    forall x :: x in s ==> x in heads && heads[x].key in place && place[heads[x].key] >= i
  }

  /** The list before has been extended to now by the first p nodes of s. */
  ghost predicate Threaded(heads: Heads, nodes: Index, s: seq<Ptr>, p: nat, before: seq<Ptr>, now: seq<Ptr>) {
    && Listing(heads, nodes, now)
    && (forall q :: p <= q < |s| ==> s[q] !in now)
    && (forall q :: 0 <= q < p && q < |s| ==> s[q] in now)
    && (forall x :: x in before ==> x in now)
  }

  lemma ThreadedMore(heads: Heads, nodes: Index, s: seq<Ptr>, p: nat, before: seq<Ptr>, now: seq<Ptr>)
    requires Threaded(heads, nodes, s, p, before, now) && p < |s| && Distinct(s) && Indexed(heads, nodes, s[p])
    ensures Threaded(heads, nodes, s, p + 1, before, [s[p]] + now)
  {
  }

  /** Where the threading of bucket i stands: its first p nodes are on the list all, which is
      now, and node comes next. */
  ghost predicate Threading(next: Nexts, heads: Heads, nodes: Index, place: Places, table: seq<Ptr>, chains: Chains,
      i: nat, p: nat, node: Ptr, all: Ptr, before: seq<Ptr>, now: seq<Ptr>)
    requires |table| == |chains| && i < |chains|
  {
    var s := chains[i];
    && p <= |s| && node == PtrAt(s, p) && LinkedFrom(next, s, p)
    && Links(next, all, now) && LinkedBelow(next, table, chains, i)
    && Threaded(heads, nodes, s, p, before, now) && FromBucket(heads, place, now, i)
  }

  lemma ThreadStep(next: Nexts, heads: Heads, nodes: Index, place: Places, table: seq<Ptr>, chains: Chains,
      i: nat, p: nat, node: Ptr, all: Ptr, before: seq<Ptr>, now: seq<Ptr>)
    requires |table| == |chains| && i < |chains| && Filed(chains, heads, nodes, place)
    requires Threading(next, heads, nodes, place, table, chains, i, p, node, all, before, now) && node != 0
    ensures node in next
    ensures Threading(next[node := all], heads, nodes, place, table, chains, i, p + 1, next[node], node, before,
                      [node] + now)
  {
    var s := chains[i];
    assert ChainOk(s, heads, nodes, place, i) && s[p] in s && Indexed(heads, nodes, node);
    OtherChains(chains, heads, nodes, place, i, node);
    BehindUntouched(next, s, p, all);
    Relinked(next, table, chains, i, node, all);
    Prepended(next, node, now);
    ThreadedMore(heads, nodes, s, p, before, now);
    assert next[s[p]] == PtrAt(s, p + 1);
  }

  ghost predicate AllIn(s: seq<Ptr>, t: seq<Ptr>) {
    forall x :: x in s ==> x in t
  }

  /** The nodes of bucket i and above have been listed. */
  ghost predicate Gathered(chains: Chains, i: nat, done: seq<Ptr>) {
    forall j :: i <= j < |chains| ==> AllIn(chains[j], done)
  }

  lemma GatheredMore(chains: Chains, i: nat, before: seq<Ptr>, now: seq<Ptr>)
    requires i < |chains| && Gathered(chains, i + 1, before) && AllIn(before, now) && AllIn(chains[i], now)
    ensures Gathered(chains, i, now)
  {
  }

  ghost predicate Covers(nodes: Index, done: seq<Ptr>) {
    forall k :: k in nodes ==> nodes[k] in done
  }

  lemma GatheredAll(chains: Chains, heads: Heads, nodes: Index, place: Places, done: seq<Ptr>)
    requires Filed(chains, heads, nodes, place) && Gathered(chains, 0, done)
    ensures Covers(nodes, done)
  {
    forall k | k in nodes
      ensures nodes[k] in done
    {
      assert Present(chains, heads, nodes, place, k) && AllIn(chains[place[k]], done);
    }
  }

  ghost predicate FiledAt(heads: Heads, done: seq<Ptr>, p: nat, some: Index, q: nat) {
    q < |done| ==> done[q] in heads && (heads[done[q]].key in some <==> q < p)
  }

  ghost predicate TakenFrom(nodes: Index, some: Index, k: Key) {
    k in some ==> k in nodes && some[k] == nodes[k]
  }

  /** Of the listed nodes, the first p have been filed. */
  ghost predicate Refiled(heads: Heads, nodes: Index, done: seq<Ptr>, p: nat, some: Index) {
    && (forall k :: TakenFrom(nodes, some, k))
    && (forall q: nat :: FiledAt(heads, done, p, some, q))
  }

  lemma RefiledMore(heads: Heads, nodes: Index, done: seq<Ptr>, p: nat, some: Index)
    requires Listing(heads, nodes, done) && p < |done| && Refiled(heads, nodes, done, p, some)
    ensures done[p] in heads && heads[done[p]].key !in some && some.Keys <= nodes.Keys
    ensures Refiled(heads, nodes, done, p + 1, some[heads[done[p]].key := done[p]])
  {
    assert done[p] in done && Indexed(heads, nodes, done[p]);
    var key := heads[done[p]].key;
    var some', p' := some[key := done[p]], p + 1;
    assert FiledAt(heads, done, p, some, p);
    forall k | k in some
      ensures k in nodes
    {
      assert TakenFrom(nodes, some, k);
    }
    forall q: nat
      ensures FiledAt(heads, done, p', some', q)
    {
      assert FiledAt(heads, done, p, some, q);
      if q < |done| && heads[done[q]].key == key {
        assert done[q] in done && Indexed(heads, nodes, done[q]);
      }
    }
    forall k
      ensures TakenFrom(nodes, some', k)
    {
      assert TakenFrom(nodes, some, k);
    }
  }

  lemma NoneRefiled(heads: Heads, nodes: Index, done: seq<Ptr>)
    requires Listing(heads, nodes, done)
    ensures Refiled(heads, nodes, done, 0, map[])
  {
    forall q: nat
      ensures FiledAt(heads, done, 0, map[], q)
    {
      if q < |done| { assert done[q] in done; }
    }
  }

  ghost predicate KeyedIn(heads: Heads, nodes: Index) {
    forall k :: KeyedAt(heads, nodes, k)
  }

  lemma FiledKeyed(chains: Chains, heads: Heads, nodes: Index, place: Places)
    requires Filed(chains, heads, nodes, place)
    ensures KeyedIn(heads, nodes)
  {
    forall k
      ensures KeyedAt(heads, nodes, k)
    {
      assert Present(chains, heads, nodes, place, k);
    }
  }

  /** A write to the next field of node p does not break the list behind it. */
  lemma BehindUntouched(next: Nexts, s: seq<Ptr>, p: nat, y: Ptr)
    requires p < |s| && LinkedFrom(next, s, p) && Distinct(s)
    ensures LinkedFrom(next[s[p] := y], s, p + 1)
  {
  }

  lemma AllRefiled(heads: Heads, nodes: Index, done: seq<Ptr>, some: Index)
    requires Listing(heads, nodes, done) && Covers(nodes, done) && Refiled(heads, nodes, done, |done|, some)
    requires KeyedIn(heads, nodes)
    ensures some == nodes
  {
    forall k | k in nodes
      ensures k in some
    {
      assert KeyedAt(heads, nodes, k);
      var q :| 0 <= q < |done| && done[q] == nodes[k];
      assert FiledAt(heads, done, |done|, some, q) && heads[done[q]].key == k;
    }
    forall k | k in some
      ensures k in nodes && some[k] == nodes[k]
    {
      assert TakenFrom(nodes, some, k);
    }
  }

  /** A pointer to a pointer to a node: a bucket, or the next field of a node. */
  datatype Ref = NoRef | Bucket(n: nat) | NextOf(prev: Ptr)

  // ---------- the shape of a map ----------

  datatype Shape = Shape(buckets: seq<Ptr>, heads: Heads, next: Nexts,
                         ghost chains: Chains, ghost nodes: Index, ghost place: Places)

  /** The buckets lead to the nodes they should lead to. */
  ghost predicate SoundShape(s: Shape) {
    && |s.buckets| == |s.chains|
    && s.heads.Keys == s.next.Keys && Hashed(s.heads) && OnePerKey(s.heads, s.nodes)
    && Filed(s.chains, s.heads, s.nodes, s.place) && ByHash(s.heads, s.place, |s.buckets|)
    && LinkedBelow(s.next, s.buckets, s.chains, |s.buckets|)
  }

  /** Forgetting nodes, and keeping the heads of the others. */
  lemma FewerHeads(heads: Heads, heads': Heads, nodes: Index, nodes': Index, place: Places, place': Places, n: nat)
    requires Hashed(heads) && OnePerKey(heads, nodes) && ByHash(heads, place, n)
    requires forall x :: x in heads' ==> x in heads && heads'[x] == heads[x]
    requires forall k :: k in nodes' ==> k in nodes && nodes'[k] == nodes[k]
    requires forall k :: k in place' ==> k in place && place'[k] == place[k]
    ensures Hashed(heads') && OnePerKey(heads', nodes') && ByHash(heads', place', n)
  {
    forall x
      ensures HashedAt(heads', x) && OneForKey(heads', nodes', x) && PlacedAt(heads', place', n, x)
    {
      assert HashedAt(heads, x) && OneForKey(heads, nodes, x) && PlacedAt(heads, place, n, x);
    }
  }

  /** The shape with a node in memory that the map does not know yet. */
  ghost function WithNode(s: Shape, at: Ptr, h: nat, key: Key): Shape {
    s.(heads := s.heads[at := Head(h, key)], next := s.next[at := 0])
  }

  lemma WithNodeSound(s: Shape, at: Ptr, h: nat, key: Key)
    requires SoundShape(s) && at !in s.heads && key !in s.nodes && HashOf(key, h)
    ensures SoundShape(WithNode(s, at, h, key))
  {
    var s' := WithNode(s, at, h, key);
    forall j | 0 <= j < |s.chains|
      ensures ChainOk(s.chains[j], s'.heads, s.nodes, s.place, j)
    {
      assert ChainOk(s.chains[j], s.heads, s.nodes, s.place, j);
      forall x | x in s.chains[j]
        ensures Indexed(s'.heads, s.nodes, x) && s'.heads[x].key in s.place && s.place[s'.heads[x].key] == j
      {
        assert Indexed(s.heads, s.nodes, x);
      }
    }
    forall k
      ensures Present(s.chains, s'.heads, s.nodes, s.place, k)
    {
      assert Present(s.chains, s.heads, s.nodes, s.place, k);
    }
    NotYet(s.chains, s.heads, s.nodes, s.place, at);
    Relinked(s.next, s.buckets, s.chains, |s.buckets|, at, 0);
    forall x
      ensures HashedAt(s'.heads, x) && OneForKey(s'.heads, s.nodes, x) && PlacedAt(s'.heads, s.place, |s.buckets|, x)
    {
      assert HashedAt(s.heads, x) && OneForKey(s.heads, s.nodes, x) && PlacedAt(s.heads, s.place, |s.buckets|, x);
    }
  }

  ghost function WithoutNode(s: Shape, at: Ptr): Shape {
    s.(heads := s.heads - {at}, next := s.next - {at})
  }

  lemma WithoutNodeSound(s: Shape, at: Ptr)
    requires SoundShape(s) && at in s.heads && s.heads[at].key !in s.nodes
    ensures SoundShape(WithoutNode(s, at))
  {
    var s' := WithoutNode(s, at);
    NotYet(s.chains, s.heads, s.nodes, s.place, at);
    forall j | 0 <= j < |s.chains|
      ensures ChainOk(s.chains[j], s'.heads, s.nodes, s.place, j)
    {
      assert ChainOk(s.chains[j], s.heads, s.nodes, s.place, j);
      forall x | x in s.chains[j]
        ensures Indexed(s'.heads, s.nodes, x)
      {
        assert Indexed(s.heads, s.nodes, x);
      }
    }
    forall k
      ensures Present(s.chains, s'.heads, s.nodes, s.place, k)
    {
      assert Present(s.chains, s.heads, s.nodes, s.place, k);
    }
    Unread(s.next, s.buckets, s.chains, at);
    FewerHeads(s.heads, s'.heads, s.nodes, s.nodes, s.place, s.place, |s.buckets|);
  }

  /** Freeing a node that is in no list. */
  lemma Unread(next: Nexts, buckets: seq<Ptr>, chains: Chains, x: Ptr)
    requires |buckets| == |chains| && LinkedBelow(next, buckets, chains, |buckets|) && InNoChain(chains, |chains|, x)
    ensures LinkedBelow(next - {x}, buckets, chains, |buckets|)
  {
  }

  /** The write through a reference to a node that takes node i out of the chain of bucket n. */
  ghost function Bypassed(s: Shape, n: nat, i: nat): Shape
    requires n < |s.chains| == |s.buckets| && i < |s.chains[n]| && s.chains[n][i] in s.next
  {
    var c := s.chains[n];
    if i == 0 then s.(buckets := s.buckets[n := s.next[c[0]]])
    else s.(next := s.next[c[i - 1] := s.next[c[i]]])
  }

  /** The shape without the key of that node, which is freed. */
  ghost function Dropped(s: Shape, n: nat, i: nat): Shape
    requires n < |s.chains| == |s.buckets| && i < |s.chains[n]| && s.chains[n][i] in s.next && s.chains[n][i] in s.heads
  {
    var c, t := s.chains[n], Bypassed(s, n, i);
    var x, key := c[i], s.heads[c[i]].key;
    Shape(t.buckets, s.heads - {x}, t.next - {x}, s.chains[n := c[..i] + c[i + 1..]], s.nodes - {key}, s.place - {key})
  }

  lemma DroppedSound(s: Shape, n: nat, i: nat)
    requires SoundShape(s) && n < |s.chains| && i < |s.chains[n]|
    ensures s.chains[n][i] in s.next && s.chains[n][i] in s.heads && SoundShape(Dropped(s, n, i))
  {
    FiledRemove(s.chains, s.heads, s.nodes, s.place, n, i);
    DroppedLinked(s, n, i);
    var t := Dropped(s, n, i);
    FewerHeads(s.heads, t.heads, s.nodes, t.nodes, s.place, t.place, |s.buckets|);
  }

  lemma DroppedLinked(s: Shape, n: nat, i: nat)
    requires SoundShape(s) && n < |s.chains| && i < |s.chains[n]| && s.chains[n][i] in s.heads
    ensures LinkedBelow(Dropped(s, n, i).next, Dropped(s, n, i).buckets, Dropped(s, n, i).chains, |s.buckets|)
  {
    var c, t := s.chains[n], Dropped(s, n, i);
    var x, b := c[i], Bypassed(s, n, i);
    assert Links(s.next, s.buckets[n], c) && ChainOk(c, s.heads, s.nodes, s.place, n);
    Unlinked(s.next, s.buckets[n], c, i);
    forall j | 0 <= j < |s.buckets|
      ensures Links(b.next, b.buckets[j], t.chains[j]) && x !in t.chains[j]
    {
      if j != n {
        assert Links(s.next, s.buckets[j], s.chains[j]);
        OtherChains(s.chains, s.heads, s.nodes, s.place, n, x);
        if i > 0 {
          assert c[i - 1] in c;
          OtherChains(s.chains, s.heads, s.nodes, s.place, n, c[i - 1]);
          RelinkedList(s.next, s.buckets[j], s.chains[j], c[i - 1], s.next[x]);
        }
      }
    }
    Unread(b.next, b.buckets, t.chains, x);
  }

  /** A table of empty buckets. */
  function EmptyBuckets(n: nat): (b: seq<Ptr>)
    ensures |b| == n
  {
    seq(n, _ => 0)
  }

  ghost function EmptyChains(n: nat): (c: Chains)
    ensures |c| == n
  {
    seq(n, _ => [])
  }

  lemma NothingFiled(heads: Heads, nodes: Index, next: Nexts, n: nat)
    ensures Filed(EmptyChains(n), heads, map[], map[]) && ByHash(heads, map[], n)
    ensures LinkedBelow(next, EmptyBuckets(n), EmptyChains(n), n)
  {
  }

  // ---------- the order of iteration ----------

  /** The nodes of the first n buckets, in the order in which they are visited. */
  ghost function Order(chains: Chains, n: nat): (s: seq<Ptr>)
    requires n <= |chains|
  {
    if n == 0 then [] else Order(chains, n - 1) + chains[n - 1]
  }

  /** A bucket leads to the first node of its chain; an empty one adds nothing to the order. */
  lemma FirstOfBucket(next: Nexts, buckets: seq<Ptr>, chains: Chains, c: nat)
    requires c < |buckets| == |chains| && LinkedBelow(next, buckets, chains, |buckets|)
    ensures buckets[c] == 0 ==> |Order(chains, c + 1)| == |Order(chains, c)|
    ensures buckets[c] != 0 ==> chains[c] != [] && chains[c][0] == buckets[c]
  {
    assert Links(next, buckets[c], chains[c]);
  }

  lemma {:induction false} OrderAt(chains: Chains, b: nat, i: nat, n: nat)
    requires b < n <= |chains| && i < |chains[b]|
    ensures |Order(chains, b)| + i < |Order(chains, n)| && Order(chains, n)[|Order(chains, b)| + i] == chains[b][i]
  {
    if b < n - 1 { OrderAt(chains, b, i, n - 1); }
  }

  lemma {:induction false} OrderHas(chains: Chains, n: nat, x: Ptr)
    requires n <= |chains|
    ensures x in Order(chains, n) <==> exists j :: 0 <= j < n && x in chains[j]
  {
    if n > 0 { OrderHas(chains, n - 1, x); }
  }

  lemma {:induction false} OrderDistinct(chains: Chains, heads: Heads, nodes: Index, place: Places, n: nat)
    requires Filed(chains, heads, nodes, place) && n <= |chains|
    ensures Distinct(Order(chains, n))
  {
    if n > 0 {
      OrderDistinct(chains, heads, nodes, place, n - 1);
      var s, c := Order(chains, n - 1), chains[n - 1];
      assert ChainOk(c, heads, nodes, place, n - 1);
      forall i, j | 0 <= i < |s| && 0 <= j < |c|
        ensures s[i] != c[j]
      {
        OrderHas(chains, n - 1, s[i]);
        if s[i] == c[j] { OtherChains(chains, heads, nodes, place, n - 1, c[j]); }
      }
    }
  }

  ghost function KeysOf(heads: Heads, s: seq<Ptr>): (keys: seq<Key>)
    requires forall i :: 0 <= i < |s| ==> s[i] in heads
  {
    seq(|s|, i requires 0 <= i < |s| => heads[s[i]].key)
  }

  /** The keys that an iteration visits are the keys of the map, each once. */
  lemma EachKeyOnce(chains: Chains, heads: Heads, nodes: Index, place: Places)
    requires Filed(chains, heads, nodes, place)
    ensures var s := Order(chains, |chains|);
      && (forall i :: 0 <= i < |s| ==> s[i] in heads)
      && (forall i, j :: 0 <= i < j < |s| ==> KeysOf(heads, s)[i] != KeysOf(heads, s)[j])
      && (forall k :: k in nodes <==> k in KeysOf(heads, s))
  {
    var s := Order(chains, |chains|);
    OrderDistinct(chains, heads, nodes, place, |chains|);
    forall i | 0 <= i < |s|
      ensures Indexed(heads, nodes, s[i])
    {
      OrderHas(chains, |chains|, s[i]);
      assert s[i] in s;
      var j :| 0 <= j < |chains| && s[i] in chains[j];
      assert ChainOk(chains[j], heads, nodes, place, j);
    }
    forall i, j | 0 <= i < j < |s|
      ensures KeysOf(heads, s)[i] != KeysOf(heads, s)[j]
    {
      assert Indexed(heads, nodes, s[i]) && Indexed(heads, nodes, s[j]);
    }
    forall k
      ensures k in nodes <==> k in KeysOf(heads, s)
    {
      assert Present(chains, heads, nodes, place, k);
      if k in nodes {
        OrderHas(chains, |chains|, nodes[k]);
        var i :| 0 <= i < |s| && s[i] == nodes[k];
        assert KeysOf(heads, s)[i] == k;
      }
      if k in KeysOf(heads, s) {
        var i :| 0 <= i < |s| && KeysOf(heads, s)[i] == k;
        assert Indexed(heads, nodes, s[i]);
      }
    }
  }

  // ---------- the dictionary ----------

  ghost predicate AllKnown(heads: Heads, nodes: Index) {
    forall x :: KnownAt(heads, nodes, x)
  }

  ghost predicate KnownAt(heads: Heads, nodes: Index, x: Ptr) {
    x in heads ==> heads[x].key in nodes
  }

  /** The nodes hold the values of the dictionary. */
  ghost predicate Holds<V>(value: map<Ptr, V>, nodes: Index, dict: map<Key, V>) {
    nodes.Keys == dict.Keys && forall k :: HoldsAt(value, nodes, dict, k)
  }

  /** The nodes hold the dictionary, and the memory holds nothing else. */
  ghost predicate Agree<V>(heads: Heads, value: map<Ptr, V>, nodes: Index, dict: map<Key, V>) {
    heads.Keys == value.Keys && KeyedIn(heads, nodes) && AllKnown(heads, nodes) && Holds(value, nodes, dict)
  }

  lemma AgreeAdd<V>(heads: Heads, value: map<Ptr, V>, nodes: Index, dict: map<Key, V>, at: Ptr, h: nat, k: Key, v: V)
    requires Agree(heads, value, nodes, dict) && at !in heads && k !in nodes
    ensures Agree(heads[at := Head(h, k)], value[at := v], nodes[k := at], dict[k := v])
  {
    var heads', value', nodes', dict' := heads[at := Head(h, k)], value[at := v], nodes[k := at], dict[k := v];
    forall q
      ensures KeyedAt(heads', nodes', q) && HoldsAt(value', nodes', dict', q)
    {
      assert KeyedAt(heads, nodes, q) && HoldsAt(value, nodes, dict, q);
    }
    forall x
      ensures KnownAt(heads', nodes', x)
    {
      assert KnownAt(heads, nodes, x);
    }
  }

  lemma AgreeReplace<V>(heads: Heads, value: map<Ptr, V>, nodes: Index, dict: map<Key, V>, k: Key, v: V)
    requires Agree(heads, value, nodes, dict) && k in nodes
    ensures Agree(heads, value[nodes[k] := v], nodes, dict[k := v])
  {
    assert KeyedAt(heads, nodes, k);
    var value', dict' := value[nodes[k] := v], dict[k := v];
    forall q
      ensures HoldsAt(value', nodes, dict', q)
    {
      assert KeyedAt(heads, nodes, q) && HoldsAt(value, nodes, dict, q);
    }
  }

  lemma AgreeDrop<V>(heads: Heads, value: map<Ptr, V>, nodes: Index, dict: map<Key, V>, k: Key)
    requires Agree(heads, value, nodes, dict) && OnePerKey(heads, nodes) && k in nodes
    ensures Agree(heads - {nodes[k]}, value - {nodes[k]}, nodes - {k}, dict - {k})
  {
    var heads', value', nodes', dict' := heads - {nodes[k]}, value - {nodes[k]}, nodes - {k}, dict - {k};
    assert KeyedAt(heads, nodes, k);
    forall q
      ensures KeyedAt(heads', nodes', q) && HoldsAt(value', nodes', dict', q)
    {
      assert KeyedAt(heads, nodes, q) && HoldsAt(value, nodes, dict, q);
    }
    forall x
      ensures KnownAt(heads', nodes', x)
    {
      assert KnownAt(heads, nodes, x) && OneForKey(heads, nodes, x);
    }
  }

  lemma NewKeyOnce(heads: Heads, nodes: Index, at: Ptr, h: nat, k: Key)
    requires AllKnown(heads, nodes) && OnePerKey(heads, nodes) && at !in heads && at != 0 && k !in nodes
    ensures OnePerKey(heads[at := Head(h, k)], nodes[k := at])
  {
    var heads', nodes' := heads[at := Head(h, k)], nodes[k := at];
    forall x
      ensures OneForKey(heads', nodes', x)
    {
      assert OneForKey(heads, nodes, x) && KnownAt(heads, nodes, x);
    }
  }

  ghost predicate HoldsAt<V>(value: map<Ptr, V>, nodes: Index, dict: map<Key, V>, k: Key)
    requires nodes.Keys == dict.Keys
  {
    k in nodes ==> nodes[k] in value && value[nodes[k]] == dict[k]
  }

  class Iter {
    var bucketidx: nat
    var node: Ptr

    constructor ()
      ensures bucketidx == TWO_32 - 1 && node == 0
    {
      bucketidx, node := TWO_32 - 1, 0;
    }
  }

  // ---------- the map ----------

  class Map<V> {
    var buckets: seq<Ptr>           // NULL is []
    var nbuckets: nat
    var nnodes: nat
    var heads: Heads                // the memory of the nodes, one map a field
    var next: Nexts
    var value: map<Ptr, V>
    ghost var chains: Chains
    ghost var nodes: Index
    ghost var place: Places
    ghost var dict: map<Key, V>     // what the map maps to what

    ghost predicate TableOk()
      reads this`buckets, this`nbuckets, this`chains
    {
      && |buckets| == |chains| == nbuckets <= MAX_BUCKETS
      && (nbuckets > 0 ==> PowerOfTwo(nbuckets))
    }

    ghost function Now(): Shape
      reads this`buckets, this`heads, this`next, this`chains, this`nodes, this`place
    {
      Shape(buckets, heads, next, chains, nodes, place)
    }

    ghost predicate Sound()
      reads this`buckets, this`nbuckets, this`heads, this`next, this`chains, this`nodes, this`place
    {
      TableOk() && SoundShape(Now())
    }

    ghost predicate Agrees()
      reads this`heads, this`value, this`nodes, this`dict
    {
      Agree(heads, value, nodes, dict)
    }

    ghost predicate Valid()
      reads this
    {
      Sound() && Agrees() && nnodes == |dict| <= nbuckets
    }

    function BucketIdx(hash: nat): (n: nat)
      requires TableOk() && nbuckets > 0
      reads this
      ensures n == Home(hash, nbuckets) && n < nbuckets
    {
      And(hash, nbuckets - 1)
    }

    // ---------- lookup ----------

    /** r points at place i of the chain s of bucket n. */
    ghost predicate PointsAt(r: Ref, n: nat, s: seq<Ptr>, i: nat)
      requires i <= |s|
    {
      if i == 0 then r == Bucket(n) else r == NextOf(s[i - 1])
    }

    ghost predicate Readable(r: Ref)
      reads this`buckets, this`next
    {
      match r
      case NoRef => false
      case Bucket(n) => n < |buckets|
      case NextOf(prev) => prev in next
    }

    /** Reading through a pointer to a pointer. */
    function Deref(r: Ref): Ptr
      requires Readable(r)
      reads this`buckets, this`next
    {
      match r
      case Bucket(n) => buckets[n]
      case NextOf(prev) => next[prev]
    }

    /** r refers to node i of the chain of bucket n. */
    ghost predicate RefersTo(r: Ref, n: nat, i: nat)
      reads this`buckets, this`next, this`chains
    {
      && n < |chains| && i < |chains[n]| && PointsAt(r, n, chains[n], i)
      && Readable(r) && Deref(r) == chains[n][i]
    }

    /** Walks the chain of a bucket to the node with the key. */
    method FindIn(n: nat, key: Key, hash: nat) returns (r: Ref, ghost i: nat)
      requires n < |buckets| && n < |chains| && Links(next, buckets[n], chains[n])
      requires forall x :: x in chains[n] ==> x in heads
      requires Hashed(heads) && HashOf(key, hash)
      ensures r == NoRef ==> NoneBefore(heads, chains[n], |chains[n]|, key)
      ensures r != NoRef ==> RefersTo(r, n, i) && chains[n][i] in heads && heads[chains[n][i]].key == key
    {
      ghost var s := chains[n];
      i := 0;
      r := Bucket(n);
      while Deref(r) != 0
        invariant i <= |s| && PointsAt(r, n, s, i) && Readable(r) && Deref(r) == PtrAt(s, i)
        invariant NoneBefore(heads, s, i, key)
        decreases |s| - i
      {
        var node := Deref(r);
        assert s[i] in s;
        if heads[node].hash == hash && heads[node].key == key {
          return;
        }
        OtherKey(heads, node, key, hash);
        r := NextOf(node);
        i := i + 1;
      }
      r := NoRef;
    }

    /** The reference to the node of a key, and its place in the chain. */
    method GetRef(key: Key) returns (r: Ref, ghost i: nat)
      requires Valid()
      ensures r == NoRef <==> key !in nodes
      ensures key in nodes ==> key in place && RefersTo(r, place[key], i) && chains[place[key]][i] == nodes[key]
    {
      var hash := MapHash(key);
      r, i := NoRef, 0;
      if nbuckets > 0 {
        var n := BucketIdx(hash);
        ghost var s := chains[n];
        assert ChainOk(s, heads, nodes, place, n) && Links(next, buckets[n], s);
        r, i := FindIn(n, key, hash);
        if r == NoRef {
          NotFiled(chains, heads, nodes, place, key, hash, n);
        } else {
          assert s[i] in s && Indexed(heads, nodes, s[i]);
        }
      }
    }

    method Get(key: Key) returns (r: Option<V>)
      requires Valid()
      ensures r == if key in dict then Some(dict[key]) else None
    {
      var ref, i := GetRef(key);
      assert HoldsAt(value, nodes, dict, key);
      r := if ref == NoRef then None else Some(value[Deref(ref)]);
    }

    // ---------- insertion ----------

    method AddNode(node: Ptr) returns (ghost b: nat)
      requires TableOk() && nbuckets > 0 && node != 0 && node in heads
      requires LinkedBelow(next, buckets, chains, nbuckets) && InNoChain(chains, nbuckets, node)
      modifies this`chains, this`next, this`buckets
      ensures TableOk() && b == Home(heads[node].hash, nbuckets)
      ensures chains == old(chains)[b := [node] + old(chains)[b]]
      ensures LinkedBelow(next, buckets, chains, nbuckets)
      ensures next == old(next)[node := old(buckets)[b]]
    {
      var n := BucketIdx(heads[node].hash);
      b := n;
      AddLinked(next, buckets, chains, n, node);
      next := next[node := buckets[n]];
      buckets := buckets[n := node];
      chains := chains[n := [node] + chains[n]];
    }

    // ---------- growing ----------

    /** Moves the nodes of bucket i to the front of the list all. */
    method ThreadBucket(i: nat, all: Ptr, ghost done: seq<Ptr>) returns (all': Ptr, ghost done': seq<Ptr>)
      requires TableOk() && i < nbuckets && Filed(chains, heads, nodes, place)
      requires LinkedBelow(next, buckets, chains, i + 1)
      requires Links(next, all, done) && Listing(heads, nodes, done) && FromBucket(heads, place, done, i + 1)
      modifies this`next
      ensures next.Keys == old(next.Keys) && LinkedBelow(next, buckets, chains, i)
      ensures Links(next, all', done') && Listing(heads, nodes, done') && FromBucket(heads, place, done', i)
      ensures AllIn(done, done') && AllIn(chains[i], done')
    {
      ghost var s := chains[i];
      assert Links(next, buckets[i], s) && ChainOk(s, heads, nodes, place, i);
      all', done' := all, done;
      var node := buckets[i];
      ghost var p := 0;
      while node != 0
        invariant next.Keys == old(next.Keys)
        invariant Threading(next, heads, nodes, place, buckets, chains, i, p, node, all', done, done')
        decreases |s| - p
      {
        ThreadStep(next, heads, nodes, place, buckets, chains, i, p, node, all', done, done');
        var following := next[node];
        next := next[node := all'];
        all', done' := node, [node] + done';
        node := following;
        p := p + 1;
      }
    }

    /** Chains all nodes of the map together. */
    method Thread() returns (all: Ptr, ghost done: seq<Ptr>)
      requires TableOk() && Filed(chains, heads, nodes, place) && LinkedBelow(next, buckets, chains, nbuckets)
      modifies this`next
      ensures next.Keys == old(next.Keys)
      ensures Links(next, all, done) && Listing(heads, nodes, done) && Covers(nodes, done)
    {
      all, done := 0, [];
      var i := nbuckets;
      while i > 0
        invariant 0 <= i <= nbuckets && next.Keys == old(next.Keys)
        invariant LinkedBelow(next, buckets, chains, i)
        invariant Links(next, all, done) && Listing(heads, nodes, done) && FromBucket(heads, place, done, i)
        invariant Gathered(chains, i, done)
      {
        i := i - 1;
        ghost var before := done;
        all, done := ThreadBucket(i, all, before);
        GatheredMore(chains, i, before, done);
      }
      GatheredAll(chains, heads, nodes, place, done);
    }

    /** Puts listed node p back into a bucket. */
    method RefileNode(node: Ptr, ghost done: seq<Ptr>, ghost p: nat, ghost some: Index) returns (ghost some': Index)
      requires TableOk() && nbuckets > 0 && LinkedBelow(next, buckets, chains, nbuckets)
      requires Listing(heads, nodes, done) && p < |done| && node == done[p] && LinkedFrom(next, done, p)
      requires Refiled(heads, nodes, done, p, some)
      requires Filed(chains, heads, some, place) && ByHash(heads, place, nbuckets) && OnePerKey(heads, nodes)
      modifies this`next, this`chains, this`place, this`buckets
      ensures TableOk() && LinkedBelow(next, buckets, chains, nbuckets)
      ensures next.Keys == old(next.Keys) && LinkedFrom(next, done, p + 1)
      ensures Refiled(heads, nodes, done, p + 1, some')
      ensures Filed(chains, heads, some', place) && ByHash(heads, place, nbuckets)
    {
      assert done[p] in done && Indexed(heads, nodes, node);
      RefiledMore(heads, nodes, done, p, some);
      NotYet(chains, heads, some, place, node);
      FiledAdd(chains, heads, some, place, node, Home(heads[node].hash, nbuckets));
      ByHashAdd(heads, nodes, place, nbuckets, node);
      BehindUntouched(next, done, p, buckets[Home(heads[node].hash, nbuckets)]);
      ghost var b := AddNode(node);
      some', place := some[heads[node].key := node], place[heads[node].key := b];
    }

    /** Puts the listed nodes back into buckets, all of which are empty. */
    method Refile(all: Ptr, ghost done: seq<Ptr>)
      requires TableOk() && nbuckets > 0 && LinkedBelow(next, buckets, chains, nbuckets)
      requires Filed(chains, heads, map[], place) && ByHash(heads, place, nbuckets) && OnePerKey(heads, nodes)
      requires Links(next, all, done) && Listing(heads, nodes, done) && Covers(nodes, done) && KeyedIn(heads, nodes)
      modifies this`next, this`chains, this`place, this`buckets
      ensures TableOk() && next.Keys == old(next.Keys) && LinkedBelow(next, buckets, chains, nbuckets)
      ensures Filed(chains, heads, nodes, place) && ByHash(heads, place, nbuckets)
    {
      var node := all;
      ghost var p, some: Index := 0, map[];
      NoneRefiled(heads, nodes, done);
      while node != 0
        invariant p <= |done| && node == PtrAt(done, p) && LinkedFrom(next, done, p)
        invariant TableOk() && next.Keys == old(next.Keys) && LinkedBelow(next, buckets, chains, nbuckets)
        invariant Refiled(heads, nodes, done, p, some)
        invariant Filed(chains, heads, some, place) && ByHash(heads, place, nbuckets)
        decreases |done| - p
      {
        var following := next[node];
        some := RefileNode(node, done, p, some);
        node := following;
        p := p + 1;
      }
      AllRefiled(heads, nodes, done, some);
    }

    /** Rebuilds the table with n buckets, or as it was when the table cannot be had. */
    method Resize(n: nat, granted: bool) returns (err: int)
      requires Sound() && n == (if nbuckets > 0 then 2 * nbuckets else 1)
      modifies this`buckets, this`nbuckets, this`chains, this`place, this`next
      ensures Sound()
      ensures err == if granted && n <= MAX_BUCKETS then 0 else -1
      ensures nbuckets == if err == 0 then n else old(nbuckets)
    {
      var all, done := Thread();
      err := -1;
      if granted && n <= MAX_BUCKETS {
        if nbuckets > 0 { DoublePower(nbuckets); } else { OneIsPower(); }
        nbuckets := n;
        err := 0;
      }
      if nbuckets > 0 {
        FiledKeyed(chains, heads, nodes, place);
        NothingFiled(heads, nodes, next, nbuckets);
        buckets, chains, place := EmptyBuckets(nbuckets), EmptyChains(nbuckets), map[];
        Refile(all, done);
      }
    }

    // ---------- the operations ----------

    constructor ()
      ensures Valid() && dict == map[]
    {
      buckets, nbuckets, nnodes := [], 0, 0;
      heads, next, value := map[], map[], map[];
      chains, nodes, place, dict := [], map[], map[], map[];
    }

    /** Whether a new key finds a bucket table with room for it. */
    ghost predicate Room(tableGranted: bool)
      reads this
    {
      nnodes < nbuckets || (tableGranted && 2 * nbuckets <= MAX_BUCKETS)
    }

    /** Files a node with a new key. */
    method Insert(node: Ptr)
      requires Sound() && nbuckets > 0 && node != 0 && node in heads && heads[node].key !in nodes
      requires OnePerKey(heads, nodes[heads[node].key := node])
      modifies this`buckets, this`chains, this`next, this`nodes, this`place
      ensures Sound() && nodes == old(nodes)[heads[node].key := node]
    {
      var key := heads[node].key;
      NotYet(chains, heads, nodes, place, node);
      FiledAdd(chains, heads, nodes, place, node, Home(heads[node].hash, nbuckets));
      ByHashAdd(heads, nodes[key := node], place, nbuckets, node);
      ghost var b := AddNode(node);
      nodes, place := nodes[key := node], place[key := b];
    }

    /** at is where malloc puts a new node, or 0; tableGranted whether a larger table can be had. */
    method Set(key: Key, v: V, at: Ptr, tableGranted: bool) returns (err: int)
      requires Valid() && at !in heads
      modifies this
      ensures Valid()
      ensures err == if key in old(dict) || (at != 0 && old(Room(tableGranted))) then 0 else -1
      ensures dict == if err == 0 then old(dict)[key := v] else old(dict)
      ensures err != 0 ==> heads == old(heads) && value == old(value)
      ensures nbuckets == if err == 0 && key !in old(dict) && old(|dict|) == old(nbuckets)
                          then (if old(nbuckets) == 0 then 1 else 2 * old(nbuckets)) else old(nbuckets)
    {
      var ref, i := GetRef(key);
      if ref != NoRef {
        Replace(Deref(ref), key, v);
        err := 0;
      } else if at == 0 {
        err := -1;
      } else {
        err := Add(key, v, at, tableGranted);
      }
    }

    /** A new key in a new node. */
    method Add(key: Key, v: V, at: Ptr, tableGranted: bool) returns (err: int)
      requires Valid() && at !in heads && at != 0 && key !in dict
      modifies this
      ensures Valid()
      ensures err == if old(Room(tableGranted)) then 0 else -1
      ensures dict == if err == 0 then old(dict)[key := v] else old(dict)
      ensures err != 0 ==> heads == old(heads) && value == old(value)
      ensures nbuckets == if err == 0 && old(|dict|) == old(nbuckets)
                          then (if old(nbuckets) == 0 then 1 else 2 * old(nbuckets)) else old(nbuckets)
    {
      var hash := MapHash(key);
      AgreeAdd(heads, value, nodes, dict, at, hash, key, v);
      err := MakeRoom(key, hash, at, tableGranted);
      if err == 0 {
        Enter(at, key, v);
      }
    }

    /** A new value for the node of a key. */
    method Replace(node: Ptr, ghost key: Key, v: V)
      requires Valid() && key in nodes && nodes[key] == node
      modifies this`value, this`dict
      ensures Valid() && dict == old(dict)[key := v]
    {
      AgreeReplace(heads, value, nodes, dict, key, v);
      value := value[node := v];
      dict := dict[key := v];
    }

    /** Gives a new node its value and its place. */
    method Enter(node: Ptr, key: Key, v: V)
      requires Sound() && nnodes == |dict| < nbuckets && node != 0 && node in heads && heads[node].key == key
      requires key !in nodes && key !in dict && OnePerKey(heads, nodes[key := node])
      requires Agree(heads, value[node := v], nodes[key := node], dict[key := v])
      modifies this`buckets, this`chains, this`next, this`nodes, this`place, this`value, this`dict, this`nnodes
      ensures Valid() && dict == old(dict)[key := v]
    {
      Insert(node);
      Record(node, key, v);
    }

    /** Stores the value of a filed node and counts it. */
    method Record(node: Ptr, ghost key: Key, v: V)
      requires Sound() && nnodes == |dict| < nbuckets && key !in dict
      requires Agree(heads, value[node := v], nodes, dict[key := v])
      modifies this`value, this`dict, this`nnodes
      ensures Valid() && dict == old(dict)[key := v]
    {
      value := value[node := v];
      nnodes := nnodes + 1;
      dict := dict[key := v];
    }

    /** The new node, and a table with room for it. */
    method MakeRoom(key: Key, hash: nat, at: Ptr, tableGranted: bool) returns (err: int)
      requires Sound() && nnodes <= nbuckets && at !in heads && at != 0 && key !in nodes && HashOf(key, hash)
      requires AllKnown(heads, nodes)
      modifies this`buckets, this`nbuckets, this`chains, this`place, this`next, this`heads
      ensures Sound() && err == if old(Room(tableGranted)) then 0 else -1
      ensures nnodes <= nbuckets && (err == 0 ==> nnodes < nbuckets)
      ensures nbuckets == if err == 0 && nnodes == old(nbuckets)
                          then (if old(nbuckets) == 0 then 1 else 2 * old(nbuckets)) else old(nbuckets)
      ensures err == 0 ==> heads == old(heads)[at := Head(hash, key)] && OnePerKey(heads, nodes[key := at])
      ensures err != 0 ==> heads == old(heads)
    {
      WithNodeSound(Now(), at, hash, key);
      NewKeyOnce(heads, nodes, at, hash, key);
      heads, next := heads[at := Head(hash, key)], next[at := 0];
      assert Now() == old(WithNode(Now(), at, hash, key));
      err := 0;
      if nnodes >= nbuckets {
        err := Resize(if nbuckets > 0 then 2 * nbuckets else 1, tableGranted);
        if err != 0 {
          ghost var s := Now();
          WithoutNodeSound(s, at);
          heads, next := heads - {at}, next - {at};
          assert Now() == WithoutNode(s, at);
        }
      }
    }

    /** *r = (*r)->next */
    method Bypass(r: Ref, ghost n: nat, ghost i: nat)
      requires TableOk() && RefersTo(r, n, i) && chains[n][i] in next
      modifies this`buckets, this`next
      ensures Now() == old(Bypassed(Now(), n, i))
    {
      var node := Deref(r);
      match r
      case Bucket(b) => buckets := buckets[b := next[node]];
      case NextOf(prev) => next := next[prev := next[node]];
    }

    /** Unlinks, frees and forgets node i of the chain of bucket n. */
    method Drop(ref: Ref, ghost key: Key, ghost n: nat, ghost i: nat)
      requires Sound() && Agrees() && RefersTo(ref, n, i) && key in nodes && chains[n][i] == nodes[key]
      modifies this`buckets, this`heads, this`next, this`value, this`chains, this`nodes, this`place, this`dict
      ensures Sound() && Agrees() && dict == old(dict) - {key}
    {
      assert KeyedAt(heads, nodes, key);
      DroppedSound(Now(), n, i);
      AgreeDrop(heads, value, nodes, dict, key);
      Cut(ref, key, n, i);
    }

    /** Unlinks a node and frees it. */
    method Cut(ref: Ref, ghost key: Key, ghost n: nat, ghost i: nat)
      requires TableOk() && RefersTo(ref, n, i) && key in nodes && chains[n][i] == nodes[key]
      requires nodes[key] in next && nodes[key] in heads && heads[nodes[key]].key == key
      modifies this`buckets, this`heads, this`next, this`value, this`chains, this`nodes, this`place, this`dict
      ensures Now() == old(Dropped(Now(), n, i))
      ensures heads == old(heads) - {old(nodes)[key]} && value == old(value) - {old(nodes)[key]}
      ensures nodes == old(nodes) - {key} && dict == old(dict) - {key}
    {
      var node := Deref(ref);
      Bypass(ref, n, i);
      Forget(node, key, n, i);
    }

    method Remove(key: Key)
      requires Valid()
      modifies this
      ensures Valid() && dict == old(dict) - {key}
    {
      var ref, i := GetRef(key);
      if ref != NoRef {
        Drop(ref, key, place[key], i);
        nnodes := nnodes - 1;
      }
    }

    /** Frees a node and drops it from what is known of the map. */
    method Forget(node: Ptr, ghost key: Key, ghost n: nat, ghost i: nat)
      requires n < |chains| && i < |chains[n]|
      modifies this`heads, this`next, this`value, this`chains, this`nodes, this`place, this`dict
      ensures heads == old(heads) - {node} && next == old(next) - {node} && value == old(value) - {node}
      ensures chains == old(chains)[n := old(chains)[n][..i] + old(chains)[n][i + 1..]]
      ensures nodes == old(nodes) - {key} && place == old(place) - {key} && dict == old(dict) - {key}
    {
      heads, next, value := heads - {node}, next - {node}, value - {node};
      chains := chains[n := chains[n][..i] + chains[n][i + 1..]];
      nodes, place, dict := nodes - {key}, place - {key}, dict - {key};
    }

    // ---------- iteration ----------

    /** The iterator has visited the first k nodes in the order of iteration. */
    ghost predicate Visited(it: Iter, k: nat)
      requires TableOk()
      reads this`buckets, this`nbuckets, this`chains, it
    {
      if it.node == 0 then it.bucketidx == TWO_32 - 1 && k == 0
      else exists i: nat :: AtNode(it, i, k)
    }

    /** It stands at node i of the chain of its bucket, the last of the first k. */
    ghost predicate AtNode(it: Iter, i: nat, k: nat)
      requires TableOk()
      reads this`buckets, this`nbuckets, this`chains, it
    {
      && it.bucketidx < nbuckets && i < |chains[it.bucketidx]| && chains[it.bucketidx][i] == it.node
      && k == |Order(chains, it.bucketidx)| + i + 1
    }

    /** Moves to the first node of the first bucket from b on that has one. */
    method NextBucket(it: Iter, ghost b: nat)
      requires TableOk() && LinkedBelow(next, buckets, chains, nbuckets)
      requires b <= nbuckets && it.bucketidx == (if b == 0 then TWO_32 - 1 else b - 1) && it.node == 0
      modifies it
      ensures it.node == 0 ==> |Order(chains, nbuckets)| == |Order(chains, b)|
      ensures it.node != 0 ==> AtNode(it, 0, |Order(chains, b)| + 1)
    {
      ghost var c := b;
      while it.node == 0
        invariant b <= c <= nbuckets && |Order(chains, c)| == |Order(chains, b)|
        invariant it.node == 0 ==> it.bucketidx == if c == 0 then TWO_32 - 1 else c - 1
        invariant it.node != 0 ==> AtNode(it, 0, |Order(chains, b)| + 1)
        decreases nbuckets - c, it.node == 0
      {
        it.bucketidx := if it.bucketidx + 1 == TWO_32 then 0 else it.bucketidx + 1;
        if it.bucketidx >= nbuckets {
          return;
        }
        FirstOfBucket(next, buckets, chains, c);
        it.node := buckets[it.bucketidx];
        if it.node == 0 { c := c + 1; }
      }
    }

    /** Moves to the next node of the bucket. */
    method NextInBucket(it: Iter, ghost k: nat) returns (ghost b: nat, ghost i: nat)
      requires TableOk() && LinkedBelow(next, buckets, chains, nbuckets) && Visited(it, k) && it.node != 0
      modifies it
      ensures it.bucketidx == old(it.bucketidx) && b == it.bucketidx + 1 <= nbuckets
      ensures it.node == 0 ==> k == |Order(chains, b)|
      ensures it.node != 0 ==> AtNode(it, i, k + 1)
    {
      i :| AtNode(it, i, k);
      b := it.bucketidx;
      ghost var c := chains[b];
      assert Links(next, buckets[b], c);
      assert next[c[i]] == PtrAt(c, i + 1);
      it.node := next[it.node];
      b, i := b + 1, i + 1;
    }

    /** Moves to the next node, if there is one. */
    method Advance(it: Iter, ghost k: nat) returns (ghost i: nat)
      requires TableOk() && LinkedBelow(next, buckets, chains, nbuckets) && Visited(it, k)
      modifies it
      ensures it.node == 0 ==> k == |Order(chains, nbuckets)|
      ensures it.node != 0 ==> AtNode(it, i, k + 1)
    {
      ghost var b: nat := 0;
      i := 0;
      if it.node != 0 {
        b, i := NextInBucket(it, k);
      }
      if it.node == 0 {
        NextBucket(it, b);
        i := 0;
      }
    }

    /** The next key, while there is one. */
    method Next(it: Iter, ghost k: nat) returns (key: Option<Key>)
      requires Valid() && Visited(it, k)
      modifies it
      ensures var s := Order(chains, nbuckets);
        && k <= |s|
        && if k == |s| then key == None
           else s[k] in heads && key == Some(heads[s[k]].key) && Visited(it, k + 1)
    {
      ghost var i := Advance(it, k);
      key := None;
      if it.node != 0 {
        assert ChainOk(chains[it.bucketidx], heads, nodes, place, it.bucketidx) && it.node in chains[it.bucketidx];
        OrderAt(chains, it.bucketidx, i, nbuckets);
        key := Some(heads[it.node].key);
      }
    }
  }
}
