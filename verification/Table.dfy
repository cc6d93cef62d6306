/** The chained hash table over the nodes' own `nextHash` fields. */
module Table {
  import opened Seqs
  import opened Words
  import opened Nodes

  // --- bit masks on 32-bit words ---

  /** Bitwise conjunction of two unsigned words. */
  function BitAnd(a: nat, b: nat): nat {
    if a == 0 || b == 0 then 0 else 2 * BitAnd(a / 2, b / 2) + (a % 2) * (b % 2)
  }

  lemma RemainderByHalves(h: nat, p: nat)
    requires p > 0
    ensures h % (2 * p) == 2 * ((h / 2) % p) + h % 2
  {
    var q, r := (h / 2) / p, (h / 2) % p;
    assert h / 2 == q * p + r;
    assert q * (2 * p) == 2 * (q * p);
    DivisionUnique(h, 2 * p, q, 2 * r + h % 2);
  }

  lemma BitAndOdd(h: nat, m: nat)
    ensures BitAnd(h, 2 * m + 1) == 2 * BitAnd(h / 2, m) + h % 2
  {
    assert (2 * m + 1) / 2 == m && (2 * m + 1) % 2 == 1;
  }

  /** Masking with a power of two less one keeps the remainder. */
  lemma {:induction false} MaskIsMod(h: nat, k: nat)
    ensures BitAnd(h, Pow2(k) - 1) == h % Pow2(k)
  {
    hide BitAnd;
    if k == 0 {
      NothingMasked(h);
    } else {
      var p := Pow2(k - 1);
      MaskIsMod(h / 2, k - 1);
      BitAndOdd(h, p - 1);
      RemainderByHalves(h, p);
      hide Pow2;
    }
  }

  lemma NothingMasked(h: nat)
    ensures BitAnd(h, 0) == 0 && h % 1 == 0
  {
  }

  function LogCeil(n: nat): nat
    decreases n
  {
    if n <= 1 then 0 else 1 + LogCeil((n + 1) / 2)
  }

  /** `std::bit_ceil`: the least power of two that is not below `n`. */
  function BitCeil(n: nat): nat {
    Pow2(LogCeil(n))
  }

  lemma {:induction false} BitCeilIsLeast(n: nat)
    ensures n <= BitCeil(n)
    ensures n > 1 ==> BitCeil(n) < 2 * n
  {
    if n > 1 {
      BitCeilIsLeast((n + 1) / 2);
      assert BitCeil(n) == 2 * BitCeil((n + 1) / 2);
    }
  }

  lemma {:induction false} Pow2Monotone(a: nat, b: nat)
    requires a <= b
    ensures Pow2(a) <= Pow2(b)
    decreases b
  {
    if a < b {
      Pow2Monotone(a, b - 1);
    }
  }

  lemma BitCeilLeastPower(n: nat, k: nat)
    requires n <= Pow2(k)
    ensures n <= BitCeil(n) <= Pow2(k)
  {
    BitCeilIsLeast(n);
    if k < LogCeil(n) {
      Pow2Monotone(k + 1, LogCeil(n));
    } else {
      Pow2Monotone(LogCeil(n), k);
    }
  }

  // --- the table ---

  /** `s` is the null-terminated chain that starts at `first`. */
  ghost predicate IsChain<K(0), V(0)>(first: Node?<K, V>, s: seq<Node<K, V>>)
    reads s`nextHash
  {
    && Distinct(s)
    && first == (if s == [] then null else s[0])
    && forall i {:trigger s[i].nextHash} :: 0 <= i < |s| ==>
         s[i].nextHash == if i + 1 < |s| then s[i + 1] else null
  }

  /**
   * `contents` is the finite map the table stands for; `chains` spells out each bucket.
   * `hashOf` is the hash function of the keys, about which nothing is known.
   */
  class NodeTable<K(0, ==), V(0)> {
    ghost const hashOf: K -> nat
    ghost const log: nat
    ghost const bucket: nat -> nat
    const length: nat
    const list: array<Node?<K, V>>
    ghost var chains: seq<seq<Node<K, V>>>
    ghost var contents: map<K, Node<K, V>>
    ghost var nodes: set<Node<K, V>>

    /** The bucket of a hash, computed from its low bits. */
    function Index(hash: nat): nat
      requires length > 0
    {
      BitAnd(hash, length - 1)
    }

    /** `bucket` tabulates `Index`, whose value is the remainder since the length is a power of two. */
    ghost predicate Buckets() {
      && length == Pow2(log)
      && (forall h: nat :: bucket(h) < length)
      && (forall h: nat {:trigger Index(h)} :: bucket(h) == Index(h))
    }

    lemma IndexIsRemainder(hash: nat)
      requires length == Pow2(log)
      ensures Index(hash) == hash % length < length
    {
      MaskIsMod(hash, log);
    }

    /** The chains hold exactly the mapped nodes, each in the bucket of its key. */
    ghost predicate Filed(chains: seq<seq<Node<K, V>>>, contents: map<K, Node<K, V>>, nodes: set<Node<K, V>>)
      reads nodes`key, nodes`hash
    {
      && Buckets() && length == |chains|
      && (forall b, i :: 0 <= b < length && 0 <= i < |chains[b]| ==>
            chains[b][i] in nodes && bucket(chains[b][i].hash) == b)
      && (forall n :: n in nodes ==>
            n.key in contents && contents[n.key] == n && n.hash == hashOf(n.key) && n in chains[bucket(n.hash)])
      && (forall k :: k in contents ==> contents[k] in nodes && contents[k].key == k)
    }

    ghost predicate Valid()
      reads this, list, nodes`nextHash, nodes`key, nodes`hash
    {
      && list.Length == length
      && Filed(chains, contents, nodes)
      && (forall b :: 0 <= b < length ==> IsChain(list[b], chains[b]))
    }

    lemma Knows(n: Node<K, V>)
      requires Valid() && n in nodes
      ensures n.key in contents && contents[n.key] == n
    {
    }

    lemma Holds(k: K)
      requires Valid() && k in contents
      ensures contents[k] in nodes && contents[k].key == k && contents[k].hash == hashOf(k)
    {
    }

    constructor (size: nat, ghost hashOf: K -> nat)
      ensures Valid() && contents == map[] && nodes == {} && this.hashOf == hashOf
      ensures length == BitCeil(size) && fresh(list)
    {
      this.hashOf := hashOf;
      log := LogCeil(size);
      length := BitCeil(size);
      bucket := h => BitAnd(h, BitCeil(size) - 1);
      list := new Node?<K, V>[BitCeil(size)](_ => null);
      chains := seq(BitCeil(size), _ => []);
      contents, nodes := map[], {};
      new;
      forall h: nat
        ensures bucket(h) == Index(h) < length
      {
        IndexIsRemainder(h);
      }
    }

    /**
     * Walks the bucket's chain.  The pointed-to slot is the bucket itself when `prev` is
     * null, and `prev.nextHash` otherwise; `cur` is what the slot holds.
     */
    method FindPointer(key: K, hash: nat) returns (prev: Node?<K, V>, cur: Node?<K, V>, ghost i: nat)
      requires Valid() && hash == hashOf(key)
      ensures i <= |chains[bucket(hashOf(key))]|
      ensures prev == if i == 0 then null else chains[bucket(hashOf(key))][i - 1]
      ensures cur == if i == |chains[bucket(hashOf(key))]| then null else chains[bucket(hashOf(key))][i]
      ensures cur == if key in contents then contents[key] else null
    {
      ghost var s := chains[bucket(hashOf(key))];
      prev, cur, i := null, list[Index(hash)], 0;
      while cur != null && (cur.hash != hash || key != cur.key)
        invariant i <= |s|
        invariant prev == if i == 0 then null else s[i - 1]
        invariant cur == if i == |s| then null else s[i]
        invariant forall j :: 0 <= j < i ==> s[j].key != key
        decreases |s| - i
      {
        prev, cur, i := cur, cur.nextHash, i + 1;
      }
    }

    method Lookup(key: K, hash: nat) returns (r: Node?<K, V>)
      requires Valid() && hash == hashOf(key)
      ensures r == if key in contents then contents[key] else null
    {
      ghost var i;
      var prev;
      prev, r, i := FindPointer(key, hash);
    }

    lemma FiledInsert(e: Node<K, V>)
      requires Filed(chains, contents, nodes) && e.hash == hashOf(e.key) && e.key !in contents
      ensures var b := bucket(e.hash);
              Filed(chains[b := [e] + chains[b]], contents[e.key := e], nodes + {e})
    {
      var b := bucket(e.hash);
      assert forall n :: n in [e] + chains[b] <==> n == e || n in chains[b];
    }

    lemma InOneChain(n: Node<K, V>, b: nat)
      requires Filed(chains, contents, nodes) && b < length && n in chains[b]
      ensures forall a :: 0 <= a < length && a != b ==> n !in chains[a]
    {
      assert bucket(n.hash) == b;
      assert forall a :: 0 <= a < length && n in chains[a] ==> bucket(n.hash) == a;
    }

    lemma FiledRemove(b: nat, i: nat)
      requires Filed(chains, contents, nodes) && b < length && i < |chains[b]| && Distinct(chains[b])
      ensures var r := chains[b][i];
              Filed(chains[b := RemoveAt(chains[b], i)], contents - {r.key}, nodes - {r})
    {
      RemoveAtMembers(chains[b], i);
    }

    method Insert(e: Node<K, V>)
      requires Valid() && e.hash == hashOf(e.key) && e.key !in contents
      modifies `chains, `contents, `nodes, list, e`nextHash
      ensures Valid() && contents == old(contents)[e.key := e] && nodes == old(nodes) + {e}
    {
      FiledInsert(e);
      contents, nodes := contents[e.key := e], nodes + {e};
      LinkFirstFiled(e, Index(e.hash));
    }

    method LinkFirstFiled(e: Node<K, V>, b: nat)
      requires list.Length == length == |chains| && b < length
      requires forall a :: 0 <= a < length ==> e !in chains[a] && IsChain(list[a], chains[a])
      requires Filed(chains[b := [e] + chains[b]], contents, nodes)
      modifies list, e`nextHash, `chains
      ensures Valid()
    {
      LinkFirst(e, b);
    }

    method Remove(key: K, hash: nat) returns (r: Node?<K, V>)
      requires Valid() && hash == hashOf(key)
      modifies `chains, `contents, `nodes, list, nodes`nextHash
      ensures Valid() && contents == old(contents) - {key} && nodes == old(nodes) - {r}
      ensures r == if key in old(contents) then old(contents)[key] else null
    {
      ghost var i;
      var prev;
      prev, r, i := FindPointer(key, hash);
      if r == null {
        assert contents == contents - {key};
      } else {
        RemoveAfter(Index(hash), prev, r, i);
      }
    }

    method RemoveAfter(b: nat, prev: Node?<K, V>, r: Node<K, V>, ghost i: nat)
      requires Valid() && b < length && i < |chains[b]|
      requires r == chains[b][i] && prev == if i == 0 then null else chains[b][i - 1]
      modifies `chains, `contents, `nodes, list, nodes`nextHash
      ensures Valid() && contents == old(contents) - {r.key} && nodes == old(nodes) - {r}
    {
      FiledRemove(b, i);
      if prev != null {
        InOneChain(prev, b);
      }
      UnlinkFiled(b, prev, r, i, contents - {r.key}, nodes - {r});
    }

    method UnlinkFiled(b: nat, prev: Node?<K, V>, r: Node<K, V>, ghost i: nat,
                       ghost c: map<K, Node<K, V>>, ghost ns: set<Node<K, V>>)
      requires list.Length == length == |chains| && b < length && i < |chains[b]|
      requires forall a :: 0 <= a < length ==> IsChain(list[a], chains[a])
      requires r == chains[b][i] && prev == if i == 0 then null else chains[b][i - 1]
      requires prev != null ==> forall a :: 0 <= a < |chains| && a != b ==> prev !in chains[a]
      requires Filed(chains[b := RemoveAt(chains[b], i)], c, ns)
      modifies `chains, `contents, `nodes, list, (if prev == null then {} else {prev})`nextHash
      ensures Valid() && contents == c && nodes == ns
    {
      contents, nodes := c, ns;
      Unlink(b, prev, r, i);
    }

    /** The pointer work of an insertion, at the head of bucket `b`. */
    method LinkFirst(e: Node<K, V>, b: nat)
      requires list.Length == |chains| && b < |chains|
      requires forall a :: 0 <= a < |chains| ==> e !in chains[a] && IsChain(list[a], chains[a])
      modifies list, e`nextHash, `chains
      ensures chains == old(chains)[b := [e] + old(chains)[b]]
      ensures forall a :: 0 <= a < |chains| ==> IsChain(list[a], chains[a])
    {
      e.nextHash := list[b];
      list[b] := e;
      chains := chains[b := [e] + chains[b]];
    }

    /** The pointer work of a removal: the slot that holds `r` receives the successor of `r`. */
    method Unlink(b: nat, prev: Node?<K, V>, r: Node<K, V>, ghost i: nat)
      requires list.Length == |chains| && b < |chains| && i < |chains[b]|
      requires forall a :: 0 <= a < |chains| ==> IsChain(list[a], chains[a])
      requires r == chains[b][i] && prev == if i == 0 then null else chains[b][i - 1]
      requires prev != null ==> forall a :: 0 <= a < |chains| && a != b ==> prev !in chains[a]
      modifies `chains, list, (if prev == null then {} else {prev})`nextHash
      ensures chains == old(chains)[b := RemoveAt(old(chains)[b], i)]
      ensures forall a :: 0 <= a < |chains| ==> IsChain(list[a], chains[a])
    {
      if prev == null {
        list[b] := r.nextHash;
      } else {
        prev.nextHash := r.nextHash;
      }
      chains := chains[b := RemoveAt(chains[b], i)];
    }
  }
}
