/** The chained hash table: buckets of linked nodes. */
module HashTable {
  import opened Sequences
  import opened HashChains
  import opened HashResize

  /** `__stl_prime_list`. */
  function Primes(): (ps: seq<nat>)
    ensures |ps| == 28 && ps[27] == 4294967291 && (forall i :: 0 <= i < 28 ==> ps[i] > 0)
    ensures forall i :: 0 <= i < 27 ==> ps[i] < ps[i + 1]
  {
    [53, 97, 193, 389, 769,
     1543, 3079, 6151, 12289, 24593,
     49157, 98317, 196613, 393241, 786433,
     1572869, 3145739, 6291469, 12582917, 25165843,
     50331653, 100663319, 201326611, 402653189, 805306457,
     1610612741, 3221225473, 4294967291]
  }

  /** The first of the sequence that is not below `n`, or else the last. */
  function FirstNotBelow(ps: seq<nat>, n: nat): nat
    requires ps != []
  {
    if ps[0] >= n || |ps| == 1 then ps[0] else FirstNotBelow(ps[1..], n)
  }

  lemma {:induction false} LeastNotBelow(ps: seq<nat>, n: nat)
    requires ps != [] && forall i, j :: 0 <= i < j < |ps| ==> ps[i] < ps[j]
    ensures FirstNotBelow(ps, n) in ps
    ensures n <= ps[|ps| - 1] ==> n <= FirstNotBelow(ps, n) && forall i :: 0 <= i < |ps| && n <= ps[i] ==>
      FirstNotBelow(ps, n) <= ps[i]
    ensures n > ps[|ps| - 1] ==> FirstNotBelow(ps, n) == ps[|ps| - 1]
  {
    if ps[0] < n && |ps| > 1 {
      LeastNotBelow(ps[1..], n);
    }
  }

  lemma {:induction false} Ascending(ps: seq<nat>, i: nat, j: nat)
    requires i < j < |ps| && forall i :: 0 <= i < |ps| - 1 ==> ps[i] < ps[i + 1]
    ensures ps[i] < ps[j]
  {
    if i < j - 1 {
      Ascending(ps, i, j - 1);
    }
  }

  /** `__stl_next_prime`. */
  function NextPrime(n: nat): nat {
    FirstNotBelow(Primes(), n)
  }

  /** The least of the list that is not below `n`, and the last where there is none. */
  lemma NextPrimeIsLeast(n: nat)
    ensures NextPrime(n) in Primes() && NextPrime(n) > 0
    ensures n <= 4294967291 ==> n <= NextPrime(n) && forall q :: q in Primes() && n <= q ==> NextPrime(n) <= q
    ensures n > 4294967291 ==> NextPrime(n) == 4294967291
  {
    hide Primes;
    var ps := Primes();
    forall i, j | 0 <= i < j < |ps|
      ensures ps[i] < ps[j]
    {
      Ascending(ps, i, j);
    }
    LeastNotBelow(ps, n);
  }

  function Capped(n: nat): nat { if n <= 4294967291 then n else 4294967291 }

  class HashTable<K(!new), V(!new)> {
    const ks: Keys<K, V>
    var buckets: array<HashNode?<V>>
    var num: nat
    ghost var chains: seq<seq<HashNode<V>>>

    ghost predicate Valid()
      reads this, buckets, NodeSet(chains)
    {
      |chains| == buckets.Length > 0 && num == |Flat(chains)| && ChainsOk(ks, chains) &&
      forall b :: 0 <= b < |chains| ==> Chain(buckets[b], chains[b])
    }

    /** The nodes in the order of iteration. */
    ghost function All(): seq<HashNode<V>>
      reads this
    {
      Flat(chains)
    }

    constructor (ks: Keys<K, V>, n: nat)
      requires Laws(ks)
      ensures Valid() && All() == [] && num == 0 && this.ks == ks && |chains| == NextPrime(n)
      ensures fresh(buckets)
    {
      hide Flat, NextPrime, ChainsOk, Laws, NodeSet;
      this.ks := ks;
      NextPrimeIsLeast(n);
      var size := NextPrime(n);
      buckets := new HashNode?<V>[size](_ => null);
      num := 0;
      chains := seq(size, _ => []);
      new;
      FlatEmpty(chains);
      EmptyOk(ks, chains);
    }

    lemma Parts()
      requires Valid()
      ensures forall b :: 0 <= b < |chains| ==> Homes(ks, |chains|, b, chains[b])
      ensures Distinct(All()) && Grouped(ks, All())
    {
      forall b | 0 <= b < |chains|
        ensures Homes(ks, |chains|, b, chains[b]) && Distinct(chains[b]) && Grouped(ks, chains[b])
      {
        assert ChainOk(ks, |chains|, b, chains[b]);
      }
      FlatOk(ks, chains);
    }

    /** The first of the nodes with the key in the order of iteration, or null if there is none. */
    method Find(k: K) returns (first: HashNode?<V>, ghost p: nat, ghost q: nat)
      requires Valid()
      ensures RangeOf(ks, k, All(), p, q) && first == At(All(), p)
      ensures if first == null then Lacks(ks, k, All()) && p == q == |All()| else Leads(ks, k, All(), p) && p < q
    {
      hide Flat, ChainsOk, Lacks, Leads, RangeOf, Homes, Grouped, Distinct, NodeSet, Chain, At;
      var b := ks.Bucket(k, buckets.Length);
      ghost var i;
      first, i := Scan(ks, buckets[b], k, chains[b]);
      if first == null {
        NoRange(ks, chains, k);
        p, q := |All()|, |All()|;
      } else {
        q := LeadsWhole(ks, chains, k, b, i);
        p := |Flat(chains[..b])| + i;
      }
    }

    method Count(k: K) returns (result: nat)
      requires Valid()
      ensures result == CountOf(ks, k, All())
    {
      hide Flat, ChainsOk, CountOf, Homes, Chain, NodeSet, Laws;
      var b := ks.Bucket(k, buckets.Length);
      result := CountChain(ks, buckets[b], k, chains[b]);
      ChainsPart(ks, chains, b);
      ChainsHomes(ks, chains);
      KeyInWhole(ks, chains, k);
    }

    /** The first node of the buckets from `m` on. */
    method FirstFrom(m: nat) returns (r: HashNode?<V>)
      requires Valid() && m <= buckets.Length
      ensures r == At(All(), |Flat(chains[..m])|) && |Flat(chains[..m])| <= |All()|
    {
      hide Flat;
      var n := m;
      PrefixShorter(chains, m);
      while n < buckets.Length
        invariant m <= n <= buckets.Length && Flat(chains[..n]) == Flat(chains[..m])
      {
        FlatParts(chains, n);
        if buckets[n] != null {
          InFlat(chains, n, 0);
          return buckets[n];
        }
        n := n + 1;
      }
      assert chains[..n] == chains;
      r := null;
    }

    method Begin() returns (r: HashNode?<V>)
      requires Valid()
      ensures r == At(All(), 0)
    {
      r := FirstFrom(0);
    }

    /** `operator++`: from each node to the next in the order of iteration, from the last to the end. */
    method Next(cur: HashNode<V>, ghost p: nat) returns (r: HashNode?<V>)
      requires Valid() && p < |All()| && cur == All()[p]
      ensures r == At(All(), p + 1)
    {
      hide Flat, ChainsOk, NodeSet;
      ghost var c, i := FlatPlace(chains, p);
      ChainsHomes(ks, chains);
      FlatParts(chains, c);
      assert Homes(ks, |chains|, c, chains[c]);
      r := cur.next;
      if r == null {
        var b := ks.Bucket(ks.key(cur.val), buckets.Length);
        r := FirstFrom(b + 1);
      } else {
        InFlat(chains, c, i + 1);
      }
    }

    /** The nodes with the key, as a range of the order of iteration; the end and the end if there are none. */
    method EqualRange(k: K) returns (first: HashNode?<V>, last: HashNode?<V>, ghost p: nat, ghost q: nat)
      requires Valid()
      ensures RangeOf(ks, k, All(), p, q) && first == At(All(), p) && last == At(All(), q)
      ensures p == q ==> p == |All()|
    {
      hide Flat, ChainsOk, Lacks, RangeOf, Homes, Grouped, Distinct, NodeSet, Chain, At;
      var b := ks.Bucket(k, buckets.Length);
      ghost var i, j;
      first, i := Scan(ks, buckets[b], k, chains[b]);
      if first == null {
        last, p, q := null, |All()|, |All()|;
        NoRange(ks, chains, k);
        return;
      }
      last, j := ScanPast(ks, buckets[b], first, k, chains[b], i);
      WholeRange(ks, chains, k, b, chains[b], i, j);
      p, q := |Flat(chains[..b])| + i, |Flat(chains[..b])| + j;
      if last == null {
        last := FirstFrom(b + 1);
      }
    }

    // ---------- changes of one chain ----------

    lemma Changed(was: seq<seq<HashNode<V>>>, b: nat, s: seq<HashNode<V>>)
      requires b < |was| == buckets.Length && chains == was[b := s] && ChainsOk(ks, was) && ChainOk(ks, |was|, b, s)
      requires forall c :: 0 <= c < |was| && c != b ==> Chain(buckets[c], was[c])
      requires Chain(buckets[b], s) && num == |Flat(was)| - |was[b]| + |s|
      ensures Valid()
    {
      FlatUpdate(was, b, s);
      UpdatedOk(ks, was, b, s);
    }

    /** A new node at the front of the chain. */
    method PushFront(b: nat, obj: V) returns (tmp: HashNode<V>)
      requires Valid() && b < |chains| && b == ks.Bucket(ks.key(obj), |chains|) && Lacks(ks, ks.key(obj), chains[b])
      modifies this, buckets
      ensures Valid() && fresh(tmp) && tmp.val == obj && buckets == old(buckets)
      ensures chains == old(chains)[b := Inserted(old(chains)[b], 0, tmp)]
    {
      hide Flat, ChainsOk, ChainOk, Laws, Lacks, NodeSet;
      ChainsPart(ks, chains, b);
      ghost var was := chains;
      tmp := new HashNode<V>(obj, buckets[b]);
      ghost var s := Inserted(was[b], 0, tmp);
      assert tmp !in was[b];
      InsertedOk(ks, |was|, b, was[b], 0, tmp);
      buckets[b] := tmp;
      num := num + 1;
      chains := was[b := s];
      assert s == [tmp] + was[b];
      Changed(was, b, s);
    }

    /** A new node behind another of the same key. */
    method InsertAfter(b: nat, cur: HashNode<V>, obj: V, ghost i: nat) returns (tmp: HashNode<V>)
      requires Valid() && b < |chains| && b == ks.Bucket(ks.key(obj), |chains|)
      requires i < |chains[b]| && cur == chains[b][i] && ks.Has(cur, ks.key(obj))
      modifies this, cur
      ensures Valid() && fresh(tmp) && tmp.val == obj && buckets == old(buckets)
      ensures chains == old(chains)[b := Inserted(old(chains)[b], i + 1, tmp)]
    {
      hide Flat, ChainsOk, ChainOk, Laws, Lacks, NodeSet;
      ChainsPart(ks, chains, b);
      ghost var was := chains;
      OneHome(ks, was, b, i);
      tmp := new HashNode<V>(obj, cur.next);
      ghost var s := Inserted(was[b], i + 1, tmp);
      assert tmp !in was[b];
      InsertedOk(ks, |was|, b, was[b], i + 1, tmp);
      cur.next := tmp;
      num := num + 1;
      chains := was[b := s];
      InsertedChain(buckets[b], was[b], i, tmp);
      Changed(was, b, s);
    }

    /** The first node of the chain is taken out. */
    method UnlinkFirst(b: nat)
      requires Valid() && b < |chains| && chains[b] != []
      modifies this, buckets
      ensures Valid() && buckets == old(buckets) && chains == old(chains)[b := Removed(old(chains)[b], 0)]
    {
      hide Flat, ChainsOk, ChainOk, Laws, Lacks, NodeSet;
      ChainsPart(ks, chains, b);
      ghost var was := chains;
      ghost var s := Removed(was[b], 0);
      RemovedOk(ks, |was|, b, was[b], 0);
      FlatParts(was, b);
      buckets[b] := buckets[b].next;
      num := num - 1;
      chains := was[b := s];
      Changed(was, b, s);
    }

    /** The node behind `cur` is taken out. */
    method UnlinkAfter(b: nat, cur: HashNode<V>, ghost i: nat)
      requires Valid() && b < |chains| && i + 1 < |chains[b]| && cur == chains[b][i]
      modifies this, cur
      ensures Valid() && buckets == old(buckets) && chains == old(chains)[b := Removed(old(chains)[b], i + 1)]
    {
      hide Flat, ChainsOk, ChainOk, Laws, Lacks, NodeSet;
      ChainsPart(ks, chains, b);
      ghost var was := chains;
      ghost var s := Removed(was[b], i + 1);
      OneHome(ks, was, b, i);
      RemovedOk(ks, |was|, b, was[b], i + 1);
      FlatParts(was, b);
      cur.next := cur.next.next;
      num := num - 1;
      chains := was[b := s];
      RemovedChain(buckets[b], was[b], i);
      Changed(was, b, s);
    }

    // ---------- inserting ----------

    /** `insert_unique_noresize`: a node is added exactly when no node has an equal key. */
    method InsertUniqueNoresize(obj: V) returns (node: HashNode<V>, added: bool, ghost p: nat)
      requires Valid()
      modifies this, buckets
      ensures Valid() && buckets == old(buckets) && |chains| == old(|chains|)
      ensures added == Lacks(ks, ks.key(obj), old(All()))
      ensures !added ==> chains == old(chains) && Leads(ks, ks.key(obj), All(), p) && node == All()[p]
      ensures added ==> fresh(node) && node.val == obj && p <= |old(All())| && All() == Inserted(old(All()), p, node)
      ensures num == old(num) + if added then 1 else 0
      ensures added ==> p == |Flat(old(chains)[..ks.Bucket(ks.key(obj), old(|chains|))])|
    {
      hide Flat, ChainsOk, Homes, Grouped, Distinct, NodeSet, Chain, At;
      var b := ks.Bucket(ks.key(obj), buckets.Length);
      var cur, i := Scan(ks, buckets[b], ks.key(obj), chains[b]);
      p := |Flat(chains[..b])| + i;
      if cur != null {
        ghost var q := LeadsWhole(ks, chains, ks.key(obj), b, i);
        InFlat(chains, b, i);
        return cur, false, p;
      }
      NoRange(ks, chains, ks.key(obj));
      ghost var was := chains;
      node := PushFront(b, obj);
      InsertedWhole(was, b, 0, node);
      added, p := true, |Flat(was[..b])|;
    }

    /** `insert_equal_noresize`: a node is always added, right behind the first with an equal key if there is any,
        and otherwise at the front of its bucket. */
    method InsertEqualNoresize(obj: V) returns (node: HashNode<V>, ghost p: nat)
      requires Valid()
      modifies this, buckets, NodeSet(chains)
      ensures Valid() && buckets == old(buckets) && |chains| == old(|chains|)
      ensures fresh(node) && node.val == obj && p <= |old(All())| && All() == Inserted(old(All()), p, node)
      ensures num == old(num) + 1
      ensures if Lacks(ks, ks.key(obj), old(All()))
        then p == |Flat(old(chains)[..ks.Bucket(ks.key(obj), old(|chains|))])|
        else p > 0 && Leads(ks, ks.key(obj), old(All()), p - 1)
    {
      hide Flat, ChainsOk, Homes, Grouped, Distinct, Chain, At;
      var b := ks.Bucket(ks.key(obj), buckets.Length);
      var cur, i := Scan(ks, buckets[b], ks.key(obj), chains[b]);
      ghost var was := chains;
      if cur != null {
        ghost var q := LeadsWhole(ks, was, ks.key(obj), b, i);
        InFlat(was, b, i);
        node := InsertAfter(b, cur, obj, i);
        InsertedWhole(was, b, i + 1, node);
        p := |Flat(was[..b])| + i + 1;
      } else {
        NoRange(ks, chains, ks.key(obj));
        node := PushFront(b, obj);
        InsertedWhole(was, b, 0, node);
        p := |Flat(was[..b])|;
      }
    }

    // ---------- growing ----------

    /** The number of buckets after `resize(hint)`. */
    ghost function SizeFor(hint: nat): nat
      reads this
    {
      if hint > |chains| && NextPrime(hint) > |chains| then NextPrime(hint) else |chains|
    }

    /** There is a bucket for each element hinted at, as far as the list goes, and never fewer than there were. */
    lemma SizeForMeans(hint: nat)
      ensures SizeFor(hint) >= |chains| && SizeFor(hint) >= Capped(hint)
      ensures hint <= |chains| ==> SizeFor(hint) == |chains|
    {
      hide NextPrime;
      NextPrimeIsLeast(hint);
    }

    /** `resize`: the same nodes, in the order reversed within the new buckets if there are new ones. */
    method Resize(hint: nat)
      requires Valid()
      modifies this, buckets, NodeSet(chains)
      ensures Valid() && |chains| == old(SizeFor(hint))
      ensures |chains| >= old(|chains|) && |chains| >= Capped(hint) && num == old(num)
      ensures chains == if |chains| == old(|chains|) then old(chains) else Spreads(ks, |chains|, old(All()))
      ensures multiset(All()) == multiset(old(All()))
      ensures buckets == old(buckets) || fresh(buckets)
    {
      hide Flat, NodeSet, Chain, ChainsOk, Spreads, NextPrime;
      SizeForMeans(hint);
      var oldN := buckets.Length;
      if hint > oldN {
        var n := NextPrime(hint);
        if n > oldN {
          var tmp := new HashNode?<V>[n](_ => null);
          ghost var was := chains;
          MoveAll(ks, buckets, tmp, was);
          SpreadsOk(ks, was, n);
          buckets := tmp;
          chains := Spreads(ks, n, Flat(was));
          TableMeans(tmp, chains);
        }
      }
    }

    /** `insert_unique`. */
    method InsertUnique(obj: V) returns (node: HashNode<V>, added: bool, ghost p: nat)
      requires Valid()
      modifies this, buckets, NodeSet(chains)
      ensures Valid() && added == Lacks(ks, ks.key(obj), old(All()))
      ensures !added ==> Leads(ks, ks.key(obj), All(), p) && node == All()[p] && multiset(All()) == multiset(old(All()))
      ensures added ==> fresh(node) && node.val == obj && multiset(All()) == multiset(old(All())) + multiset{node}
      ensures |chains| == old(SizeFor(num + 1)) && |chains| >= old(|chains|)
      ensures old(num) < 4294967291 ==> num <= |chains|
    {
      hide Flat, NodeSet, Chain, ChainsOk, Spreads, NextPrime, Lacks;
      ghost var all0 := All();
      Resize(num + 1);
      ghost var all := All();
      LacksSame(ks, ks.key(obj), all0, all);
      node, added, p := InsertUniqueNoresize(obj);
      if added {
        InsertedCounts(all, p, node);
      } else {
        assert node in multiset(all);
      }
    }

    /** `insert_equal`. */
    method InsertEqual(obj: V) returns (node: HashNode<V>)
      requires Valid()
      modifies this, buckets, NodeSet(chains)
      ensures Valid() && fresh(node) && node.val == obj && multiset(All()) == multiset(old(All())) + multiset{node}
      ensures |chains| == old(SizeFor(num + 1)) && |chains| >= old(|chains|)
      ensures old(num) < 4294967291 ==> num <= |chains|
    {
      hide Flat, NodeSet, Chain, ChainsOk, Spreads, NextPrime, Lacks;
      Resize(num + 1);
      ghost var all := All();
      SameNodes(old(chains), chains);
      ghost var p;
      node, p := InsertEqualNoresize(obj);
      InsertedCounts(all, p, node);
    }

    // ---------- erasing ----------

    /** `erase(iterator)`. */
    method EraseAt(it: HashNode?<V>, ghost p: nat)
      requires Valid() && it == At(All(), p)
      modifies this, buckets, NodeSet(chains)
      ensures Valid() && buckets == old(buckets)
      ensures All() == if it == null then old(All()) else old(Removed(All(), p))
    {
      hide Flat, ChainsOk, ChainOk, Chain, Distinct, Grouped;
      if it == null {
        return;
      }
      ghost var c, i := FlatPlace(chains, p);
      ChainsHomes(ks, chains);
      assert Homes(ks, |chains|, c, chains[c]);
      var b := ks.Bucket(ks.key(it.val), buckets.Length);
      RemovedWhole(chains, b, i);
      EraseNode(b, it, i);
    }

    /** The node is looked for in its chain, and taken out. */
    method EraseNode(b: nat, it: HashNode<V>, ghost i: nat)
      requires Valid() && b < |chains| && i < |chains[b]| && it == chains[b][i]
      modifies this, buckets, NodeSet(chains)
      ensures Valid() && buckets == old(buckets) && chains == old(chains)[b := Removed(old(chains)[b], i)]
    {
      hide Flat, ChainsOk, ChainOk, Grouped;
      ghost var s := chains[b];
      ChainsPart(ks, chains, b);
      DistinctPart(ks, |chains|, b, s);
      assert Chain(buckets[b], s);
      var cur := buckets[b];
      if cur == it {
        UnlinkFirst(b);
      } else {
        var next := cur.next;
        ghost var j: nat := 0;
        while next != it
          invariant j < i && cur == s[j] && next == s[j + 1]
          decreases i - j
          modifies {}
        {
          cur := next;
          next := cur.next;
          j := j + 1;
        }
        assert j + 1 == i;
        UnlinkAfter(b, cur, j);
      }
    }

    /** `erase(key)`: all nodes with the key are taken out, the first of the chain last. */
    method EraseKey(k: K) returns (erased: nat)
      requires Valid()
      modifies this, buckets, NodeSet(chains)
      ensures Valid() && buckets == old(buckets)
      ensures All() == Without(ks, k, old(All())) && erased == CountOf(ks, k, old(All()))
    {
      hide Flat, ChainsOk, Homes, Lacks, Laws, CountOf, Without, Grouped, Distinct, NodeSet;
      var b := ks.Bucket(k, buckets.Length);
      ghost var was := chains;
      ChainsPart(ks, was, b);
      ChainsHomes(ks, was);
      KeyInWhole(ks, was, k);
      var first := buckets[b];
      erased := 0;
      if first == null {
        NoKeys(ks, k, chains[b]);
        assert chains[b := chains[b]] == chains;
      } else {
        erased := EraseBehind(b, k, first);
        TailLacks(ks, k, chains[b]);
        if ks.equals(ks.key(first.val), k) {
          UnlinkFirst(b);
          erased := erased + 1;
        }
      }
      assert chains == was[b := Without(ks, k, was[b])];
    }

    /** All nodes with the key are taken out but the first of the chain. */
    method EraseBehind(b: nat, k: K, first: HashNode<V>) returns (erased: nat)
      requires Valid() && b < |chains| && chains[b] != [] && first == buckets[b]
      modifies this, NodeSet(chains)
      ensures Valid() && buckets == old(buckets) && first == buckets[b]
      ensures chains[b] != [] && chains == old(chains)[b := chains[b]] && Lacks(ks, k, chains[b][1..])
      ensures Without(ks, k, chains[b]) == old(Without(ks, k, chains[b]))
      ensures erased + CountOf(ks, k, chains[b]) == old(CountOf(ks, k, chains[b]))
    {
      hide Flat, ChainsOk, Homes, CountOf, Without, Grouped, Distinct, NodeSet, Chain, At;
      ChainAt(buckets[b], chains[b], 0);
      AtIs(chains[b], 0);
      var cur := first;
      var next := cur.next;
      ghost var i: nat := 0;
      erased := 0;
      while next != null
        invariant Valid() && buckets == old(buckets) && first == buckets[b]
        invariant |chains| == |old(chains)| && chains == old(chains)[b := chains[b]] &&
          NodeSet(chains) <= old(NodeSet(chains))
        invariant i < |chains[b]| && cur == chains[b][i] && next == At(chains[b], i + 1)
        invariant forall j :: 0 < j <= i ==> !ks.Has(chains[b][j], k)
        invariant Without(ks, k, chains[b]) == old(Without(ks, k, chains[b]))
        invariant erased + CountOf(ks, k, chains[b]) == old(CountOf(ks, k, chains[b]))
        decreases |chains[b]| - i
      {
        AtIs(chains[b], i + 1);
        if ks.equals(ks.key(next.val), k) {
          NodeInSet(chains, b, i);
          EraseNext(b, k, cur, i);
          next := cur.next;
          erased := erased + 1;
        } else {
          cur := next;
          next := cur.next;
          i := i + 1;
          ChainAt(buckets[b], chains[b], i);
        }
      }
      AtIs(chains[b], i + 1);
    }

    /** The node behind `cur` has the key, and is taken out. */
    method EraseNext(b: nat, k: K, cur: HashNode<V>, ghost i: nat)
      requires Valid() && b < |chains| && i + 1 < |chains[b]| && cur == chains[b][i] && ks.Has(chains[b][i + 1], k)
      modifies this, cur
      ensures Valid() && buckets == old(buckets) && buckets[b] == old(buckets[b]) &&
        NodeSet(chains) <= old(NodeSet(chains))
      ensures |chains| == |old(chains)| && chains == old(chains)[b := Removed(old(chains)[b], i + 1)]
      ensures cur.next == At(chains[b], i + 1)
      ensures Without(ks, k, chains[b]) == old(Without(ks, k, chains[b]))
      ensures CountOf(ks, k, chains[b]) + 1 == old(CountOf(ks, k, chains[b]))
    {
      hide Flat, ChainsOk, Homes, CountOf, Without, Grouped, Distinct, NodeSet, Chain, At;
      RemovedKey(ks, k, chains[b], i + 1);
      RemovedNodes(chains, b, i + 1);
      UnlinkAfter(b, cur, i);
      ChainAt(buckets[b], chains[b], i);
    }

    method Clear()
      requires Valid()
      modifies this, buckets
      ensures Valid() && buckets == old(buckets) && |chains| == old(|chains|) && All() == [] && num == 0
    {
      hide Flat, NodeSet, ChainsOk;
      for i := 0 to buckets.Length
        invariant forall j :: 0 <= j < i ==> buckets[j] == null
        modifies buckets
      {
        buckets[i] := null;
      }
      num := 0;
      ChainsPart(ks, chains, 0);
      chains := seq(|chains|, _ => []);
      FlatEmpty(chains);
      EmptyOk(ks, chains);
    }

    /** `_M_erase_bucket(n, last)`: the nodes of the bucket before `last` are taken out. */
    method EraseBucketTo(n: nat, last: HashNode?<V>, ghost j: nat)
      requires Valid() && n < |chains| && j <= |chains[n]| && last == At(chains[n], j)
      modifies this, buckets
      ensures Valid() && buckets == old(buckets) && chains == old(chains)[n := old(chains)[n][j..]]
    {
      hide Flat, ChainsOk, ChainOk, NodeSet, Chain, At, Distinct;
      ghost var was, k: nat := chains, 0;
      ChainsPart(ks, was, n);
      DistinctPart(ks, |was|, n, was[n]);
      assert was[n][0..] == was[n] && was[n := was[n]] == was;
      ChainAt(buckets[n], was[n], 0);
      var cur := buckets[n];
      while cur != last
        invariant k <= j && Valid() && buckets == old(buckets) && chains == was[n := was[n][k..]]
        invariant cur == At(was[n], k) && cur == buckets[n]
        decreases j - k
      {
        PlacesDiffer(was[n], k, j);
        assert Removed(was[n][k..], 0) == was[n][k + 1..];
        UnlinkFirst(n);
        ChainAt(buckets[n], chains[n], 0);
        AtRest(was[n], k + 1);
        cur := buckets[n];
        k := k + 1;
      }
      PlacesDiffer(was[n], k, j);
    }

    /** `_M_erase_bucket(n, first, last)`: when `first` is not the head, `last` is ignored. */
    method EraseBucketFrom(n: nat, first: HashNode<V>, last: HashNode?<V>, ghost i: nat, ghost j: nat)
      requires Valid() && n < |chains| && i < |chains[n]| && first == chains[n][i] && i <= j <= |chains[n]| &&
        last == At(chains[n], j)
      modifies this, buckets, NodeSet(chains)
      ensures Valid() && buckets == old(buckets)
      ensures chains == old(chains)[n := if i == 0 then old(chains)[n][j..] else old(chains)[n][..i]]
    {
      hide Flat, ChainsOk, ChainOk;
      ghost var s := chains[n];
      ChainsPart(ks, chains, n);
      DistinctPart(ks, |chains|, n, s);
      assert Chain(buckets[n], s);
      var cur := buckets[n];
      if cur == first {
        EraseBucketTo(n, last, j);
      } else {
        var next := cur.next;
        ghost var m: nat := 0;
        while next != first
          invariant m < i && cur == s[m] && next == s[m + 1]
          decreases i - m
          modifies {}
        {
          cur := next;
          next := cur.next;
          m := m + 1;
        }
        assert m + 1 == i;
        CutBehind(n, cur, m);
      }
    }

    /** All nodes behind `cur` are taken out of the bucket. */
    method CutBehind(n: nat, cur: HashNode<V>, ghost m: nat)
      requires Valid() && n < |chains| && m < |chains[n]| && cur == chains[n][m]
      modifies this, cur
      ensures Valid() && buckets == old(buckets) && chains == old(chains)[n := old(chains)[n][..m + 1]]
    {
      hide Flat, ChainsOk, ChainOk, NodeSet;
      ghost var was, s := chains, chains[n];
      var next := cur.next;
      while next != null
        invariant Valid() && buckets == old(buckets) && |chains| == |was| && chains == was[n := chains[n]]
        invariant m < |chains[n]| && chains[n][..m + 1] == s[..m + 1] && cur == chains[n][m] &&
          next == At(chains[n], m + 1)
        decreases |chains[n]|
      {
        UnlinkAfter(n, cur, m);
        assert Chain(buckets[n], chains[n]);
        next := cur.next;
      }
      assert chains[n][..m + 1] == chains[n];
    }

    /** `erase(first, last)`: the nodes from place `p` to before place `e` are taken out; `e` lies behind `q` exactly
        when the range begins behind the head of a bucket and ends before the end of it, and then it is that end. */
    method EraseRange(first: HashNode?<V>, last: HashNode?<V>, ghost p: nat, ghost q: nat) returns (ghost e: nat)
      requires Valid() && p <= q <= |All()| && first == At(All(), p) && last == At(All(), q)
      modifies this, buckets, NodeSet(chains)
      ensures Valid() && buckets == old(buckets) && q <= e <= |old(All())|
      ensures All() == old(All())[..p] + old(All())[e..]
      ensures e > q <==> Overruns(old(chains), p, q)
      ensures e > q ==> EndOfBucket(old(chains), p, e)
    {
      hide Flat, ChainsOk, ChainOk, NodeSet, Chain, Distinct;
      Parts();
      e := q;
      OverrunsBounds(chains, p, q);
      AllPlaces(All(), p, q);
      if first == last {
        return;
      }
      ghost var was := chains;
      ghost var c, i := FlatPlace(was, p);
      assert Homes(ks, |was|, c, was[c]);
      var firstBucket := ks.Bucket(ks.key(first.val), buckets.Length);
      var lastBucket := if last == null then buckets.Length else ks.Bucket(ks.key(last.val), buckets.Length);
      ghost var d, j: nat := |was|, 0;
      assert was[..|was|] == was;
      if last != null {
        d, j := FlatPlace(was, q);
        assert Homes(ks, |was|, d, was[d]);
      }
      if firstBucket == lastBucket {
        e := EraseWithin(firstBucket, first, last, i, j);
      } else {
        if d < |was| {
          PrefixGrows(was, d, c);
        }
        NoOverrun(was, c, i, d, j);
        EraseAcross(firstBucket, lastBucket, first, last, i, j);
      }
    }

    /** The range is in one bucket. */
    method EraseWithin(b: nat, first: HashNode<V>, last: HashNode<V>, ghost i: nat, ghost j: nat) returns (ghost e: nat)
      requires Valid() && b < |chains| && i < j < |chains[b]| && first == chains[b][i] && last == chains[b][j]
      modifies this, buckets, NodeSet(chains)
      ensures Valid() && buckets == old(buckets)
      ensures |Flat(old(chains)[..b])| + j <= e <= |old(All())|
      ensures All() == old(All())[..|Flat(old(chains)[..b])| + i] + old(All())[e..]
      ensures e > |Flat(old(chains)[..b])| + j <==>
        Overruns(old(chains), |Flat(old(chains)[..b])| + i, |Flat(old(chains)[..b])| + j)
      ensures e > |Flat(old(chains)[..b])| + j ==> EndOfBucket(old(chains), |Flat(old(chains)[..b])| + i, e)
    {
      hide Flat, ChainsOk, NodeSet, Chain;
      ghost var was, o := chains, |Flat(chains[..b])|;
      FlatParts(was, b);
      WithinOverruns(was, b, i, j);
      ghost var s := if i == 0 then was[b][j..] else was[b][..i];
      FlatUpdate(was, b, s);
      CutMiddle(Flat(was[..b]), was[b], Flat(was[b + 1..]), i, j);
      EraseBucketFrom(b, first, last, i, j);
      e := if i == 0 then o + j else o + |was[b]|;
      assert InBucket(was, b, i, o + i);
    }

    /** The range ends in a later bucket, or at the end. */
    method EraseAcross(b: nat, d: nat, first: HashNode<V>, last: HashNode?<V>, ghost i: nat, ghost j: nat)
      requires Valid() && b < d <= |chains| && i < |chains[b]| && first == chains[b][i]
      requires if d == |chains| then last == null && j == 0 else j < |chains[d]| && last == chains[d][j]
      modifies this, buckets, NodeSet(chains)
      ensures Valid() && buckets == old(buckets)
      ensures |Flat(old(chains)[..b])| + i <= |old(All())| && |Flat(old(chains)[..d])| + j <= |old(All())|
      ensures All() == old(All())[..|Flat(old(chains)[..b])| + i] + old(All())[|Flat(old(chains)[..d])| + j..]
    {
      hide Flat, ChainsOk, NodeSet, Chain, Gap;
      ghost var was := chains;
      EraseBucketFrom(b, first, null, i, |chains[b]|);
      GapStarts(was, b, i);
      var n := b + 1;
      while n < d
        invariant b < n <= d && Valid() && buckets == old(buckets) && chains == Gap(was, b, i, n)
      {
        GapGrows(was, b, i, n);
        EraseBucketTo(n, null, |chains[n]|);
        n := n + 1;
      }
      GapPlace(was, b, i, d, j);
      if d != buckets.Length {
        EraseBucketTo(d, last, j);
      }
    }
  }

  /** The range begins behind the head of a bucket and ends before the end of that bucket. */
  ghost predicate Overruns<V>(chains: seq<seq<HashNode<V>>>, p: nat, q: nat) {
    exists b: nat, i: nat, j: nat :: b < |chains| && 0 < i < j < |chains[b]| && InBucket(chains, b, i, p) &&
      InBucket(chains, b, j, q)
  }

  /** The bucket of the node at place `p` ends before place `e`. */
  ghost predicate EndOfBucket<V>(chains: seq<seq<HashNode<V>>>, p: nat, e: nat) {
    exists b: nat, i: nat :: b < |chains| && i < |chains[b]| && InBucket(chains, b, i, p) &&
      e == |Flat(chains[..b])| + |chains[b]|
  }

  ghost predicate InBucket<V>(chains: seq<seq<HashNode<V>>>, b: nat, i: nat, p: nat)
    requires b < |chains|
  {
    p == |Flat(chains[..b])| + i
  }

  lemma OverrunsBounds<V>(chains: seq<seq<HashNode<V>>>, p: nat, q: nat)
    ensures Overruns(chains, p, q) ==> p < q < |Flat(chains)|
  {
    if Overruns(chains, p, q) {
      var b: nat, i: nat, j: nat :| b < |chains| && 0 < i < j < |chains[b]| && InBucket(chains, b, i, p) &&
        InBucket(chains, b, j, q);
      InFlat(chains, b, j);
    }
  }

  lemma AllPlaces<V>(s: seq<HashNode<V>>, p: nat, q: nat)
    requires Distinct(s) && p <= q <= |s|
    ensures At(s, p) == At(s, q) ==> p == q && s == s[..p] + s[q..]
    ensures At(s, q) == null <==> q == |s|
    ensures At(s, p) != At(s, q) ==> p < q && At(s, p) != null
  {
  }

  /** Two places in one bucket: which bucket it is, and where, is determined. */
  lemma PlaceUnique<V>(chains: seq<seq<HashNode<V>>>, b: nat, i: nat, c: nat, j: nat)
    requires b < |chains| && i < |chains[b]| && c < |chains| && j < |chains[c]|
    requires |Flat(chains[..b])| + i == |Flat(chains[..c])| + j
    ensures b == c && i == j
  {
    PrefixGrows(chains, b, c);
    PrefixGrows(chains, c, b);
  }

  lemma WithinOverruns<V>(chains: seq<seq<HashNode<V>>>, b: nat, i: nat, j: nat)
    requires b < |chains| && i < j < |chains[b]|
    ensures Overruns(chains, |Flat(chains[..b])| + i, |Flat(chains[..b])| + j) <==> i > 0
  {
    var p, q := |Flat(chains[..b])| + i, |Flat(chains[..b])| + j;
    assert InBucket(chains, b, i, p) && InBucket(chains, b, j, q);
    if Overruns(chains, p, q) {
      var c: nat, k: nat, l: nat :| c < |chains| && 0 < k < l < |chains[c]| && InBucket(chains, c, k, p) &&
        InBucket(chains, c, l, q);
      PlaceUnique(chains, b, i, c, k);
    }
  }

  lemma NoOverrun<V>(chains: seq<seq<HashNode<V>>>, b: nat, i: nat, d: nat, j: nat)
    requires b < |chains| && i < |chains[b]| && b != d <= |chains| && (d < |chains| ==> j < |chains[d]|)
    ensures !Overruns(chains, |Flat(chains[..b])| + i, |Flat(chains[..d])| + j)
  {
    var p, q := |Flat(chains[..b])| + i, |Flat(chains[..d])| + j;
    if Overruns(chains, p, q) {
      var c: nat, k: nat, l: nat :| c < |chains| && 0 < k < l < |chains[c]| && InBucket(chains, c, k, p) &&
        InBucket(chains, c, l, q);
      PlaceUnique(chains, b, i, c, k);
      if d < |chains| {
        PlaceUnique(chains, d, j, c, l);
      } else {
        assert chains[..d] == chains;
        InFlat(chains, c, l);
      }
    }
  }

  lemma CutMiddle<V>(x: seq<HashNode<V>>, y: seq<HashNode<V>>, z: seq<HashNode<V>>, i: nat, j: nat)
    requires i < j < |y|
    ensures x + y[j..] + z == (x + y + z)[..|x|] + (x + y + z)[|x| + j..]
    ensures x + y[..i] + z == (x + y + z)[..|x| + i] + (x + y + z)[|x| + |y|..]
  {
  }

  /** The chains with the buckets between `b` and `n` emptied, and that of `b` cut at `i`. */
  ghost function Gap<V>(was: seq<seq<HashNode<V>>>, b: nat, i: nat, n: nat): (r: seq<seq<HashNode<V>>>)
    requires b < |was| && i <= |was[b]|
    ensures |r| == |was|
    ensures forall c :: 0 <= c < |was| ==> r[c] == if c == b then was[b][..i] else if b < c < n then [] else was[c]
  {
    seq(|was|, c requires 0 <= c < |was| => if c == b then was[b][..i] else if b < c < n then [] else was[c])
  }

  lemma GapStarts<V>(was: seq<seq<HashNode<V>>>, b: nat, i: nat)
    requires b < |was| && i < |was[b]|
    ensures was[b := if i == 0 then was[b][|was[b]|..] else was[b][..i]] == Gap(was, b, i, b + 1)
  {
    var h, r := was[b := if i == 0 then was[b][|was[b]|..] else was[b][..i]], Gap(was, b, i, b + 1);
    forall c | 0 <= c < |was|
      ensures h[c] == r[c]
    {
    }
  }

  lemma GapGrows<V>(was: seq<seq<HashNode<V>>>, b: nat, i: nat, n: nat)
    requires b < n < |was| && i <= |was[b]|
    ensures Gap(was, b, i, n)[n := Gap(was, b, i, n)[n][|Gap(was, b, i, n)[n]|..]] == Gap(was, b, i, n + 1)
    ensures At(Gap(was, b, i, n)[n], |Gap(was, b, i, n)[n]|) == null
  {
    var g, r := Gap(was, b, i, n), Gap(was, b, i, n + 1);
    var h := g[n := g[n][|g[n]|..]];
    forall c | 0 <= c < |was|
      ensures h[c] == r[c]
    {
    }
  }

  /** What the whole is with the gap, and with the nodes before place `j` of the bucket behind it gone too. */
  lemma GapPlace<V>(was: seq<seq<HashNode<V>>>, b: nat, i: nat, d: nat, j: nat)
    requires b < d <= |was| && i < |was[b]| && if d == |was| then j == 0 else j < |was[d]|
    ensures |Flat(was[..b])| + i <= |Flat(was)| && |Flat(was[..d])| + j <= |Flat(was)|
    ensures d < |was| ==> Gap(was, b, i, d)[d] == was[d]
    ensures d < |was| ==>
      Flat(Gap(was, b, i, d)[d := was[d][j..]]) == Flat(was)[..|Flat(was[..b])| + i] + Flat(was)[|Flat(was[..d])| + j..]
    ensures d == |was| ==>
      Flat(Gap(was, b, i, d)) == Flat(was)[..|Flat(was[..b])| + i] + Flat(was)[|Flat(was[..d])| + j..]
  {
    hide Flat;
    var g := Gap(was, b, i, d);
    GapBefore(was, b, i, d);
    FlatParts(was, b);
    if d < |was| {
      FlatParts(was, d);
      FlatUpdate(g, d, was[d][j..]);
      assert g[d + 1..] == was[d + 1..];
    } else {
      assert g[..d] == g && was[..d] == was;
    }
  }

  lemma GapBefore<V>(was: seq<seq<HashNode<V>>>, b: nat, i: nat, d: nat)
    requires b < d <= |was| && i < |was[b]|
    ensures Flat(Gap(was, b, i, d)[..d]) == Flat(was[..b]) + was[b][..i]
  {
    hide Flat;
    var g := Gap(was, b, i, d)[..d];
    FlatParts(g, b);
    assert g[..b] == was[..b];
    FlatEmpty(g[b + 1..]);
  }

  /** Nodes of one bucket only make up the whole. */
  lemma OneBucket<K(!new), V>(ks: Keys<K, V>, chains: seq<seq<HashNode<V>>>, b: nat)
    requires ChainsOk(ks, chains) && b < |chains| && forall x :: x in Flat(chains) ==>
      ks.Bucket(ks.key(x.val), |chains|) == b
    ensures Flat(chains[..b]) == [] && chains[b] == Flat(chains)
  {
    hide Flat;
    ChainsHomes(ks, chains);
    forall c | 0 <= c < |chains| && c != b
      ensures chains[c] == []
    {
      assert Homes(ks, |chains|, c, chains[c]);
      if chains[c] != [] {
        InFlat(chains, c, 0);
      }
    }
    FlatEmpty(chains[..b]);
    FlatEmpty(chains[b + 1..]);
    FlatParts(chains, b);
  }

  /** `erase(begin() + 1, begin() + 2)` where all three nodes are in one bucket: the third is erased too. */
  method EraseSecond(table: HashTable<int, int>)
    requires table.Valid() && |table.All()| == 3 && forall x :: x in table.All() ==>
      table.ks.Bucket(table.ks.key(x.val), |table.chains|) == 0
    modifies table, table.buckets, NodeSet(table.chains)
    ensures table.Valid() && |table.All()| == 1 && table.All() == old(table.All()[..1])
  {
    hide Flat, NodeSet, Chain, ChainsOk;
    ghost var all := table.All();
    ThreeOverrun(table.ks, table.chains);
    hide Overruns, At;
    var second, third := Places(table);
    ghost var e := table.EraseRange(second, third, 1, 2);
    assert e == 3 && all[3..] == [] && all[..1] + [] == all[..1];
  }

  lemma ThreeOverrun(ks: Keys<int, int>, chains: seq<seq<HashNode<int>>>)
    requires ChainsOk(ks, chains) && |Flat(chains)| == 3 && forall x :: x in Flat(chains) ==>
      ks.Bucket(ks.key(x.val), |chains|) == 0
    ensures Overruns(chains, 1, 2)
  {
    hide Flat, ChainsOk;
    ChainsPart0(ks, chains);
    OneBucket(ks, chains, 0);
    assert InBucket(chains, 0, 1, 1) && InBucket(chains, 0, 2, 2);
  }

  lemma ChainsPart0(ks: Keys<int, int>, chains: seq<seq<HashNode<int>>>)
    requires ChainsOk(ks, chains)
    ensures |chains| > 0
  {
  }

  method Places(table: HashTable<int, int>) returns (second: HashNode?<int>, third: HashNode?<int>)
    requires table.Valid() && |table.All()| == 3
    ensures second == At(table.All(), 1) && third == At(table.All(), 2)
  {
    hide Flat, NodeSet, Chain, ChainsOk;
    var first := table.Begin();
    second := table.Next(first, 0);
    third := table.Next(second, 1);
  }

  /** Such a table. */
  method OverrunExample() returns (table: HashTable<int, int>)
    ensures fresh(table) && table.Valid() && |table.All()| == 1
  {
    hide Flat, Overruns, NodeSet, ChainsOk, Chain, NextPrime, Laws;
    var ks := Keys((k: int) => 0, (j: int, k: int) => j == k, (v: int) => v);
    EqualKeys(ks);
    table := new HashTable<int, int>(ks, 0);
    var x := AddOne(table, 1);
    var y := AddOne(table, 2);
    var z := AddOne(table, 3);
    NodeSetIsFlat(table.chains);
    EraseSecond(table);
  }

  lemma EqualKeys(ks: Keys<int, int>)
    requires forall j, k :: ks.equals(j, k) == (j == k)
    requires forall k :: ks.hash(k) == 0
    ensures Laws(ks)
  {
  }

  /** A value that is new goes in. */
  method AddOne(table: HashTable<int, int>, v: int) returns (node: HashNode<int>)
    requires table.Valid() && forall x :: x in table.All() ==> x.val != v
    requires (forall j, k :: table.ks.equals(j, k) == (j == k)) && forall k :: table.ks.key(k) == k
    modifies table, table.buckets
    ensures table.Valid() && fresh(node) && node.val == v && |table.All()| == old(|table.All()|) + 1 &&
      table.buckets == old(table.buckets)
    ensures forall x :: x in table.All() ==> x == node || x in old(table.All())
  {
    hide Flat, NodeSet, ChainsOk, Chain;
    var added;
    ghost var p;
    node, added, p := table.InsertUniqueNoresize(v);
  }
}
