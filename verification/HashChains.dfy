/** Chains of a hash table: linked nodes, equal keys side by side, and their spreading over more buckets. */
module HashChains {
  import opened Sequences

  class HashNode<V> {
    var next: HashNode?<V>
    const val: V

    constructor (val: V, next: HashNode?<V>)
      ensures this.val == val && this.next == next
    {
      this.val, this.next := val, next;
    }
  }

  /** The hash function, the comparison of keys and the key of a value. */
  datatype Keys<!K, !V> = Keys(hash: K -> nat, equals: (K, K) -> bool, key: V -> K)
  {
    /** `_M_bkt_num_key`. */
    function Bucket(k: K, n: nat): (b: nat)
      requires n > 0
      ensures b < n
    {
      hash(k) % n
    }

    predicate Has(x: HashNode<V>, k: K) {
      equals(key(x.val), k)
    }
  }

  /** The bucket is the hash where that is small enough, and the same exactly for hashes a multiple of `n` apart. */
  lemma BucketMeans<K, V>(ks: Keys<K, V>, j: K, k: K, n: nat)
    requires n > 0
    ensures ks.hash(k) < n ==> ks.Bucket(k, n) == ks.hash(k)
    ensures ks.Bucket(j, n) == ks.Bucket(k, n) <==> (ks.hash(j) - ks.hash(k)) % n == 0
  {
    var a, b := ks.hash(j), ks.hash(k);
    var m := a / n - b / n;
    assert a - b == n * m + (a % n - b % n);
    Congruent(n, m, a % n - b % n);
    if b < n {
      assert b / n == 0;
    }
  }

  lemma Congruent(n: int, m: int, r: int)
    requires n > 0 && -n < r < n
    ensures (n * m + r) % n == 0 <==> r == 0
  {
    var k := (n * m + r) / n;
    assert n * m + r == n * k + (n * m + r) % n;
    var d := k - m;
    assert r == n * d + (n * m + r) % n;
    AtLeastOnce(n, d);
  }

  lemma AtLeastOnce(n: int, d: int)
    requires n > 0
    ensures d > 0 ==> n * d >= n
    ensures d < 0 ==> n * d <= -n
  {
  }

  /** Equality of keys is an equivalence, and equal keys have equal hashes. */
  ghost predicate Laws<K(!new), V>(ks: Keys<K, V>) {
    (forall x :: ks.equals(x, x)) && (forall x, y :: ks.equals(x, y) ==> ks.equals(y, x)) &&
    (forall x, y, z :: ks.equals(x, y) && ks.equals(y, z) ==> ks.equals(x, z)) &&
    (forall x, y :: ks.equals(x, y) ==> ks.hash(x) == ks.hash(y))
  }

  /** The node at a place, null behind the last. */
  ghost function At<V>(s: seq<HashNode<V>>, i: nat): HashNode?<V> {
    if i < |s| then s[i] else null
  }

  ghost predicate Chain<V>(head: HashNode?<V>, s: seq<HashNode<V>>)
    reads s
  {
    head == At(s, 0) && forall i :: 0 <= i < |s| ==> s[i].next == At(s, i + 1)
  }

  lemma AtIs<V>(s: seq<HashNode<V>>, i: nat)
    requires i <= |s|
    ensures At(s, i) == null <==> i == |s|
    ensures i < |s| ==> At(s, i) == s[i]
  {
  }

  lemma ChainAt<V>(head: HashNode?<V>, s: seq<HashNode<V>>, i: nat)
    requires Chain(head, s)
    ensures head == At(s, 0) && (i < |s| ==> s[i].next == At(s, i + 1))
  {
  }

  lemma AtRest<V>(s: seq<HashNode<V>>, k: nat)
    requires k <= |s|
    ensures At(s[k..], 0) == At(s, k)
  {
  }

  lemma PlacesDiffer<V>(s: seq<HashNode<V>>, i: nat, j: nat)
    requires Distinct(s) && i <= j <= |s|
    ensures At(s, i) == At(s, j) <==> i == j
  {
  }

  /** The first node of the chain that has the key. */
  method Scan<K(!new), V>(ks: Keys<K, V>, head: HashNode?<V>, k: K, ghost s: seq<HashNode<V>>)
                returns (cur: HashNode?<V>, ghost i: nat)
    requires Chain(head, s)
    ensures i <= |s| && cur == At(s, i) && Lacks(ks, k, s[..i]) && (cur != null ==> ks.Has(cur, k))
    ensures if cur == null then s[..i] == s else i < |s| && cur == s[i]
  {
    cur, i := head, 0;
    while cur != null && !ks.equals(ks.key(cur.val), k)
      invariant i <= |s| && cur == At(s, i) && Lacks(ks, k, s[..i])
      decreases |s| - i
    {
      cur := cur.next;
      i := i + 1;
    }
  }

  /** The node behind those that have the key. */
  method ScanPast<K(!new), V>(ks: Keys<K, V>, head: HashNode?<V>, first: HashNode<V>, k: K, ghost s: seq<HashNode<V>>,
                    ghost i: nat)
    returns (cur: HashNode?<V>, ghost j: nat)
    requires Chain(head, s) && i < |s| && first == s[i] && ks.Has(first, k)
    ensures i < j <= |s| && cur == At(s, j) && (forall m :: i <= m < j ==> ks.Has(s[m], k)) &&
      (cur != null ==> !ks.Has(cur, k))
    ensures if cur == null then j == |s| else j < |s| && cur == s[j]
  {
    cur, j := first.next, i + 1;
    while cur != null && ks.equals(ks.key(cur.val), k)
      invariant i < j <= |s| && cur == At(s, j) && forall m :: i <= m < j ==> ks.Has(s[m], k)
      decreases |s| - j
    {
      cur := cur.next;
      j := j + 1;
    }
  }

  /** Every node of the chain belongs in bucket `b` of `n`. */
  ghost predicate Homes<K(!new), V>(ks: Keys<K, V>, n: nat, b: nat, s: seq<HashNode<V>>)
    requires n > 0
  {
    forall i :: 0 <= i < |s| ==> ks.Bucket(ks.key(s[i].val), n) == b
  }

  ghost predicate Same<K(!new), V>(ks: Keys<K, V>, x: HashNode<V>, y: HashNode<V>) {
    ks.equals(ks.key(x.val), ks.key(y.val))
  }

  /** Nodes with equal keys are side by side. */
  ghost predicate Grouped<K(!new), V>(ks: Keys<K, V>, s: seq<HashNode<V>>) {
    forall i, j, k :: 0 <= i < j < k < |s| && Same(ks, s[i], s[k]) ==> Same(ks, s[i], s[j])
  }

  /** No node of the sequence has the key. */
  ghost predicate Lacks<K(!new), V>(ks: Keys<K, V>, k: K, s: seq<HashNode<V>>) {
    forall i :: 0 <= i < |s| ==> !ks.Has(s[i], k)
  }

  // ---------- all chains together: `Flat(chains)` is the order of iteration ----------

  lemma InFlat<V>(chains: seq<seq<HashNode<V>>>, b: nat, i: nat)
    requires b < |chains| && i < |chains[b]|
    ensures |Flat(chains[..b])| + i < |Flat(chains)| && Flat(chains)[|Flat(chains[..b])| + i] == chains[b][i]
    ensures chains[b][i] in Flat(chains)
  {
    FlatParts(chains, b);
  }

  /** Every place of the whole lies in one chain. */
  lemma {:induction false} FlatPlace<V>(chains: seq<seq<HashNode<V>>>, p: nat) returns (b: nat, i: nat)
    requires p < |Flat(chains)|
    ensures b < |chains| && i < |chains[b]| && p == |Flat(chains[..b])| + i && chains[b][i] == Flat(chains)[p]
    decreases |chains|
  {
    var n: nat := |chains| - 1;
    if p < |Flat(chains[..n])| {
      b, i := FlatPlace(chains[..n], p);
      assert chains[..n][..b] == chains[..b];
    } else {
      b, i := n, p - |Flat(chains[..n])|;
    }
  }

  /** A change of one chain, seen in the whole. */
  lemma FlatUpdate<V>(chains: seq<seq<HashNode<V>>>, b: nat, s: seq<HashNode<V>>)
    requires b < |chains|
    ensures Flat(chains[b := s]) == Flat(chains[..b]) + s + Flat(chains[b + 1..])
    ensures |Flat(chains[b := s])| == |Flat(chains)| - |chains[b]| + |s|
  {
    var d := chains[b := s];
    FlatParts(chains, b);
    FlatParts(d, b);
    assert d[..b] == chains[..b] && d[b + 1..] == chains[b + 1..];
  }

  // ---------- spreading over new buckets ----------

  /** The nodes of `s` that belong in bucket `b` of `n`, the last first. */
  ghost function Spread<K(!new), V>(ks: Keys<K, V>, n: nat, b: nat, s: seq<HashNode<V>>): seq<HashNode<V>>
    requires n > 0
  {
    if s == [] then []
    else
      var x := s[|s| - 1];
      (if ks.Bucket(ks.key(x.val), n) == b then [x] else []) + Spread(ks, n, b, s[..|s| - 1])
  }

  /** A place of the spread nodes comes from a place of `s`; later ones come from earlier ones. */
  lemma {:induction false} SpreadPlaces<K(!new), V>(ks: Keys<K, V>, n: nat, b: nat, s: seq<HashNode<V>>, i: nat,
                                          j: nat) returns (p: nat, q: nat)
    requires n > 0 && i <= j < |Spread(ks, n, b, s)|
    ensures q <= p < |s| && (i < j ==> q < p) && s[p] == Spread(ks, n, b, s)[i] && s[q] == Spread(ks, n, b, s)[j]
    ensures ks.Bucket(ks.key(s[p].val), n) == b
    decreases |s|
  {
    var m: nat := |s| - 1;
    var mine := ks.Bucket(ks.key(s[m].val), n) == b;
    if mine && i == 0 {
      p := m;
      if j == 0 {
        q := m;
      } else {
        var unused;
        unused, q := SpreadPlaces(ks, n, b, s[..m], j - 1, j - 1);
      }
    } else {
      var d := if mine then 1 else 0;
      p, q := SpreadPlaces(ks, n, b, s[..m], i - d, j - d);
    }
  }

  /** No node is lost. */
  lemma {:induction false} SpreadHas<K(!new), V>(ks: Keys<K, V>, n: nat, s: seq<HashNode<V>>, p: nat)
    requires n > 0 && p < |s|
    ensures s[p] in Spread(ks, n, ks.Bucket(ks.key(s[p].val), n), s)
    decreases |s|
  {
    if p < |s| - 1 {
      SpreadHas(ks, n, s[..|s| - 1], p);
      assert s[..|s| - 1][p] == s[p];
    }
  }

  /** Spreading nodes that are distinct and grouped gives chains that are. */
  lemma SpreadOk<K(!new), V>(ks: Keys<K, V>, n: nat, b: nat, s: seq<HashNode<V>>)
    requires n > 0 && Distinct(s) && Grouped(ks, s) && Laws(ks)
    ensures Distinct(Spread(ks, n, b, s)) && Homes(ks, n, b, Spread(ks, n, b, s)) && Grouped(ks, Spread(ks, n, b, s))
  {
    var t := Spread(ks, n, b, s);
    forall i, j | 0 <= i < j < |t|
      ensures t[i] != t[j]
    {
      var p, q := SpreadPlaces(ks, n, b, s, i, j);
    }
    forall i | 0 <= i < |t|
      ensures ks.Bucket(ks.key(t[i].val), n) == b
    {
      var p, q := SpreadPlaces(ks, n, b, s, i, i);
    }
    forall i, j, k | 0 <= i < j < k < |t| && Same(ks, t[i], t[k])
      ensures Same(ks, t[i], t[j])
    {
      var p, q := SpreadPlaces(ks, n, b, s, i, j);
      var q1, r := SpreadPlaces(ks, n, b, s, j, k);
      assert q1 == q;
      assert Same(ks, s[r], s[p]) && Same(ks, s[r], s[q]);
    }
  }

  /** Chains that are distinct and grouped make up a whole that is. */
  lemma FlatOk<K(!new), V>(ks: Keys<K, V>, chains: seq<seq<HashNode<V>>>)
    requires |chains| > 0 && Laws(ks)
    requires forall b :: 0 <= b < |chains| ==>
      Distinct(chains[b]) && Homes(ks, |chains|, b, chains[b]) && Grouped(ks, chains[b])
    ensures Distinct(Flat(chains)) && Grouped(ks, Flat(chains))
  {
    var s := Flat(chains);
    forall p, q | 0 <= p < q < |s|
      ensures s[p] != s[q]
    {
      var b, i := FlatPlace(chains, p);
      var c, j := FlatPlace(chains, q);
      assert Homes(ks, |chains|, b, chains[b]) && Homes(ks, |chains|, c, chains[c]);
    }
    forall p, q, r | 0 <= p < q < r < |s| && Same(ks, s[p], s[r])
      ensures Same(ks, s[p], s[q])
    {
      var b, i := FlatPlace(chains, p);
      var c, j := FlatPlace(chains, q);
      var d, k := FlatPlace(chains, r);
      assert Homes(ks, |chains|, b, chains[b]) && Homes(ks, |chains|, d, chains[d]);
      PrefixGrows(chains, b, c);
      PrefixGrows(chains, c, d);
      PrefixGrows(chains, c, b);
      PrefixGrows(chains, d, c);
      assert b == c == d;
      assert Grouped(ks, chains[b]);
    }
  }

  lemma PrefixGrows<V>(chains: seq<seq<HashNode<V>>>, b: nat, c: nat)
    requires b < |chains| && c <= |chains|
    ensures b < c ==> |Flat(chains[..b])| + |chains[b]| <= |Flat(chains[..c])|
  {
    if b < c {
      FlatParts(chains[..c], b);
      assert chains[..c][..b] == chains[..b];
    }
  }

  /** The nodes of all chains. */
  ghost function NodeSet<V>(chains: seq<seq<HashNode<V>>>): set<HashNode<V>> {
    set b, i | 0 <= b < |chains| && 0 <= i < |chains[b]| :: chains[b][i]
  }

  lemma NodeSetIsFlat<V>(chains: seq<seq<HashNode<V>>>)
    ensures forall x :: x in NodeSet(chains) <==> x in Flat(chains)
  {
    forall x | x in NodeSet(chains)
      ensures x in Flat(chains)
    {
      var b, i :| 0 <= b < |chains| && 0 <= i < |chains[b]| && chains[b][i] == x;
      InFlat(chains, b, i);
    }
    forall x | x in Flat(chains)
      ensures x in NodeSet(chains)
    {
      var p :| 0 <= p < |Flat(chains)| && Flat(chains)[p] == x;
      var b, i := FlatPlace(chains, p);
    }
  }

  // ---------- keys in the whole ----------

  /** All nodes with the key are in the chain of its bucket. */
  lemma LacksElsewhere<K(!new), V>(ks: Keys<K, V>, chains: seq<seq<HashNode<V>>>, k: K)
    requires |chains| > 0 && Laws(ks) && forall c :: 0 <= c < |chains| ==> Homes(ks, |chains|, c, chains[c])
    ensures var b := ks.Bucket(k, |chains|); Lacks(ks, k, Flat(chains[..b])) && Lacks(ks, k, Flat(chains[b + 1..]))
  {
    var b := ks.Bucket(k, |chains|);
    var low, high := Flat(chains[..b]), Flat(chains[b + 1..]);
    forall p | 0 <= p < |low|
      ensures !ks.Has(low[p], k)
    {
      var c, i := FlatPlace(chains[..b], p);
      assert Homes(ks, |chains|, c, chains[c]);
    }
    forall p | 0 <= p < |high|
      ensures !ks.Has(high[p], k)
    {
      var c, i := FlatPlace(chains[b + 1..], p);
      assert Homes(ks, |chains|, b + 1 + c, chains[b + 1 + c]);
    }
  }

  /** The count of a chain, node by node. */
  method CountChain<K(!new), V>(ks: Keys<K, V>, head: HashNode?<V>, k: K, ghost s: seq<HashNode<V>>)
                      returns (result: nat)
    requires Chain(head, s)
    ensures result == CountOf(ks, k, s)
  {
    var cur := head;
    ghost var i: nat := 0;
    result := 0;
    while cur != null
      invariant i <= |s| && cur == At(s, i) && result == CountOf(ks, k, s[..i])
      decreases |s| - i
    {
      assert s[..i + 1][..i] == s[..i];
      if ks.equals(ks.key(cur.val), k) {
        result := result + 1;
      }
      cur := cur.next;
      i := i + 1;
    }
    assert s[..|s|] == s;
  }

  /** How many nodes have the key. */
  ghost function CountOf<K(!new), V>(ks: Keys<K, V>, k: K, s: seq<HashNode<V>>): nat {
    if s == [] then 0 else CountOf(ks, k, s[..|s| - 1]) + if ks.Has(s[|s| - 1], k) then 1 else 0
  }

  /** The nodes that do not have the key. */
  ghost function Without<K(!new), V>(ks: Keys<K, V>, k: K, s: seq<HashNode<V>>): seq<HashNode<V>> {
    if s == [] then [] else Without(ks, k, s[..|s| - 1]) + if ks.Has(s[|s| - 1], k) then [] else [s[|s| - 1]]
  }

  lemma {:induction false} KeyConcat<K(!new), V>(ks: Keys<K, V>, k: K, x: seq<HashNode<V>>, y: seq<HashNode<V>>)
    ensures CountOf(ks, k, x + y) == CountOf(ks, k, x) + CountOf(ks, k, y)
    ensures Without(ks, k, x + y) == Without(ks, k, x) + Without(ks, k, y)
    decreases |y|
  {
    if y == [] {
      assert x + y == x;
    } else {
      KeyConcat(ks, k, x, y[..|y| - 1]);
      assert (x + y)[..|x + y| - 1] == x + y[..|y| - 1];
    }
  }

  lemma {:induction false} KeyLacking<K(!new), V>(ks: Keys<K, V>, k: K, s: seq<HashNode<V>>)
    requires Lacks(ks, k, s)
    ensures CountOf(ks, k, s) == 0 && Without(ks, k, s) == s
  {
    if s != [] {
      KeyLacking(ks, k, s[..|s| - 1]);
    }
  }

  /** What a chain says about the key holds of the whole. */
  lemma KeyInWhole<K(!new), V>(ks: Keys<K, V>, chains: seq<seq<HashNode<V>>>, k: K)
    requires |chains| > 0 && Laws(ks) && forall c :: 0 <= c < |chains| ==> Homes(ks, |chains|, c, chains[c])
    ensures CountOf(ks, k, Flat(chains)) == CountOf(ks, k, chains[ks.Bucket(k, |chains|)])
    ensures Without(ks, k, Flat(chains)) == Flat(chains[ks.Bucket(k, |chains|) :=
      Without(ks, k, chains[ks.Bucket(k, |chains|)])])
  {
    var b := ks.Bucket(k, |chains|);
    LacksElsewhere(ks, chains, k);
    FlatParts(chains, b);
    KeyLacking(ks, k, Flat(chains[..b]));
    KeyLacking(ks, k, Flat(chains[b + 1..]));
    KeyConcat(ks, k, Flat(chains[..b]), chains[b]);
    KeyConcat(ks, k, Flat(chains[..b]) + chains[b], Flat(chains[b + 1..]));
    FlatUpdate(chains, b, Without(ks, k, chains[b]));
  }

  /** The nodes with the key are exactly those from place `p` to before place `q`. */
  ghost predicate RangeOf<K(!new), V>(ks: Keys<K, V>, k: K, s: seq<HashNode<V>>, p: nat, q: nat) {
    p <= q <= |s| && forall i :: 0 <= i < |s| ==> (ks.Has(s[i], k) <==> p <= i < q)
  }

  lemma {:induction false} AllHaving<K(!new), V>(ks: Keys<K, V>, k: K, s: seq<HashNode<V>>)
    requires forall i :: 0 <= i < |s| ==> ks.Has(s[i], k)
    ensures CountOf(ks, k, s) == |s| && Without(ks, k, s) == []
  {
    if s != [] {
      AllHaving(ks, k, s[..|s| - 1]);
    }
  }

  /** The range holds as many nodes as are counted, and erasing the key takes out the range. */
  lemma RangeMeaning<K(!new), V>(ks: Keys<K, V>, k: K, s: seq<HashNode<V>>, p: nat, q: nat)
    requires RangeOf(ks, k, s, p, q)
    ensures CountOf(ks, k, s) == q - p && Without(ks, k, s) == s[..p] + s[q..]
  {
    hide CountOf, Without;
    var x, y, z := s[..p], s[p..q], s[q..];
    assert s == x + y + z;
    KeyLacking(ks, k, x);
    AllHaving(ks, k, y);
    KeyLacking(ks, k, z);
    KeyConcat(ks, k, x, y);
    KeyConcat(ks, k, x + y, z);
    assert x + [] == x;
  }

  /** In a grouped sequence, the nodes from the first with the key to the next without it are all with it. */
  lemma RangeFound<K(!new), V>(ks: Keys<K, V>, k: K, s: seq<HashNode<V>>, i: nat, j: nat)
    requires Laws(ks) && Grouped(ks, s) && i < j <= |s| && ks.Has(s[i], k)
    requires Lacks(ks, k, s[..i])
    requires forall m :: i <= m < j ==> ks.Has(s[m], k)
    requires j < |s| ==> !ks.Has(s[j], k)
    ensures RangeOf(ks, k, s, i, j)
  {
    forall m | j < m < |s|
      ensures !ks.Has(s[m], k)
    {
      BetweenHas(ks, k, s, i, j, m);
    }
  }

  lemma BetweenHas<K(!new), V>(ks: Keys<K, V>, k: K, s: seq<HashNode<V>>, i: nat, j: nat, m: nat)
    requires Laws(ks) && Grouped(ks, s) && i < j < m < |s| && ks.Has(s[i], k)
    ensures ks.Has(s[m], k) ==> ks.Has(s[j], k)
  {
    if ks.Has(s[m], k) {
      assert Same(ks, s[i], s[m]);
    }
  }

  /** Place `p` is the first of a node with the key. */
  ghost predicate Leads<K(!new), V>(ks: Keys<K, V>, k: K, s: seq<HashNode<V>>, p: nat) {
    p < |s| && ks.Has(s[p], k) && Lacks(ks, k, s[..p])
  }

  /** Where the nodes with the key end that begin at place `i`. */
  lemma {:induction false} RunEnd<K(!new), V>(ks: Keys<K, V>, k: K, s: seq<HashNode<V>>, i: nat) returns (j: nat)
    requires i < |s| && ks.Has(s[i], k)
    ensures i < j <= |s| && (forall m :: i <= m < j ==> ks.Has(s[m], k)) && (j < |s| ==> !ks.Has(s[j], k))
    decreases |s| - i
  {
    j := i + 1;
    if j < |s| && ks.Has(s[j], k) {
      j := RunEnd(ks, k, s, j);
    }
  }

  lemma RangeLeads<K(!new), V>(ks: Keys<K, V>, k: K, s: seq<HashNode<V>>, p: nat, q: nat)
    requires RangeOf(ks, k, s, p, q) && p < q
    ensures Leads(ks, k, s, p)
  {
  }

  /** A range of the chain of the key is one of the whole. */
  lemma RangeInWhole<K(!new), V>(ks: Keys<K, V>, chains: seq<seq<HashNode<V>>>, k: K, i: nat, j: nat)
    requires |chains| > 0 && Laws(ks) && forall c :: 0 <= c < |chains| ==> Homes(ks, |chains|, c, chains[c])
    requires RangeOf(ks, k, chains[ks.Bucket(k, |chains|)], i, j)
    ensures var o := |Flat(chains[..ks.Bucket(k, |chains|)])|; RangeOf(ks, k, Flat(chains), o + i, o + j)
  {
    var b := ks.Bucket(k, |chains|);
    LacksElsewhere(ks, chains, k);
    FlatParts(chains, b);
    var x, y, z := Flat(chains[..b]), chains[b], Flat(chains[b + 1..]);
    forall m | 0 <= m < |x + y + z|
      ensures ks.Has((x + y + z)[m], k) <==> |x| + i <= m < |x| + j
    {
      if m < |x| {
        assert (x + y + z)[m] == x[m];
      } else if m < |x| + |y| {
        assert (x + y + z)[m] == y[m - |x|];
      } else {
        assert (x + y + z)[m] == z[m - |x| - |y|];
      }
    }
  }

  // ---------- all new buckets ----------

  ghost function Spreads<K(!new), V>(ks: Keys<K, V>, n: nat, s: seq<HashNode<V>>): (t: seq<seq<HashNode<V>>>)
    requires n > 0
    ensures |t| == n && forall b :: 0 <= b < n ==> t[b] == Spread(ks, n, b, s)
  {
    seq(n, b requires 0 <= b < n => Spread(ks, n, b, s))
  }

  lemma FlatEmpty<V>(chains: seq<seq<HashNode<V>>>)
    requires forall b :: 0 <= b < |chains| ==> chains[b] == []
    ensures Flat(chains) == []
  {
    if chains != [] {
      FlatEmpty(chains[..|chains| - 1]);
    }
  }

  /** Spreading keeps exactly the nodes there were. */
  lemma {:induction false} SpreadsSame<K(!new), V>(ks: Keys<K, V>, n: nat, s: seq<HashNode<V>>)
    requires n > 0
    ensures multiset(Flat(Spreads(ks, n, s))) == multiset(s)
  {
    if s == [] {
      FlatEmpty(Spreads(ks, n, s));
    } else {
      hide *;
      var x, r := s[|s| - 1], s[..|s| - 1];
      assert s == r + [x];
      SpreadsSame(ks, n, r);
      SpreadsMore(ks, n, r, x);
    }
  }

  lemma SpreadsMore<K(!new), V>(ks: Keys<K, V>, n: nat, r: seq<HashNode<V>>, x: HashNode<V>)
    requires n > 0 && multiset(Flat(Spreads(ks, n, r))) == multiset(r)
    ensures multiset(Flat(Spreads(ks, n, r + [x]))) == multiset(r + [x])
  {
    hide *;
    SpreadsStep(ks, n, r, x);
    FrontAdded(Spreads(ks, n, r), ks.Bucket(ks.key(x.val), n), x);
    LastAdded(r, x);
  }

  lemma LastAdded<T>(r: seq<T>, x: T)
    ensures multiset(r + [x]) == multiset(r) + multiset{x}
  {
  }

  lemma SpreadsStep<K(!new), V>(ks: Keys<K, V>, n: nat, r: seq<HashNode<V>>, x: HashNode<V>)
    requires n > 0
    ensures var t, b := Spreads(ks, n, r), ks.Bucket(ks.key(x.val), n); Spreads(ks, n, r + [x]) == t[b := [x] + t[b]]
  {
    var s := r + [x];
    assert s[..|s| - 1] == r;
    var t, b := Spreads(ks, n, r), ks.Bucket(ks.key(x.val), n);
    forall c | 0 <= c < n
      ensures Spread(ks, n, c, s) == t[b := [x] + t[b]][c]
    {
      assert [] + Spread(ks, n, c, r) == Spread(ks, n, c, r);
    }
  }

  lemma FrontAdded<V>(t: seq<seq<HashNode<V>>>, b: nat, x: HashNode<V>)
    requires b < |t|
    ensures multiset(Flat(t[b := [x] + t[b]])) == multiset(Flat(t)) + multiset{x}
  {
    hide Flat;
    FlatUpdate(t, b, [x] + t[b]);
    FlatParts(t, b);
    OneMore(Flat(t[..b]), t[b], Flat(t[b + 1..]), x);
  }

  lemma OneMore<T>(a: seq<T>, y: seq<T>, z: seq<T>, x: T)
    ensures multiset(a + ([x] + y) + z) == multiset(a + y + z) + multiset{x}
  {
  }

  // ---------- a node more, a node less ----------

  ghost predicate ChainsOk<K(!new), V>(ks: Keys<K, V>, chains: seq<seq<HashNode<V>>>) {
    Laws(ks) && |chains| > 0 && forall b :: 0 <= b < |chains| ==> ChainOk(ks, |chains|, b, chains[b])
  }

  ghost predicate ChainOk<K(!new), V>(ks: Keys<K, V>, n: nat, b: nat, s: seq<HashNode<V>>)
    requires n > 0
  {
    Distinct(s) && Homes(ks, n, b, s) && Grouped(ks, s)
  }

  /** A node is in one chain only. */
  lemma OneHome<K(!new), V>(ks: Keys<K, V>, chains: seq<seq<HashNode<V>>>, b: nat, i: nat)
    requires ChainsOk(ks, chains) && b < |chains| && i < |chains[b]|
    ensures forall c, j :: 0 <= c < |chains| && c != b && 0 <= j < |chains[c]| ==> chains[c][j] != chains[b][i]
    ensures forall j :: 0 <= j < |chains[b]| && j != i ==> chains[b][j] != chains[b][i]
  {
    assert ChainOk(ks, |chains|, b, chains[b]);
    forall c, j | 0 <= c < |chains| && c != b && 0 <= j < |chains[c]|
      ensures chains[c][j] != chains[b][i]
    {
      assert ChainOk(ks, |chains|, c, chains[c]);
    }
  }

  ghost function Inserted<V>(s: seq<HashNode<V>>, i: nat, x: HashNode<V>): seq<HashNode<V>>
    requires i <= |s|
  {
    s[..i] + [x] + s[i..]
  }

  ghost function Removed<V>(s: seq<HashNode<V>>, i: nat): seq<HashNode<V>>
    requires i < |s|
  {
    s[..i] + s[i + 1..]
  }

  lemma InsertedChain<V>(head: HashNode?<V>, s: seq<HashNode<V>>, i: nat, x: HashNode<V>)
    requires i < |s| && head == s[0] && s[i].next == x && x.next == At(s, i + 1)
    requires forall j :: 0 <= j < |s| && j != i ==> s[j].next == At(s, j + 1)
    ensures Chain(head, Inserted(s, i + 1, x))
  {
    var t := Inserted(s, i + 1, x);
    forall j | 0 <= j < |t|
      ensures t[j].next == At(t, j + 1)
    {
      if j <= i {
        assert t[j] == s[j];
      } else if j > i + 1 {
        assert t[j] == s[j - 1];
      }
    }
  }

  lemma RemovedChain<V>(head: HashNode?<V>, s: seq<HashNode<V>>, i: nat)
    requires i + 1 < |s| && head == s[0] && s[i].next == At(s, i + 2)
    requires forall j :: 0 <= j < |s| && j != i ==> s[j].next == At(s, j + 1)
    ensures Chain(head, Removed(s, i + 1))
  {
    var t := Removed(s, i + 1);
    forall j | 0 <= j < |t|
      ensures t[j].next == At(t, j + 1)
    {
      if j <= i {
        assert t[j] == s[j];
      } else {
        assert t[j] == s[j + 1];
      }
    }
  }

  lemma InsertedOk<K(!new), V>(ks: Keys<K, V>, n: nat, b: nat, s: seq<HashNode<V>>, i: nat, x: HashNode<V>)
    requires n > 0 && Laws(ks) && ChainOk(ks, n, b, s) && i <= |s| && x !in s && ks.Bucket(ks.key(x.val), n) == b
    requires if i == 0 then Lacks(ks, ks.key(x.val), s) else ks.Has(s[i - 1], ks.key(x.val))
    ensures ChainOk(ks, n, b, Inserted(s, i, x))
  {
    hide Laws, Grouped;
    if i == 0 {
      FrontGrouped(ks, s, x);
      assert Inserted(s, i, x) == [x] + s;
    } else {
      BehindGrouped(ks, s, i, x);
    }
  }

  lemma FrontGrouped<K(!new), V>(ks: Keys<K, V>, s: seq<HashNode<V>>, x: HashNode<V>)
    requires Laws(ks) && Grouped(ks, s) && Lacks(ks, ks.key(x.val), s)
    ensures Grouped(ks, [x] + s)
  {
    var t := [x] + s;
    forall j, l, m | 0 <= j < l < m < |t| && Same(ks, t[j], t[m])
      ensures Same(ks, t[j], t[l])
    {
      assert ks.Has(s[m - 1], ks.key(x.val)) <==> Same(ks, x, s[m - 1]);
      assert j > 0 ==> Same(ks, s[j - 1], s[m - 1]);
    }
  }

  lemma BehindGrouped<K(!new), V>(ks: Keys<K, V>, s: seq<HashNode<V>>, i: nat, x: HashNode<V>)
    requires Laws(ks) && Grouped(ks, s) && 0 < i <= |s| && ks.Has(s[i - 1], ks.key(x.val))
    ensures Grouped(ks, Inserted(s, i, x))
  {
    var t := Inserted(s, i, x);
    forall j, l, m | 0 <= j < l < m < |t| && Same(ks, t[j], t[m])
      ensures Same(ks, t[j], t[l])
    {
      InsertedSame(ks, s, i, x, j);
      InsertedSame(ks, s, i, x, l);
      InsertedSame(ks, s, i, x, m);
      hide Inserted;
      var u, v, w := s[if j < i then j else j - 1], s[if l < i then l else l - 1], s[if m < i then m else m - 1];
      assert Same(ks, u, w);
      assert Same(ks, u, v);
    }
  }

  /** Every node after the insertion has the key of one there was, at the place it had. */
  lemma InsertedSame<K(!new), V>(ks: Keys<K, V>, s: seq<HashNode<V>>, i: nat, x: HashNode<V>, j: nat)
    requires Laws(ks) && 0 < i <= |s| && ks.Has(s[i - 1], ks.key(x.val)) && j <= |s|
    ensures Same(ks, Inserted(s, i, x)[j], s[if j < i then j else j - 1])
    ensures Same(ks, s[if j < i then j else j - 1], Inserted(s, i, x)[j])
  {
  }

  lemma RemovedOk<K(!new), V>(ks: Keys<K, V>, n: nat, b: nat, s: seq<HashNode<V>>, i: nat)
    requires n > 0 && ChainOk(ks, n, b, s) && i < |s|
    ensures ChainOk(ks, n, b, Removed(s, i))
  {
    var t := Removed(s, i);
    var back := (q: int) => if q < i then q else q + 1;
    assert forall q :: 0 <= q < |t| ==> t[q] == s[back(q)];
    forall j, l, m | 0 <= j < l < m < |t| && Same(ks, t[j], t[m])
      ensures Same(ks, t[j], t[l])
    {
      assert Same(ks, s[back(j)], s[back(m)]);
    }
  }

  lemma UpdatedOk<K(!new), V>(ks: Keys<K, V>, chains: seq<seq<HashNode<V>>>, b: nat, s: seq<HashNode<V>>)
    requires ChainsOk(ks, chains) && b < |chains| && ChainOk(ks, |chains|, b, s)
    ensures ChainsOk(ks, chains[b := s])
  {
  }

  lemma ChainsPart<K(!new), V>(ks: Keys<K, V>, chains: seq<seq<HashNode<V>>>, b: nat)
    requires ChainsOk(ks, chains) && b < |chains|
    ensures Laws(ks) && ChainOk(ks, |chains|, b, chains[b])
  {
  }

  lemma ChainsHomes<K(!new), V>(ks: Keys<K, V>, chains: seq<seq<HashNode<V>>>)
    requires ChainsOk(ks, chains)
    ensures forall b :: 0 <= b < |chains| ==> Homes(ks, |chains|, b, chains[b])
  {
    forall b | 0 <= b < |chains|
      ensures Homes(ks, |chains|, b, chains[b])
    {
      assert ChainOk(ks, |chains|, b, chains[b]);
    }
  }

  lemma NoRange<K(!new), V>(ks: Keys<K, V>, chains: seq<seq<HashNode<V>>>, k: K)
    requires ChainsOk(ks, chains) && Lacks(ks, k, chains[ks.Bucket(k, |chains|)])
    ensures Lacks(ks, k, Flat(chains)) && RangeOf(ks, k, Flat(chains), |Flat(chains)|, |Flat(chains)|)
    ensures At(Flat(chains), |Flat(chains)|) == null
  {
    var b := ks.Bucket(k, |chains|);
    assert Lacks(ks, k, chains[b]);
    ChainsHomes(ks, chains);
    LacksElsewhere(ks, chains, k);
    FlatParts(chains, b);
  }

  lemma WholeRange<K(!new), V>(ks: Keys<K, V>, chains: seq<seq<HashNode<V>>>, k: K, b: nat, s: seq<HashNode<V>>,
                     i: nat, j: nat)
    requires ChainsOk(ks, chains) && b == ks.Bucket(k, |chains|) && s == chains[b] && i < j <= |s|
    requires Lacks(ks, k, s[..i]) && (forall m :: i <= m < j ==> ks.Has(s[m], k)) && (j < |s| ==> !ks.Has(s[j], k))
    ensures RangeOf(ks, k, Flat(chains), |Flat(chains[..b])| + i, |Flat(chains[..b])| + j)
    ensures s[i] == At(Flat(chains), |Flat(chains[..b])| + i) && |Flat(chains[..b + 1])| == |Flat(chains[..b])| + |s|
    ensures j < |s| ==> s[j] == At(Flat(chains), |Flat(chains[..b])| + j)
  {
    hide Flat, Lacks, RangeOf, Homes, Grouped, Distinct;
    ChainsPart(ks, chains, b);
    ChainsHomes(ks, chains);
    RangeFound(ks, k, s, i, j);
    RangeInWhole(ks, chains, k, i, j);
    InFlat(chains, b, i);
    FlatParts(chains, b);
    if j < |s| {
      InFlat(chains, b, j);
    }
  }

  /** The first node of the chain with the key is the first of the whole. */
  lemma LeadsWhole<K(!new), V>(ks: Keys<K, V>, chains: seq<seq<HashNode<V>>>, k: K, b: nat, i: nat) returns (q: nat)
    requires ChainsOk(ks, chains) && b == ks.Bucket(k, |chains|) && i < |chains[b]| && ks.Has(chains[b][i], k)
    requires Lacks(ks, k, chains[b][..i])
    ensures RangeOf(ks, k, Flat(chains), |Flat(chains[..b])| + i, q)
    ensures Leads(ks, k, Flat(chains), |Flat(chains[..b])| + i)
    ensures chains[b][i] == At(Flat(chains), |Flat(chains[..b])| + i)
    ensures q > |Flat(chains[..b])| + i
  {
    hide Flat, Lacks, RangeOf, Homes, Grouped, Distinct, Leads;
    var j := RunEnd(ks, k, chains[b], i);
    WholeRange(ks, chains, k, b, chains[b], i, j);
    q := |Flat(chains[..b])| + j;
    RangeLeads(ks, k, Flat(chains), |Flat(chains[..b])| + i, q);
  }

  lemma DistinctPart<K(!new), V>(ks: Keys<K, V>, n: nat, b: nat, s: seq<HashNode<V>>)
    requires n > 0 && ChainOk(ks, n, b, s)
    ensures Distinct(s)
  {
  }

  /** Taking a node out of a chain takes it out of the whole. */
  lemma RemovedWhole<V>(chains: seq<seq<HashNode<V>>>, b: nat, i: nat)
    requires b < |chains| && i < |chains[b]|
    ensures |Flat(chains[..b])| + i < |Flat(chains)|
    ensures Flat(chains[b := Removed(chains[b], i)]) == Removed(Flat(chains), |Flat(chains[..b])| + i)
  {
    hide Flat;
    FlatParts(chains, b);
    FlatUpdate(chains, b, Removed(chains[b], i));
    var x, y, z := Flat(chains[..b]), chains[b], Flat(chains[b + 1..]);
    RemovedMiddle(x, y, z, i);
  }

  lemma RemovedMiddle<V>(x: seq<HashNode<V>>, y: seq<HashNode<V>>, z: seq<HashNode<V>>, i: nat)
    requires i < |y|
    ensures x + Removed(y, i) + z == Removed(x + y + z, |x| + i)
  {
  }

  lemma InsertedWhole<V>(chains: seq<seq<HashNode<V>>>, b: nat, i: nat, x: HashNode<V>)
    requires b < |chains| && i <= |chains[b]|
    ensures |Flat(chains[..b])| + i <= |Flat(chains)|
    ensures Flat(chains[b := Inserted(chains[b], i, x)]) == Inserted(Flat(chains), |Flat(chains[..b])| + i, x)
  {
    hide Flat;
    FlatParts(chains, b);
    FlatUpdate(chains, b, Inserted(chains[b], i, x));
    InsertedMiddle(Flat(chains[..b]), chains[b], Flat(chains[b + 1..]), i, x);
  }

  lemma InsertedMiddle<V>(x: seq<HashNode<V>>, y: seq<HashNode<V>>, z: seq<HashNode<V>>, i: nat, n: HashNode<V>)
    requires i <= |y|
    ensures x + Inserted(y, i, n) + z == Inserted(x + y + z, |x| + i, n)
  {
  }

  lemma RemovedKey<K(!new), V>(ks: Keys<K, V>, k: K, s: seq<HashNode<V>>, i: nat)
    requires i < |s| && ks.Has(s[i], k)
    ensures Without(ks, k, Removed(s, i)) == Without(ks, k, s)
    ensures CountOf(ks, k, Removed(s, i)) + 1 == CountOf(ks, k, s)
  {
    var x, y, z := s[..i], [s[i]], s[i + 1..];
    AllHaving(ks, k, y);
    hide CountOf, Without;
    assert s == x + y + z;
    KeyConcat(ks, k, x, y);
    KeyConcat(ks, k, x + y, z);
    KeyConcat(ks, k, x, z);
    assert Without(ks, k, x) + [] == Without(ks, k, x);
  }

  lemma RemovedNodes<V>(chains: seq<seq<HashNode<V>>>, b: nat, i: nat)
    requires b < |chains| && i < |chains[b]|
    ensures NodeSet(chains[b := Removed(chains[b], i)]) <= NodeSet(chains)
  {
    var s := chains[b];
    forall x | x in NodeSet(chains[b := Removed(s, i)])
      ensures x in NodeSet(chains)
    {
      var c, j :| 0 <= c < |chains| && 0 <= j < |chains[b := Removed(s, i)][c]| &&
        chains[b := Removed(s, i)][c][j] == x;
      if c == b {
        assert x == s[if j < i then j else j + 1];
      } else {
        assert x == chains[c][j];
      }
    }
  }

  lemma NodeInSet<V>(chains: seq<seq<HashNode<V>>>, b: nat, i: nat)
    requires b < |chains| && i < |chains[b]|
    ensures chains[b][i] in NodeSet(chains)
  {
  }

  lemma NoKeys<K(!new), V>(ks: Keys<K, V>, k: K, s: seq<HashNode<V>>)
    requires At(s, 0) == null
    ensures CountOf(ks, k, s) == 0 && Without(ks, k, s) == s
  {
  }

  /** When all but the first lack the key, what is without the key is known. */
  lemma TailLacks<K(!new), V>(ks: Keys<K, V>, k: K, s: seq<HashNode<V>>)
    requires s != [] && Lacks(ks, k, s[1..])
    ensures Without(ks, k, s) == if ks.Has(s[0], k) then Removed(s, 0) else s
    ensures CountOf(ks, k, s) == if ks.Has(s[0], k) then 1 else 0
  {
    KeyLacking(ks, k, s[1..]);
    KeyConcat(ks, k, [s[0]], s[1..]);
    assert [s[0]] + s[1..] == s && Removed(s, 0) == s[1..];
  }

  lemma EmptyOk<K(!new), V>(ks: Keys<K, V>, chains: seq<seq<HashNode<V>>>)
    requires Laws(ks) && |chains| > 0 && forall b :: 0 <= b < |chains| ==> chains[b] == []
    ensures ChainsOk(ks, chains)
  {
  }
}
