/** Moving all nodes of a hash table to new buckets. */
module HashResize {
  import opened Sequences
  import opened HashChains

  /** Each bucket of the table is the head of its chain. */
  ghost predicate TableOk<V>(table: array<HashNode?<V>>, chains: seq<seq<HashNode<V>>>)
    reads table, NodeSet(chains)
  {
    |chains| == table.Length && forall c :: 0 <= c < |chains| ==> Chain(table[c], chains[c])
  }

  /** What is left of the chains when those before `b` have been moved and `i` nodes of that one. */
  ghost function Rest<V>(was: seq<seq<HashNode<V>>>, b: nat, i: nat): (r: seq<seq<HashNode<V>>>)
    requires b < |was| ==> i <= |was[b]|
    ensures |r| == |was|
    ensures forall c :: 0 <= c < |was| ==> r[c] == if c < b then [] else if c == b then was[b][i..] else was[c]
  {
    seq(|was|, c requires 0 <= c < |was| => if c < b then [] else if c == b then was[b][i..] else was[c])
  }

  /** A table with one node taken from the front of a chain. */
  method TakeFirst<V>(table: array<HashNode?<V>>, b: nat, ghost chains: seq<seq<HashNode<V>>>) returns (x: HashNode<V>)
    requires TableOk(table, chains) && b < |chains| && chains[b] != []
    modifies table
    ensures x == chains[b][0] && TableOk(table, chains[b := chains[b][1..]])
    ensures forall c :: 0 <= c < table.Length && c != b ==> table[c] == old(table[c])
  {
    hide NodeSet;
    assert Chain(table[b], chains[b]);
    x := table[b];
    table[b] := x.next;
    ghost var r := chains[b := chains[b][1..]];
    forall c | 0 <= c < |r|
      ensures Chain(table[c], r[c])
    {
      assert Chain(old(table[c]), chains[c]);
    }
  }

  /** A node put to the front of a chain. */
  method PutFirst<V>(table: array<HashNode?<V>>, b: nat, x: HashNode<V>, ghost chains: seq<seq<HashNode<V>>>)
    requires TableOk(table, chains) && b < |chains| && x !in NodeSet(chains)
    modifies table, x
    ensures TableOk(table, chains[b := [x] + chains[b]])
  {
    ghost var r := chains[b := [x] + chains[b]];
    assert forall c, j :: 0 <= c < |chains| && 0 <= j < |chains[c]| ==> chains[c][j] != x;
    hide NodeSet;
    x.next := table[b];
    table[b] := x;
    forall c | 0 <= c < |r|
      ensures Chain(table[c], r[c])
    {
      assert old(Chain(table[c], chains[c]));
    }
  }

  lemma SpreadLacks<K(!new), V>(ks: Keys<K, V>, n: nat, s: seq<HashNode<V>>, x: HashNode<V>)
    requires n > 0 && x !in s
    ensures x !in NodeSet(Spreads(ks, n, s))
  {
    var t := Spreads(ks, n, s);
    if x in NodeSet(t) {
      var b, i :| 0 <= b < |t| && 0 <= i < |t[b]| && t[b][i] == x;
      var p, q := SpreadPlaces(ks, n, b, s, i, i);
    }
  }

  /** The node to be moved is none of those that have been, and is at one place only of the rest. */
  lemma NextIsNew<K(!new), V>(ks: Keys<K, V>, was: seq<seq<HashNode<V>>>, n: nat, b: nat, i: nat, p: nat)
    requires n > 0 && ChainsOk(ks, was) && b < |was| && i < |was[b]| && p == |Flat(was[..b])| + i
    ensures p < |Flat(was)| && was[b][i] == Flat(was)[p]
    ensures was[b][i] !in NodeSet(Spreads(ks, n, Flat(was)[..p]))
    ensures was[b][i] !in NodeSet(Rest(was, b, i + 1))
  {
    hide Spread, Spreads, Flat, Grouped;
    forall c | 0 <= c < |was|
      ensures Homes(ks, |was|, c, was[c]) && Distinct(was[c]) && Grouped(ks, was[c])
    {
      ChainsPart(ks, was, c);
    }
    FlatOk(ks, was);
    InFlat(was, b, i);
    SpreadLacks(ks, n, Flat(was)[..p], was[b][i]);
    OneHome(ks, was, b, i);
    NotInRest(was, b, i);
  }

  lemma NotInRest<V>(was: seq<seq<HashNode<V>>>, b: nat, i: nat)
    requires b < |was| && i < |was[b]|
    requires forall c, j :: 0 <= c < |was| && c != b && 0 <= j < |was[c]| ==> was[c][j] != was[b][i]
    requires forall j :: 0 <= j < |was[b]| && j != i ==> was[b][j] != was[b][i]
    ensures was[b][i] !in NodeSet(Rest(was, b, i + 1))
  {
    var r := Rest(was, b, i + 1);
    forall c, j | 0 <= c < |r| && 0 <= j < |r[c]|
      ensures r[c][j] != was[b][i]
    {
      if c == b {
        assert r[c][j] == was[b][i + 1 + j];
      } else {
        assert c > b && r[c][j] == was[c][j];
      }
    }
  }

  twostate lemma ChainUnchanged<V>(new head: HashNode?<V>, s: seq<HashNode<V>>)
    requires old(allocated(head)) && old(Chain(head, s)) && forall j :: 0 <= j < |s| ==> s[j].next == old(s[j].next)
    ensures Chain(head, s)
  {
  }

  /** One round of the inner loop: a node goes to the front of its new chain. */
  method MoveOne<K(!new), V>(ks: Keys<K, V>, buckets: array<HashNode?<V>>, tmp: array<HashNode?<V>>, b: nat,
                             ghost was: seq<seq<HashNode<V>>>, ghost i: nat, ghost p: nat)
    requires buckets != tmp && tmp.Length > 0 && ChainsOk(ks, was)
    requires b < |was| && i < |was[b]| && p == |Flat(was[..b])| + i && p < |Flat(was)|
    requires TableOk(buckets, Rest(was, b, i)) && TableOk(tmp, Spreads(ks, tmp.Length, Flat(was)[..p]))
    modifies buckets, tmp, was[b][i]
    ensures TableOk(buckets, Rest(was, b, i + 1)) && TableOk(tmp, Spreads(ks, tmp.Length, Flat(was)[..p + 1]))
  {
    hide Flat, ChainsOk, Spreads, Spread, Rest, Chain;
    ghost var r, t := Rest(was, b, i), Spreads(ks, tmp.Length, Flat(was)[..p]);
    NextIsNew(ks, was, tmp.Length, b, i, p);
    var first := TakeFirst(buckets, b, r);
    assert r[b := r[b][1..]] == Rest(was, b, i + 1);
    assert TableOk(tmp, t) by {
      forall c | 0 <= c < |t|
        ensures Chain(tmp[c], t[c])
      {
        assert old(Chain(tmp[c], t[c]));
        assert forall j :: 0 <= j < |t[c]| ==> t[c][j].next == old(t[c][j].next);
        ChainUnchanged(tmp[c], t[c]);
      }
    }
    var newBucket := ks.Bucket(ks.key(first.val), tmp.Length);
    PutFirst(tmp, newBucket, first, t);
    SpreadsStep(ks, tmp.Length, Flat(was)[..p], first);
    assert Flat(was)[..p] + [first] == Flat(was)[..p + 1];
  }

  /** The outer loop. */
  method MoveAll<K(!new), V>(ks: Keys<K, V>, buckets: array<HashNode?<V>>, tmp: array<HashNode?<V>>,
                   ghost was: seq<seq<HashNode<V>>>)
    requires buckets != tmp && tmp.Length > 0 && ChainsOk(ks, was)
    requires TableOk(buckets, was) && forall c :: 0 <= c < tmp.Length ==> tmp[c] == null
    modifies buckets, tmp, NodeSet(was)
    ensures TableOk(tmp, Spreads(ks, tmp.Length, Flat(was)))
  {
    hide NodeSet, ChainsOk, Chain, Flat, Rest, TableOk, Spreads;
    MoveStarts(ks, was, tmp);
    NotEmpty(ks, was);
    TableSize(buckets, was);
    PrefixShorter(was, 0);
    var bucket: nat := 0;
    while bucket < buckets.Length
      invariant bucket <= buckets.Length == |was| && |Flat(was[..bucket])| <= |Flat(was)|
      invariant TableOk(buckets, Rest(was, bucket, 0)) &&
        TableOk(tmp, Spreads(ks, tmp.Length, Flat(was)[..|Flat(was[..bucket])|]))
    {
      ghost var i: nat := 0;
      FlatParts(was, bucket);
      while buckets[bucket] != null
        invariant i <= |was[bucket]|
        invariant TableOk(buckets, Rest(was, bucket, i)) &&
          TableOk(tmp, Spreads(ks, tmp.Length, Flat(was)[..|Flat(was[..bucket])| + i]))
        decreases |was[bucket]| - i
      {
        HeadOf(buckets, was, bucket, i);
        NodeInSet(was, bucket, i);
        MoveOne(ks, buckets, tmp, bucket, was, i, |Flat(was[..bucket])| + i);
        i := i + 1;
      }
      HeadOf(buckets, was, bucket, i);
      RestNext(was, bucket);
      PrefixShorter(was, bucket + 1);
      bucket := bucket + 1;
    }
    assert was[..bucket] == was && Flat(was)[..|Flat(was)|] == Flat(was);
  }

  lemma HeadOf<V>(buckets: array<HashNode?<V>>, was: seq<seq<HashNode<V>>>, b: nat, i: nat)
    requires b < |was| && i <= |was[b]| && TableOk(buckets, Rest(was, b, i))
    ensures buckets[b] == null <==> i == |was[b]|
  {
    assert Chain(buckets[b], Rest(was, b, i)[b]);
  }

  lemma MoveStarts<K(!new), V>(ks: Keys<K, V>, was: seq<seq<HashNode<V>>>, tmp: array<HashNode?<V>>)
    requires tmp.Length > 0 && ChainsOk(ks, was) && forall c :: 0 <= c < tmp.Length ==> tmp[c] == null
    ensures Rest(was, 0, 0) == was && TableOk(tmp, Spreads(ks, tmp.Length, Flat(was)[..|Flat(was[..0])|]))
  {
    assert was[0][0..] == was[0] && was[..0] == [];
  }

  lemma RestNext<V>(was: seq<seq<HashNode<V>>>, b: nat)
    requires b < |was|
    ensures Rest(was, b, |was[b]|) == Rest(was, b + 1, 0)
  {
    var r, t := Rest(was, b, |was[b]|), Rest(was, b + 1, 0);
    assert b + 1 < |was| ==> was[b + 1][0..] == was[b + 1];
  }

  lemma NotEmpty<K(!new), V>(ks: Keys<K, V>, was: seq<seq<HashNode<V>>>)
    requires ChainsOk(ks, was)
    ensures |was| > 0
  {
  }

  lemma TableSize<V>(table: array<HashNode?<V>>, chains: seq<seq<HashNode<V>>>)
    requires TableOk(table, chains)
    ensures |chains| == table.Length
  {
  }

  lemma SpreadsOk<K(!new), V>(ks: Keys<K, V>, was: seq<seq<HashNode<V>>>, n: nat)
    requires n > 0 && ChainsOk(ks, was)
    ensures ChainsOk(ks, Spreads(ks, n, Flat(was))) && |Spreads(ks, n, Flat(was))| == n
    ensures multiset(Flat(Spreads(ks, n, Flat(was)))) == multiset(Flat(was))
    ensures |Flat(Spreads(ks, n, Flat(was)))| == |Flat(was)|
  {
    hide Spread, Flat, Grouped, Distinct, Homes, Laws;
    ChainsPart(ks, was, 0);
    forall c | 0 <= c < |was|
      ensures Homes(ks, |was|, c, was[c]) && Distinct(was[c]) && Grouped(ks, was[c])
    {
      assert ChainOk(ks, |was|, c, was[c]);
    }
    FlatOk(ks, was);
    var t := Spreads(ks, n, Flat(was));
    forall b | 0 <= b < n
      ensures ChainOk(ks, n, b, t[b])
    {
      SpreadOk(ks, n, b, Flat(was));
    }
    SpreadsSame(ks, n, Flat(was));
    assert |multiset(Flat(t))| == |Flat(t)| && |multiset(Flat(was))| == |Flat(was)|;
  }

  lemma TableMeans<V>(table: array<HashNode?<V>>, chains: seq<seq<HashNode<V>>>)
    requires TableOk(table, chains)
    ensures |chains| == table.Length && forall c :: 0 <= c < |chains| ==> Chain(table[c], chains[c])
  {
  }

  lemma LacksSame<K(!new), V>(ks: Keys<K, V>, k: K, s: seq<HashNode<V>>, t: seq<HashNode<V>>)
    requires multiset(s) == multiset(t)
    ensures Lacks(ks, k, s) == Lacks(ks, k, t)
    ensures forall x :: x in s <==> x in t
  {
    forall x
      ensures x in s <==> x in t
    {
      assert x in s <==> x in multiset(s);
      assert x in t <==> x in multiset(t);
    }
    assert forall i :: 0 <= i < |s| ==> s[i] in t;
    assert forall i :: 0 <= i < |t| ==> t[i] in s;
  }

  lemma InsertedCounts<V>(s: seq<HashNode<V>>, p: nat, x: HashNode<V>)
    requires p <= |s|
    ensures multiset(Inserted(s, p, x)) == multiset(s) + multiset{x}
  {
    assert s == s[..p] + s[p..];
  }

  lemma SameNodes<V>(chains: seq<seq<HashNode<V>>>, other: seq<seq<HashNode<V>>>)
    requires multiset(Flat(chains)) == multiset(Flat(other))
    ensures NodeSet(chains) == NodeSet(other)
  {
    NodeSetIsFlat(chains);
    NodeSetIsFlat(other);
    forall x
      ensures x in NodeSet(chains) <==> x in NodeSet(other)
    {
      assert x in Flat(chains) <==> x in multiset(Flat(chains));
      assert x in Flat(other) <==> x in multiset(Flat(other));
    }
  }
}
