/** The chunked free-list allocator: who owns every eight-byte unit obtained from `malloc`. */
module Allocator {
  import opened Options

  const ALIGN: nat := 8
  const MAX_BYTES: nat := 128
  const FREE_LISTS: nat := 16
  const REFILL: nat := 20

  /** `_S_round_up`. */
  function RoundUp(bytes: nat): nat {
    (bytes + 7) / 8 * 8
  }

  /** `_S_freelist_index`. */
  function FreelistIndex(bytes: nat): nat
    requires bytes > 0
  {
    (bytes + 7) / 8 - 1
  }

  /** The rounded size belongs to the same class, and is the size of that class. */
  lemma ClassSize(bytes: nat)
    requires 0 < bytes
    ensures RoundUp(bytes) == 8 * (FreelistIndex(bytes) + 1) >= bytes &&
      FreelistIndex(RoundUp(bytes)) == FreelistIndex(bytes)
    ensures bytes <= MAX_BYTES ==> FreelistIndex(bytes) < FREE_LISTS
    ensures bytes % 8 == 0 ==> RoundUp(bytes) == bytes
  {
  }

  // ---------- who owns what ----------

  /** The owner of a unit: the pool, the run being cut up by a refill, a block on the free list
      of a class, or a block of that class that a client holds. The blocks of classes from
      `FREE_LISTS` on come straight from `malloc`. */
  datatype Owner = Pool | Handed | Free(block: nat, cls: nat) | Out(block: nat, cls: nat)

  ghost predicate InBlock(u: nat, block: nat, cls: nat) {
    block <= u < block + 8 * (cls + 1) && u % 8 == 0
  }

  /** All units of a block have this owner. */
  ghost predicate Whole(units: map<nat, Owner>, block: nat, cls: nat, owner: Owner) {
    block > 0 && block % 8 == 0 && forall u: nat :: InBlock(u, block, cls) ==> u in units && units[u] == owner
  }

  /** Exactly the units of this run have this owner. */
  ghost predicate Run(units: map<nat, Owner>, from: nat, to: nat, owner: Owner) {
    && (from < to ==> from > 0 && from % 8 == 0 && to % 8 == 0)
    && (forall u: nat :: from <= u < to && u % 8 == 0 ==> u in units && units[u] == owner)
    && (forall u: nat :: u in units && units[u] == owner ==> from <= u < to)
  }

  /** The free blocks are whole, on the list of their class, and there once. */
  ghost predicate FreeOk(units: map<nat, Owner>, lists: seq<seq<nat>>) {
    && |lists| == FREE_LISTS
    && (forall u: nat :: u in units && units[u].Free? ==>
          units[u].cls < FREE_LISTS && units[u].block in lists[units[u].cls] &&
            InBlock(u, units[u].block, units[u].cls))
    && (forall c: nat, i: nat :: c < FREE_LISTS && i < |lists[c]| ==>
      Whole(units, lists[c][i], c, Free(lists[c][i], c)))
    && (forall c: nat, i: nat, j: nat :: c < FREE_LISTS && i < j < |lists[c]| ==> lists[c][i] != lists[c][j])
  }

  /** The blocks that clients hold are whole. */
  ghost predicate OutOk(units: map<nat, Owner>) {
    forall u: nat :: u in units && units[u].Out? ==>
      InBlock(u, units[u].block, units[u].cls) && Whole(units, units[u].block, units[u].cls, units[u])
  }

  /** Every unit has one owner: the pool from `start` to `end`, the run from `h` to `hEnd`, the
      blocks of the lists, the blocks that are out. */
  ghost predicate Owned(units: map<nat, Owner>, lists: seq<seq<nat>>, start: nat, end: nat, h: nat, hEnd: nat) {
    && Aligned(units) && start <= end && h <= hEnd
    && Run(units, start, end, Pool) && Run(units, h, hEnd, Handed)
    && FreeOk(units, lists) && OutOk(units)
  }

  /** The units of a run given another owner. */
  ghost function Given(units: map<nat, Owner>, from: nat, to: nat, owner: Owner): map<nat, Owner> {
    map u | u in units :: if from <= u < to then owner else units[u]
  }

  ghost predicate Large(o: Owner) {
    o.Out? && o.cls >= FREE_LISTS
  }

  /** The units that the free lists and the pool are made of: all but those of large blocks. */
  ghost function Arena(units: map<nat, Owner>): set<nat> {
    set u | u in units && !Large(units[u])
  }

  lemma GivenSame(units: map<nat, Owner>, from: nat, to: nat, was: Owner, owner: Owner)
    requires Aligned(units) && Held(units, from, to, was) && !Large(was) && !Large(owner)
    ensures Given(units, from, to, owner).Keys == units.Keys && Arena(Given(units, from, to, owner)) == Arena(units)
  {
    var g := Given(units, from, to, owner);
    assert g.Keys == units.Keys;
    forall u | u in units
      ensures Large(g[u]) <==> Large(units[u])
    {
    }
  }

  ghost predicate Aligned(units: map<nat, Owner>) {
    forall u: nat :: u in units ==> u % 8 == 0
  }

  // A run of one owner, given to another: what that does to each part.

  lemma RunKept(units: map<nat, Owner>, from: nat, to: nat, was: Owner, owner: Owner, a: nat, b: nat, other: Owner)
    requires Aligned(units) && Held(units, from, to, was) && Run(units, a, b, other) && other != was && other != owner
    ensures Run(Given(units, from, to, owner), a, b, other)
  {
    var g := Given(units, from, to, owner);
    forall u: nat | a <= u < b && u % 8 == 0
      ensures u in g && g[u] == other
    {
      assert u in units && units[u] == other;
    }
  }

  /** All units of the run have this owner. */
  ghost predicate Held(units: map<nat, Owner>, from: nat, to: nat, owner: Owner) {
    forall u: nat :: from <= u < to && u % 8 == 0 ==> u in units && units[u] == owner
  }

  lemma RunCut(units: map<nat, Owner>, from: nat, mid: nat, to: nat, was: Owner, owner: Owner)
    requires Aligned(units) && Run(units, from, to, was) && from <= mid <= to && mid % 8 == 0 && owner != was
    ensures Run(Given(units, from, mid, owner), mid, to, was)
  {
  }

  lemma RunMade(units: map<nat, Owner>, from: nat, to: nat, was: Owner, owner: Owner)
    requires Aligned(units) && Held(units, from, to, was) && Run(units, 0, 0, owner) && 0 < from && from % 8 == 0 &&
      to % 8 == 0
    ensures Run(Given(units, from, to, owner), from, to, owner)
  {
  }

  lemma WholeKept(units: map<nat, Owner>, from: nat, to: nat, was: Owner, owner: Owner, b: nat, c: nat, other: Owner)
    requires Aligned(units) && Held(units, from, to, was) && Whole(units, b, c, other) && other != was
    ensures Whole(Given(units, from, to, owner), b, c, other)
  {
  }

  lemma WholeMade(units: map<nat, Owner>, b: nat, c: nat, was: Owner, owner: Owner)
    requires Held(units, b, b + 8 * (c + 1), was) && 0 < b && b % 8 == 0
    ensures Whole(Given(units, b, b + 8 * (c + 1), owner), b, c, owner)
  {
  }

  lemma FreeKept(units: map<nat, Owner>, lists: seq<seq<nat>>, from: nat, to: nat, was: Owner, owner: Owner)
    requires Aligned(units) && FreeOk(units, lists) && Held(units, from, to, was) && !was.Free? && !owner.Free?
    ensures FreeOk(Given(units, from, to, owner), lists)
  {
    var g := Given(units, from, to, owner);
    forall c: nat, i: nat | c < FREE_LISTS && i < |lists[c]|
      ensures Whole(g, lists[c][i], c, Free(lists[c][i], c))
    {
      WholeKept(units, from, to, was, owner, lists[c][i], c, Free(lists[c][i], c));
    }
  }

  /** A block joins its list, at the front or at the back. */
  lemma FreeAdded(units: map<nat, Owner>, lists: seq<seq<nat>>, b: nat, c: nat, was: Owner, list: seq<nat>)
    requires Aligned(units) && FreeOk(units, lists) && c < FREE_LISTS && 0 < b && b % 8 == 0
    requires Held(units, b, b + 8 * (c + 1), was) && !was.Free?
    requires list == [b] + lists[c] || list == lists[c] + [b]
    ensures FreeOk(Given(units, b, b + 8 * (c + 1), Free(b, c)), lists[c := list])
  {
    var g, next := Given(units, b, b + 8 * (c + 1), Free(b, c)), lists[c := list];
    assert InBlock(b, b, c);
    WholeMade(units, b, c, was, Free(b, c));
    NotListed(units, lists, b, c);
    forall d: nat, i: nat | d < FREE_LISTS && i < |next[d]|
      ensures Whole(g, next[d][i], d, Free(next[d][i], d))
    {
      var x := next[d][i];
      if !(d == c && x == b) {
        assert x in lists[d];
        var k: nat :| k < |lists[d]| && lists[d][k] == x;
        WholeKept(units, b, b + 8 * (c + 1), was, Free(b, c), x, d, Free(x, d));
      }
    }
    assert b in list;
    assert forall x :: x in lists[c] ==> x in list;
  }

  lemma NotListed(units: map<nat, Owner>, lists: seq<seq<nat>>, b: nat, c: nat)
    requires FreeOk(units, lists) && c < FREE_LISTS && b in units && !units[b].Free?
    ensures b !in lists[c]
  {
    if b in lists[c] {
      var k: nat :| k < |lists[c]| && lists[c][k] == b;
      assert Whole(units, b, c, Free(b, c)) && InBlock(b, b, c);
    }
  }

  /** The first block leaves its list. */
  lemma FreeRemoved(units: map<nat, Owner>, lists: seq<seq<nat>>, c: nat, owner: Owner)
    requires Aligned(units) && FreeOk(units, lists) && c < FREE_LISTS && lists[c] != [] && !owner.Free?
    ensures var b := lists[c][0];
            && Held(units, b, b + 8 * (c + 1), Free(b, c)) && 0 < b && b % 8 == 0
            && FreeOk(Given(units, b, b + 8 * (c + 1), owner), lists[c := lists[c][1..]])
  {
    var b := lists[c][0];
    var g, next := Given(units, b, b + 8 * (c + 1), owner), lists[c := lists[c][1..]];
    assert Whole(units, b, c, Free(b, c));
    forall u: nat | b <= u < b + 8 * (c + 1) && u % 8 == 0
      ensures u in units && units[u] == Free(b, c)
    {
      assert InBlock(u, b, c);
    }
    forall d: nat, i: nat | d < FREE_LISTS && i < |next[d]|
      ensures Whole(g, next[d][i], d, Free(next[d][i], d))
    {
      var x := next[d][i];
      var k := if d == c then i + 1 else i;
      assert lists[d][k] == x && (d == c ==> x != b);
      WholeKept(units, b, b + 8 * (c + 1), Free(b, c), owner, x, d, Free(x, d));
    }
    forall u: nat | u in g && g[u].Free?
      ensures g[u].cls < FREE_LISTS && g[u].block in next[g[u].cls] && InBlock(u, g[u].block, g[u].cls)
    {
      var x, d := units[u].block, units[u].cls;
      assert x in lists[d];
      var k: nat :| k < |lists[d]| && lists[d][k] == x;
      if d == c && k > 0 { assert next[d][k - 1] == x; }
    }
  }

  lemma OutKept(units: map<nat, Owner>, from: nat, to: nat, was: Owner, owner: Owner)
    requires Aligned(units) && OutOk(units) && Held(units, from, to, was) && !was.Out? && !owner.Out?
    ensures OutOk(Given(units, from, to, owner))
  {
    var g := Given(units, from, to, owner);
    forall u: nat | u in g && g[u].Out?
      ensures Whole(g, g[u].block, g[u].cls, g[u])
    {
      WholeKept(units, from, to, was, owner, units[u].block, units[u].cls, units[u]);
    }
  }

  lemma OutAdded(units: map<nat, Owner>, b: nat, c: nat, was: Owner)
    requires Aligned(units) && OutOk(units) && c < FREE_LISTS && 0 < b && b % 8 == 0
    requires Held(units, b, b + 8 * (c + 1), was) && !was.Out?
    ensures var g := Given(units, b, b + 8 * (c + 1), Out(b, c)); OutOk(g) && Whole(g, b, c, Out(b, c))
  {
    var g := Given(units, b, b + 8 * (c + 1), Out(b, c));
    WholeMade(units, b, c, was, Out(b, c));
    forall u: nat | u in g && g[u].Out?
      ensures InBlock(u, g[u].block, g[u].cls) && Whole(g, g[u].block, g[u].cls, g[u])
    {
      if !(b <= u < b + 8 * (c + 1)) {
        WholeKept(units, b, b + 8 * (c + 1), was, Out(b, c), units[u].block, units[u].cls, units[u]);
      }
    }
  }

  lemma OutRemoved(units: map<nat, Owner>, b: nat, c: nat, owner: Owner)
    requires Aligned(units) && OutOk(units) && b in units && units[b] == Out(b, c) && !owner.Out?
    ensures Held(units, b, b + 8 * (c + 1), Out(b, c)) && 0 < b && b % 8 == 0
    ensures OutOk(Given(units, b, b + 8 * (c + 1), owner))
  {
    var g := Given(units, b, b + 8 * (c + 1), owner);
    assert Whole(units, b, c, Out(b, c));
    forall u: nat | b <= u < b + 8 * (c + 1) && u % 8 == 0
      ensures u in units && units[u] == Out(b, c)
    {
      assert InBlock(u, b, c);
    }
    forall u: nat | u in g && g[u].Out?
      ensures InBlock(u, g[u].block, g[u].cls) && Whole(g, g[u].block, g[u].cls, g[u])
    {
      assert units[u] == g[u];
      WholeKept(units, b, b + 8 * (c + 1), Out(b, c), owner, units[u].block, units[u].cls, units[u]);
    }
  }

  // The transfers that the allocator makes.

  /** From the pool to the run that a refill will cut up. */
  lemma PoolToHanded(units: map<nat, Owner>, lists: seq<seq<nat>>, start: nat, end: nat, total: nat)
    requires Owned(units, lists, start, end, 0, 0) && start + total <= end && total % 8 == 0 && total > 0
    ensures Owned(Given(units, start, start + total, Handed), lists, start + total, end, start, start + total)
  {
    hide Given, FreeOk, OutOk;
    RunCut(units, start, start + total, end, Pool, Handed);
    RunMade(units, start, start + total, Pool, Handed);
    FreeKept(units, lists, start, start + total, Pool, Handed);
    OutKept(units, start, start + total, Pool, Handed);
    GivenAligned(units, start, start + total, Handed);
  }

  lemma GivenAligned(units: map<nat, Owner>, from: nat, to: nat, owner: Owner)
    requires Aligned(units)
    ensures Aligned(Given(units, from, to, owner))
  {
  }

  /** The front of that run becomes a block that a client holds. */
  lemma HandedToOut(units: map<nat, Owner>, lists: seq<seq<nat>>, start: nat, end: nat, h: nat, hEnd: nat, c: nat)
    requires Owned(units, lists, start, end, h, hEnd) && c < FREE_LISTS && h + 8 * (c + 1) <= hEnd
    ensures Owned(Given(units, h, h + 8 * (c + 1), Out(h, c)), lists, start, end, h + 8 * (c + 1), hEnd)
    ensures Whole(Given(units, h, h + 8 * (c + 1), Out(h, c)), h, c, Out(h, c))
  {
    hide Given, FreeOk, OutOk, Whole;
    RunCut(units, h, h + 8 * (c + 1), hEnd, Handed, Out(h, c));
    RunKept(units, h, h + 8 * (c + 1), Handed, Out(h, c), start, end, Pool);
    FreeKept(units, lists, h, h + 8 * (c + 1), Handed, Out(h, c));
    OutAdded(units, h, c, Handed);
    GivenAligned(units, h, h + 8 * (c + 1), Out(h, c));
  }

  /** Or a free block at the end of the list of its class. */
  lemma HandedToFree(units: map<nat, Owner>, lists: seq<seq<nat>>, start: nat, end: nat, h: nat, hEnd: nat, c: nat)
    requires Owned(units, lists, start, end, h, hEnd) && |lists| == FREE_LISTS && c < FREE_LISTS &&
      h + 8 * (c + 1) <= hEnd
    ensures Owned(Given(units, h, h + 8 * (c + 1), Free(h, c)), lists[c := lists[c] + [h]], start, end,
      h + 8 * (c + 1), hEnd)
  {
    hide Given, FreeOk, OutOk, Whole;
    RunCut(units, h, h + 8 * (c + 1), hEnd, Handed, Free(h, c));
    RunKept(units, h, h + 8 * (c + 1), Handed, Free(h, c), start, end, Pool);
    FreeAdded(units, lists, h, c, Handed, lists[c] + [h]);
    OutKept(units, h, h + 8 * (c + 1), Handed, Free(h, c));
    GivenAligned(units, h, h + 8 * (c + 1), Free(h, c));
  }

  /** What is left of the pool becomes a free block of its size. */
  lemma PoolToFree(units: map<nat, Owner>, lists: seq<seq<nat>>, start: nat, end: nat, c: nat)
    requires Owned(units, lists, start, end, 0, 0) && |lists| == FREE_LISTS && c < FREE_LISTS &&
      end == start + 8 * (c + 1)
    ensures Owned(Given(units, start, end, Free(start, c)), lists[c := [start] + lists[c]], 0, 0, 0, 0)
  {
    hide Given, FreeOk, OutOk, Whole;
    RunCut(units, start, end, end, Pool, Free(start, c));
    RunKept(units, start, end, Pool, Free(start, c), 0, 0, Handed);
    FreeAdded(units, lists, start, c, Pool, [start] + lists[c]);
    OutKept(units, start, end, Pool, Free(start, c));
    GivenAligned(units, start, end, Free(start, c));
    EmptyRun(Given(units, start, end, Free(start, c)), end, Pool);
  }

  lemma EmptyRun(units: map<nat, Owner>, at: nat, owner: Owner)
    requires Run(units, at, at, owner)
    ensures Run(units, 0, 0, owner)
  {
  }

  /** A free block becomes the pool. */
  lemma FreeToPool(units: map<nat, Owner>, lists: seq<seq<nat>>, c: nat)
    requires Owned(units, lists, 0, 0, 0, 0) && |lists| == FREE_LISTS && c < FREE_LISTS && lists[c] != []
    ensures var b := lists[c][0];
            Owned(Given(units, b, b + 8 * (c + 1), Pool), lists[c := lists[c][1..]], b, b + 8 * (c + 1), 0, 0)
  {
    hide Given, FreeOk, OutOk, Whole;
    var b := lists[c][0];
    FreeRemoved(units, lists, c, Pool);
    RunMade(units, b, b + 8 * (c + 1), Free(b, c), Pool);
    RunKept(units, b, b + 8 * (c + 1), Free(b, c), Pool, 0, 0, Handed);
    OutKept(units, b, b + 8 * (c + 1), Free(b, c), Pool);
    GivenAligned(units, b, b + 8 * (c + 1), Pool);
  }

  /** A free block goes to a client. */
  lemma FreeToOut(units: map<nat, Owner>, lists: seq<seq<nat>>, start: nat, end: nat, c: nat)
    requires Owned(units, lists, start, end, 0, 0) && |lists| == FREE_LISTS && c < FREE_LISTS && lists[c] != []
    ensures var b := lists[c][0];
            && Owned(Given(units, b, b + 8 * (c + 1), Out(b, c)), lists[c := lists[c][1..]], start, end, 0, 0)
            && Whole(Given(units, b, b + 8 * (c + 1), Out(b, c)), b, c, Out(b, c))
  {
    hide Given, FreeOk, OutOk, Whole;
    var b := lists[c][0];
    FreeRemoved(units, lists, c, Out(b, c));
    RunKept(units, b, b + 8 * (c + 1), Free(b, c), Out(b, c), start, end, Pool);
    RunKept(units, b, b + 8 * (c + 1), Free(b, c), Out(b, c), 0, 0, Handed);
    OutAdded(units, b, c, Free(b, c));
    GivenAligned(units, b, b + 8 * (c + 1), Out(b, c));
  }

  /** And comes back, to the front of the list. */
  lemma OutToFree(units: map<nat, Owner>, lists: seq<seq<nat>>, start: nat, end: nat, b: nat, c: nat)
    requires Owned(units, lists, start, end, 0, 0) && |lists| == FREE_LISTS && c < FREE_LISTS && b in units &&
      units[b] == Out(b, c)
    ensures Owned(Given(units, b, b + 8 * (c + 1), Free(b, c)), lists[c := [b] + lists[c]], start, end, 0, 0)
  {
    hide Given, FreeOk, OutOk, Whole;
    OutRemoved(units, b, c, Free(b, c));
    RunKept(units, b, b + 8 * (c + 1), Out(b, c), Free(b, c), start, end, Pool);
    RunKept(units, b, b + 8 * (c + 1), Out(b, c), Free(b, c), 0, 0, Handed);
    FreeAdded(units, lists, b, c, Out(b, c), [b] + lists[c]);
    GivenAligned(units, b, b + 8 * (c + 1), Free(b, c));
  }

  // ---------- new memory ----------

  /** The units of a stretch of memory. */
  ghost function Stretch(from: nat, bytes: nat): (s: set<nat>)
    ensures forall u: nat :: u in s <==> from <= u < from + bytes && u % 8 == 0
  {
    set u: nat | from <= u < from + bytes && u % 8 == 0
  }

  lemma {:induction false} StretchSize(from: nat, bytes: nat)
    requires from % 8 == 0 && bytes % 8 == 0
    ensures 8 * |Stretch(from, bytes)| == bytes
    decreases bytes
  {
    if bytes > 0 {
      StretchSize(from, bytes - 8);
      StretchLast(from, bytes);
    } else {
      assert Stretch(from, 0) == {};
    }
  }

  lemma StretchLast(from: nat, bytes: nat)
    requires from % 8 == 0 && bytes % 8 == 0 && bytes > 0
    ensures bytes >= 8 && from + bytes - 8 !in Stretch(from, bytes - 8)
    ensures Stretch(from, bytes) == Stretch(from, bytes - 8) + {from + bytes - 8}
  {
    var last := from + bytes - 8;
    assert last % 8 == 0;
    forall u: nat | from <= u < from + bytes && u % 8 == 0
      ensures u < last || u == last
    {
      OneUnit(last, u);
    }
  }

  lemma OneUnit(a: nat, u: nat)
    requires a % 8 == 0 && u % 8 == 0 && u < a + 8
    ensures u <= a
  {
    assert a == 8 * (a / 8) && u == 8 * (u / 8);
  }

  /** Memory that `malloc` may return: aligned, not null, and apart from all it returned before. */
  ghost predicate Fresh(units: map<nat, Owner>, p: nat, bytes: nat) {
    p > 0 && p % 8 == 0 && forall u: nat :: p <= u < p + bytes && u % 8 == 0 ==> u !in units
  }

  ghost function Grown(units: map<nat, Owner>, p: nat, bytes: nat, owner: Owner): map<nat, Owner> {
    units + map u | u in Stretch(p, bytes) :: owner
  }

  /** More units, all of one owner. */
  ghost predicate Grows(units: map<nat, Owner>, g: map<nat, Owner>, p: nat, bytes: nat, owner: Owner) {
    && (forall u :: u in units ==> u in g && g[u] == units[u])
    && (forall u: nat :: p <= u < p + bytes && u % 8 == 0 ==> u in g && u !in units && g[u] == owner)
    && (forall u :: u in g && u !in units ==> p <= u < p + bytes && u % 8 == 0 && g[u] == owner)
  }

  lemma GrownIs(units: map<nat, Owner>, p: nat, bytes: nat, owner: Owner)
    requires Fresh(units, p, bytes) && bytes % 8 == 0
    ensures Grows(units, Grown(units, p, bytes, owner), p, bytes, owner)
  {
  }

  lemma GrownArena(units: map<nat, Owner>, p: nat, bytes: nat)
    requires Fresh(units, p, bytes) && bytes % 8 == 0
    ensures |Arena(Grown(units, p, bytes, Pool))| * 8 == 8 * |Arena(units)| + bytes
  {
    var g := Grown(units, p, bytes, Pool);
    StretchSize(p, bytes);
    assert Arena(g) == Arena(units) + Stretch(p, bytes) && Arena(units) !! Stretch(p, bytes);
  }

  /** New memory becomes the pool. */
  lemma NewPool(units: map<nat, Owner>, lists: seq<seq<nat>>, p: nat, bytes: nat)
    requires Owned(units, lists, 0, 0, 0, 0) && Fresh(units, p, bytes) && bytes % 8 == 0
    ensures Owned(Grown(units, p, bytes, Pool), lists, p, p + bytes, 0, 0)
    ensures 8 * |Arena(Grown(units, p, bytes, Pool))| == 8 * |Arena(units)| + bytes
    ensures KeepsOut(units, Grown(units, p, bytes, Pool))
  {
    hide Grown, FreeOk, OutOk, Run, Fresh, KeepsOut, Grows;
    var g := Grown(units, p, bytes, Pool);
    GrownIs(units, p, bytes, Pool);
    GrownArena(units, p, bytes);
    NewFree(units, g, lists, p, bytes, Pool);
    NewOut(units, g, p, bytes);
    NewRuns(units, g, p, bytes);
  }

  lemma NewRuns(units: map<nat, Owner>, g: map<nat, Owner>, p: nat, bytes: nat)
    requires Aligned(units) && Run(units, 0, 0, Pool) && Run(units, 0, 0, Handed) && Fresh(units, p, bytes) &&
      bytes % 8 == 0
    requires Grows(units, g, p, bytes, Pool)
    ensures Aligned(g) && Run(g, p, p + bytes, Pool) && Run(g, 0, 0, Handed)
  {
  }

  lemma NewOut(units: map<nat, Owner>, g: map<nat, Owner>, p: nat, bytes: nat)
    requires OutOk(units) && Grows(units, g, p, bytes, Pool)
    ensures OutOk(g) && KeepsOut(units, g)
  {
    forall u: nat | u in g && g[u].Out?
      ensures Whole(g, g[u].block, g[u].cls, g[u])
    {
      assert Whole(units, units[u].block, units[u].cls, units[u]);
    }
  }

  lemma NewFree(units: map<nat, Owner>, g: map<nat, Owner>, lists: seq<seq<nat>>, p: nat, bytes: nat, owner: Owner)
    requires FreeOk(units, lists) && Grows(units, g, p, bytes, owner) && !owner.Free?
    ensures FreeOk(g, lists)
  {
    forall c: nat, i: nat | c < FREE_LISTS && i < |lists[c]|
      ensures Whole(g, lists[c][i], c, Free(lists[c][i], c))
    {
      assert Whole(units, lists[c][i], c, Free(lists[c][i], c));
    }
  }

  // ---------- large blocks ----------

  lemma FreshRounded(units: map<nat, Owner>, p: nat, n: nat)
    requires Fresh(units, p, n)
    ensures Fresh(units, p, RoundUp(n))
  {
    hide RoundUp;
    forall u: nat | p <= u < p + RoundUp(n) && u % 8 == 0
      ensures u !in units
    {
      BelowRounded(p, n, u);
    }
  }

  lemma BelowRounded(p: nat, n: nat, u: nat)
    requires p % 8 == 0 && u % 8 == 0 && p <= u < p + RoundUp(n)
    ensures u < p + n
  {
    var a, k := (u - p) / 8, (n + 7) / 8;
    assert u - p == 8 * a && RoundUp(n) == 8 * k && a < k;
  }

  /** A block that `malloc` returned to a client. */
  lemma NewLarge(units: map<nat, Owner>, lists: seq<seq<nat>>, start: nat, end: nat, p: nat, c: nat)
    requires Owned(units, lists, start, end, 0, 0) && Fresh(units, p, 8 * (c + 1)) && c >= FREE_LISTS
    ensures Owned(Grown(units, p, 8 * (c + 1), Out(p, c)), lists, start, end, 0, 0)
    ensures Arena(Grown(units, p, 8 * (c + 1), Out(p, c))) == Arena(units)
    ensures KeepsOut(units, Grown(units, p, 8 * (c + 1), Out(p, c)))
    ensures Whole(Grown(units, p, 8 * (c + 1), Out(p, c)), p, c, Out(p, c))
    ensures forall u :: u in units && InBlock(u, p, c) ==> !units[u].Out?
  {
    var g := Grown(units, p, 8 * (c + 1), Out(p, c));
    GrownIs(units, p, 8 * (c + 1), Out(p, c));
    hide Grown, Grows, Run, Arena, KeepsOut, FreeOk, OutOk;
    NewFree(units, g, lists, p, 8 * (c + 1), Out(p, c));
    NewLargeOut(units, g, p, c);
    NewLargeRuns(units, g, start, end, p, c);
  }

  lemma NewLargeRuns(units: map<nat, Owner>, g: map<nat, Owner>, start: nat, end: nat, p: nat, c: nat)
    requires Aligned(units) && Run(units, start, end, Pool) && Run(units, 0, 0, Handed)
    requires Grows(units, g, p, 8 * (c + 1), Out(p, c)) && c >= FREE_LISTS
    ensures Aligned(g) && Run(g, start, end, Pool) && Run(g, 0, 0, Handed) && Arena(g) == Arena(units)
  {
    assert forall u :: u in g && u !in units ==> Large(g[u]);
  }

  lemma NewLargeOut(units: map<nat, Owner>, g: map<nat, Owner>, p: nat, c: nat)
    requires Aligned(units) && OutOk(units) && Grows(units, g, p, 8 * (c + 1), Out(p, c)) && 0 < p && p % 8 == 0
    ensures OutOk(g) && KeepsOut(units, g) && Whole(g, p, c, Out(p, c))
  {
    forall u: nat | u in g && g[u].Out?
      ensures InBlock(u, g[u].block, g[u].cls) && Whole(g, g[u].block, g[u].cls, g[u])
    {
      if u in units {
        assert Whole(units, units[u].block, units[u].cls, units[u]);
      }
    }
  }

  /** Without the units of one block. */
  ghost function Without(units: map<nat, Owner>, p: nat, c: nat): map<nat, Owner> {
    map u | u in units && !(p <= u < p + 8 * (c + 1)) :: units[u]
  }

  /** A large block goes back to `malloc`. */
  lemma LargeGone(units: map<nat, Owner>, lists: seq<seq<nat>>, start: nat, end: nat, p: nat, c: nat)
    requires Owned(units, lists, start, end, 0, 0) && p in units && units[p] == Out(p, c) && c >= FREE_LISTS
    ensures Owned(Without(units, p, c), lists, start, end, 0, 0) && Arena(Without(units, p, c)) == Arena(units)
  {
    hide FreeOk, OutOk;
    var g := Without(units, p, c);
    LargeHeld(units, p, c);
    LargeGoneFree(units, lists, p, c);
    LargeGoneOut(units, p, c);
    assert forall u :: u in units && u !in g ==> units[u] == Out(p, c);
  }

  lemma LargeHeld(units: map<nat, Owner>, p: nat, c: nat)
    requires OutOk(units) && p in units && units[p] == Out(p, c)
    ensures Held(units, p, p + 8 * (c + 1), Out(p, c))
  {
    assert Whole(units, p, c, Out(p, c));
    forall u: nat | p <= u < p + 8 * (c + 1) && u % 8 == 0
      ensures u in units && units[u] == Out(p, c)
    {
      assert InBlock(u, p, c);
    }
  }

  lemma LargeGoneFree(units: map<nat, Owner>, lists: seq<seq<nat>>, p: nat, c: nat)
    requires Aligned(units) && FreeOk(units, lists) && Held(units, p, p + 8 * (c + 1), Out(p, c))
    ensures FreeOk(Without(units, p, c), lists)
  {
    forall d: nat, i: nat | d < FREE_LISTS && i < |lists[d]|
      ensures Whole(Without(units, p, c), lists[d][i], d, Free(lists[d][i], d))
    {
      assert Whole(units, lists[d][i], d, Free(lists[d][i], d));
    }
  }

  lemma LargeGoneOut(units: map<nat, Owner>, p: nat, c: nat)
    requires Aligned(units) && OutOk(units) && Held(units, p, p + 8 * (c + 1), Out(p, c))
    ensures OutOk(Without(units, p, c))
  {
    var g := Without(units, p, c);
    forall u: nat | u in g && g[u].Out?
      ensures InBlock(u, g[u].block, g[u].cls) && Whole(g, g[u].block, g[u].cls, g[u])
    {
      assert Whole(units, units[u].block, units[u].cls, units[u]);
      assert InBlock(u, units[u].block, units[u].cls);
      forall v: nat | InBlock(v, g[u].block, g[u].cls)
        ensures v in g && g[v] == g[u]
      {
        assert units[v] == units[u];
      }
    }
  }

  /** What clients hold they go on holding. */
  ghost predicate KeepsOut(units: map<nat, Owner>, next: map<nat, Owner>) {
    forall u :: u in units && units[u].Out? ==> u in next && next[u] == units[u]
  }

  // ---------- links in memory ----------

  /** The list that the words in memory spell out from `head` up to `end`. */
  ghost predicate ChainTo(memory: map<nat, nat>, head: nat, list: seq<nat>, end: nat)
    decreases |list|
  {
    if list == [] then head == end
    else head == list[0] && head in memory && ChainTo(memory, memory[head], list[1..], end)
  }

  /** A whole list, up to the null link. */
  ghost predicate Chain(memory: map<nat, nat>, head: nat, list: seq<nat>) {
    ChainTo(memory, head, list, 0)
  }

  ghost predicate Chains(memory: map<nat, nat>, heads: seq<nat>, lists: seq<seq<nat>>) {
    |heads| == FREE_LISTS == |lists| && forall c: nat :: c < FREE_LISTS ==> Chain(memory, heads[c], lists[c])
  }

  /** The words in the blocks that clients hold. */
  ghost predicate KeepsWords(units: map<nat, Owner>, m: map<nat, nat>, next: map<nat, nat>) {
    forall u :: u in units && units[u].Out? ==> (u in m <==> u in next) && (u in m ==> next[u] == m[u])
  }

  lemma ChainPop(memory: map<nat, nat>, heads: seq<nat>, lists: seq<seq<nat>>, c: nat)
    requires Chains(memory, heads, lists) && c < FREE_LISTS && lists[c] != []
    ensures heads[c] == lists[c][0] && heads[c] in memory
    ensures Chains(memory, heads[c := memory[heads[c]]], lists[c := lists[c][1..]])
  {
  }

  /** Writing a link into a block that is on no list, and putting it in front of one. */
  lemma ChainPush(units: map<nat, Owner>, memory: map<nat, nat>, heads: seq<nat>, lists: seq<seq<nat>>, b: nat, c: nat)
    requires Chains(memory, heads, lists) && FreeOk(units, lists) && c < FREE_LISTS && b in units && !units[b].Free?
    ensures Chains(memory[b := heads[c]], heads[c := b], lists[c := [b] + lists[c]])
  {
    var m, next := memory[b := heads[c]], lists[c := [b] + lists[c]];
    forall d: nat | d < FREE_LISTS
      ensures Chain(m, heads[c := b][d], next[d])
    {
      NotListed(units, lists, b, d);
      ChainFramed(memory, m, heads[d], lists[d]);
      if d == c { assert next[c][1..] == lists[c]; }
    }
  }

  lemma {:induction false} ChainToFramed(m: map<nat, nat>, n: map<nat, nat>, head: nat, list: seq<nat>, end: nat)
    requires ChainTo(m, head, list, end) && forall b :: b in list && b in m ==> b in n && n[b] == m[b]
    ensures ChainTo(n, head, list, end)
    decreases |list|
  {
    if list != [] {
      ChainToFramed(m, n, m[head], list[1..], end);
    }
  }

  lemma ChainFramed(m: map<nat, nat>, n: map<nat, nat>, head: nat, list: seq<nat>)
    requires Chain(m, head, list) && forall b :: b in list && b in m ==> b in n && n[b] == m[b]
    ensures Chain(n, head, list)
  {
    ChainToFramed(m, n, head, list, 0);
  }

  /** The block that a list ends at, linked on. */
  lemma {:induction false} ChainToSnoc(m: map<nat, nat>, head: nat, list: seq<nat>, b: nat, v: nat)
    requires ChainTo(m, head, list, b) && b !in list
    ensures ChainTo(m[b := v], head, list + [b], v)
    decreases |list|
  {
    if list == [] {
      assert (list + [b])[1..] == [];
    } else {
      ChainToSnoc(m, m[head], list[1..], b, v);
      assert (list + [b])[1..] == list[1..] + [b];
    }
  }

  lemma KeepsTrans(u0: map<nat, Owner>, u1: map<nat, Owner>, u2: map<nat, Owner>, m0: map<nat, nat>, m1: map<nat, nat>,
                   m2: map<nat, nat>)
    requires KeepsOut(u0, u1) && KeepsOut(u1, u2) && KeepsWords(u0, m0, m1) && KeepsWords(u1, m1, m2)
    ensures KeepsOut(u0, u2) && KeepsWords(u0, m0, m2)
  {
  }

  /** Giving away a run that no client holds, and writing where no client holds, keeps both. */
  lemma GivenKeeps(units: map<nat, Owner>, from: nat, to: nat, was: Owner, owner: Owner)
    requires Aligned(units) && Held(units, from, to, was) && !was.Out?
    ensures KeepsOut(units, Given(units, from, to, owner))
  {
  }

  lemma WriteKeeps(units: map<nat, Owner>, m: map<nat, nat>, p: nat, v: nat)
    requires p in units && !units[p].Out?
    ensures KeepsWords(units, m, m[p := v])
  {
  }

  lemma ListHead(units: map<nat, Owner>, memory: map<nat, nat>, heads: seq<nat>, lists: seq<seq<nat>>, c: nat)
    requires FreeOk(units, lists) && Chains(memory, heads, lists) && c < FREE_LISTS
    ensures heads[c] == 0 <==> lists[c] == []
    ensures lists[c] != [] ==> heads[c] == lists[c][0]
  {
    assert Chain(memory, heads[c], lists[c]);
    if lists[c] != [] {
      assert Whole(units, lists[c][0], c, Free(lists[c][0], c));
    }
  }

  /** No list holds a block of class `c` or a larger one. */
  ghost predicate NoneFrom(lists: seq<seq<nat>>, c: int) {
    forall d: nat :: c <= d < |lists| ==> lists[d] == []
  }

  /** The state in values: the lists in memory are those of the owners. */
  ghost predicate State(units: map<nat, Owner>, lists: seq<seq<nat>>, memory: map<nat, nat>, heads: seq<nat>,
                        start: nat, end: nat, h: nat, hEnd: nat) {
    Owned(units, lists, start, end, h, hEnd) && Chains(memory, heads, lists)
  }

  /** The left-over piece goes onto the list of its size. */
  lemma LeftOverFreed(units: map<nat, Owner>, lists: seq<seq<nat>>, memory: map<nat, nat>, heads: seq<nat>, start: nat,
                      end: nat, c: nat)
    requires State(units, lists, memory, heads, start, end, 0, 0) && c < FREE_LISTS && end == start + 8 * (c + 1)
    ensures |heads| == FREE_LISTS == |lists|
    ensures var next := Given(units, start, end, Free(start, c));
            && State(next, lists[c := [start] + lists[c]], memory[start := heads[c]], heads[c := start], 0, 0, 0, 0)
            && KeepsOut(units, next) && KeepsWords(units, memory, memory[start := heads[c]]) &&
              Arena(next) == Arena(units) && next.Keys == units.Keys
  {
    hide FreeOk, OutOk, Given, KeepsOut, KeepsWords, Chain;
    assert Held(units, start, end, Pool) && start in units && units[start] == Pool;
    PoolToFree(units, lists, start, end, c);
    ChainPush(units, memory, heads, lists, start, c);
    GivenKeeps(units, start, end, Pool, Free(start, c));
    WriteKeeps(units, memory, start, heads[c]);
    GivenSame(units, start, end, Pool, Free(start, c));
  }

  /** The first block of a list becomes the pool. */
  lemma BlockPooled(units: map<nat, Owner>, lists: seq<seq<nat>>, memory: map<nat, nat>, heads: seq<nat>, c: nat)
    requires State(units, lists, memory, heads, 0, 0, 0, 0) && c < FREE_LISTS && |heads| == FREE_LISTS && heads[c] != 0
    ensures |lists| == FREE_LISTS && lists[c] != [] && heads[c] in memory
    ensures var b := heads[c]; var next := Given(units, b, b + 8 * (c + 1), Pool);
            && State(next, lists[c := lists[c][1..]], memory, heads[c := memory[b]], b, b + 8 * (c + 1), 0, 0)
            && KeepsOut(units, next) && Arena(next) == Arena(units)
  {
    hide OutOk, Given, KeepsOut, Chain, FreeOk;
    var b := heads[c];
    ListHead(units, memory, heads, lists, c);
    FreeToPool(units, lists, c);
    ChainPop(memory, heads, lists, c);
    FreeRemoved(units, lists, c, Pool);
    GivenKeeps(units, b, b + 8 * (c + 1), Free(b, c), Pool);
    GivenSame(units, b, b + 8 * (c + 1), Free(b, c), Pool);
  }

  class Allocator {
    const freeList: array<nat>
    var startFree: nat
    var endFree: nat
    var heapSize: nat
    var memory: map<nat, nat>
    ghost var units: map<nat, Owner>
    ghost var lists: seq<seq<nat>>

    /** Every unit obtained from `malloc` has one owner, the run from `h` to `hEnd` being handed out. */
    ghost predicate ValidBut(h: nat, hEnd: nat)
      reads this, freeList
    {
      && freeList.Length == FREE_LISTS && heapSize == 8 * |Arena(units)|
      && State(units, lists, memory, freeList[..], startFree, endFree, h, hEnd)
    }

    ghost predicate Valid()
      reads this, freeList
    {
      ValidBut(0, 0)
    }

    constructor ()
      ensures Valid() && units == map[] && heapSize == 0 && fresh(freeList)
    {
      freeList := new nat[FREE_LISTS](i => 0);
      startFree, endFree, heapSize := 0, 0, 0;
      memory, units, lists := map[], map[], seq(FREE_LISTS, i => []);
    }

    /** Whether memory for `bytes` may be at `p`; zero says that there was none. */
    ghost predicate MayReturn(p: nat, bytes: nat)
      reads this
    {
      p == 0 || Fresh(units, p, bytes)
    }

    /** The bytes that `_S_chunk_alloc` asks `malloc` for. */
    function BytesToGet(total: nat): nat
      reads this`heapSize
    {
      2 * total + RoundUp(heapSize / 16)
    }

    /** Cutting `total` bytes off the pool. */
    method Carve(total: nat) returns (result: nat)
      requires Valid() && 0 < total <= endFree - startFree && total % 8 == 0
      modifies this`startFree, this`units
      ensures result == old(startFree) && startFree == result + total
      ensures ValidBut(result, result + total) && KeepsOut(old(units), units)
      ensures endFree - startFree == old(endFree - startFree) - total
    {
      hide FreeOk, OutOk, Given, KeepsOut, Chain, Chains;
      result := startFree;
      PoolToHanded(units, lists, startFree, endFree, total);
      GivenKeeps(units, startFree, startFree + total, Pool, Handed);
      GivenSame(units, startFree, startFree + total, Pool, Handed);
      startFree := startFree + total;
      units := Given(units, result, result + total, Handed);
    }

    /** The left-over piece of the pool goes onto the free list of its size. */
    method FreeLeftOver()
      requires Valid() && endFree - startFree < MAX_BYTES
      modifies this`memory, this`units, this`lists, freeList
      ensures freeList.Length == FREE_LISTS && State(units, lists, memory, freeList[..], 0, 0, 0, 0)
      ensures Arena(units) == old(Arena(units)) && units.Keys == old(units.Keys)
      ensures KeepsOut(old(units), units) && KeepsWords(old(units), old(memory), memory)
      ensures |lists| == |old(lists)| == FREE_LISTS
      ensures forall c: nat :: endFree - startFree < 8 * (c + 1) && c < FREE_LISTS ==> lists[c] == old(lists)[c]
    {
      hide FreeOk, OutOk, Given, KeepsOut, KeepsWords, Chain, Chains, Arena, RoundUp, FreelistIndex;
      var bytesLeft := endFree - startFree;
      if bytesLeft > 0 {
        ClassSize(bytesLeft);
        var c := FreelistIndex(bytesLeft);
        LeftOverFreed(units, lists, memory, freeList[..], startFree, endFree, c);
        memory := memory[startFree := freeList[c]];
        units := Given(units, startFree, endFree, Free(startFree, c));
        lists := lists[c := [startFree] + lists[c]];
        ghost var heads := freeList[..];
        freeList[c] := startFree;
        assert freeList[..] == heads[c := startFree];
      } else {
        EmptyRun(units, startFree, Pool);
        NothingKept(units, memory);
        ListCount(units, lists);
      }
    }

    lemma NothingKept(units: map<nat, Owner>, memory: map<nat, nat>)
      ensures KeepsOut(units, units) && KeepsWords(units, memory, memory)
    {
    }

    lemma ListCount(units: map<nat, Owner>, lists: seq<seq<nat>>)
      requires FreeOk(units, lists)
      ensures |lists| == FREE_LISTS
    {
    }

    /** The head of the first list of blocks of `size` bytes or more becomes the pool: `cls` is the least such class
        that has a free block. */
    method PoolFromLists(size: nat) returns (found: bool, ghost cls: nat)
      requires freeList.Length == FREE_LISTS && heapSize == 8 * |Arena(units)| &&
        State(units, lists, memory, freeList[..], 0, 0, 0, 0)
      requires 8 <= size <= MAX_BYTES && size % 8 == 0
      modifies this`startFree, this`endFree, this`units, this`lists, freeList
      ensures found <==> !NoneFrom(old(lists), size / 8 - 1)
      ensures found ==> Valid() && size / 8 - 1 <= cls < FREE_LISTS && old(lists)[cls] != []
      ensures found ==> forall d: nat :: size / 8 - 1 <= d < cls ==> old(lists)[d] == []
      ensures found ==> startFree == old(lists)[cls][0] && endFree == startFree + 8 * (cls + 1) >= startFree + size
      ensures found ==> lists == old(lists)[cls := old(lists)[cls][1..]]
      ensures !found ==>
        State(units, lists, memory, freeList[..], 0, 0, 0, 0) && units == old(units) && lists == old(lists)
      ensures KeepsOut(old(units), units) && heapSize == 8 * |Arena(units)|
      ensures |lists| == |old(lists)| == FREE_LISTS
      ensures forall c: nat :: c < FREE_LISTS && old(lists)[c] == [] ==> lists[c] == []
    {
      hide FreeOk, OutOk, Given, KeepsOut, KeepsWords, Chain, Chains;
      NothingKept(units, memory);
      ListCount(units, lists);
      var i := size;
      while i <= MAX_BYTES
        invariant 8 <= i && i % 8 == 0
        invariant units == old(units) && lists == old(lists) && freeList[..] == old(freeList[..])
        invariant startFree == old(startFree) && endFree == old(endFree)
        invariant forall d: nat :: size / 8 - 1 <= d < i / 8 - 1 && d < FREE_LISTS ==> lists[d] == []
      {
        ClassSize(i);
        var c := FreelistIndex(i);
        ListHead(units, memory, freeList[..], lists, c);
        var p: nat := freeList[c];
        if p != 0 {
          BlockPooled(units, lists, memory, freeList[..], c);
          ghost var heads := freeList[..];
          freeList[c] := memory[p];
          assert freeList[..] == heads[c := memory[p]];
          startFree := p;
          endFree := startFree + i;
          units := Given(units, p, p + i, Pool);
          lists := lists[c := lists[c][1..]];
          found, cls := true, c;
          return;
        }
        i := i + 8;
      }
      found, cls := false, 0;
    }

    /** New memory becomes the pool. */
    method PoolFromHeap(p: nat, bytes: nat)
      requires freeList.Length == FREE_LISTS && heapSize == 8 * |Arena(units)| &&
        State(units, lists, memory, freeList[..], 0, 0, 0, 0)
      requires Fresh(units, p, bytes) && bytes % 8 == 0
      modifies this`startFree, this`endFree, this`heapSize, this`units
      ensures Valid() && endFree - startFree == bytes && KeepsOut(old(units), units) &&
        heapSize == old(heapSize) + bytes
    {
      hide FreeOk, OutOk, Grown, KeepsOut, KeepsWords, Chain, Chains;
      NewPool(units, lists, p, bytes);
      units := Grown(units, p, bytes, Pool);
      startFree := p;
      heapSize := heapSize + bytes;
      endFree := startFree + bytes;
    }

    /** `_S_chunk_alloc`: memory for up to `nobjs0` objects of one size, from the pool or, when the
        pool is too small for one, from `malloc`, which returns `got`; when that is null from a longer
        block of the free lists; and failing that from `malloc_alloc`, which returns `last` or throws. */
    method ChunkAlloc(size: nat, nobjs0: nat, got: nat, last: nat) returns (result: Option<nat>, nobjs: nat)
      requires Valid() && 8 <= size <= MAX_BYTES && size % 8 == 0 && nobjs0 > 0
      requires endFree - startFree < size ==>
        MayReturn(got, BytesToGet(Total(size, nobjs0))) && MayReturn(last, BytesToGet(Total(size, nobjs0)))
      modifies this, freeList
      ensures result.Some? ==> 1 <= nobjs <= nobjs0 && ValidBut(result.value, result.value + Total(size, nobjs))
      ensures result.Some? ==> nobjs == nobjs0 || endFree - startFree < size
      ensures result.None? <==> old(Starved(size, got, last))
      ensures result.None? ==> Valid()
      ensures KeepsOut(old(units), units) && KeepsWords(old(units), old(memory), memory)
      ensures heapSize == old(heapSize) + old(Demand(size, nobjs0, got, last))
      ensures old(endFree - startFree >= Total(size, nobjs0)) ==>
        nobjs == nobjs0 && endFree - startFree == old(endFree - startFree) - Total(size, nobjs0)
      ensures old(endFree - startFree < size) && FromMalloc(got, last, old(lists), size) ==>
        nobjs == nobjs0 && endFree - startFree >= Total(size, nobjs0)
      ensures KeepsEmpty(old(lists), lists, size / 8 - 1)
      decreases if endFree - startFree >= size then 0 else 1
    {
      hide FreeOk, OutOk, Given, KeepsOut, KeepsWords, Chain, Chains, State, Fresh, RoundUp, Total;
      NothingKept(units, memory);
      StateLists();
      TotalOf(size, nobjs0);
      var totalBytes := Total(size, nobjs0);
      var bytesLeft := endFree - startFree;
      nobjs := nobjs0;
      if bytesLeft >= totalBytes {
        var r := Carve(totalBytes);
        return Some(r), nobjs;
      } else if bytesLeft >= size {
        Quotient(bytesLeft, size, nobjs0);
        nobjs := bytesLeft / size;
        totalBytes := Total(size, nobjs);
        TotalOf(size, nobjs);
        var r := Carve(totalBytes);
        return Some(r), nobjs;
      }
      ghost var u0, m0 := units, memory;
      HeapGrowth(totalBytes);
      var ok := Replenish(size, totalBytes, got, last);
      if !ok {
        return None, nobjs;
      }
      ghost var u1, m1 := units, memory;
      result, nobjs := ChunkAlloc(size, nobjs0, got, last);
      KeepsTrans(u0, u1, units, m0, m1, memory);
    }

    /** There is no memory for `size` bytes: not in the pool, on no list of that class or a larger one, and
        none from `malloc`. */
    ghost predicate Starved(size: nat, got: nat, last: nat)
      reads this
    {
      endFree - startFree < size && NoneFrom(lists, size / 8 - 1) && got == 0 && last == 0
    }

    /** The bytes by which the heap grows when `nobjs` objects are asked for. */
    ghost function Demand(size: nat, nobjs: nat, got: nat, last: nat): nat
      reads this
    {
      if endFree - startFree < size && FromMalloc(got, last, lists, size) then BytesToGet(Total(size, nobjs)) else 0
    }

    /** New memory holds the objects asked for twice, and is a sixteenth of the heap more, in whole units. */
    lemma HeapGrowth(total: nat)
      requires total % 8 == 0
      ensures BytesToGet(total) % 8 == 0
      ensures 2 * total + heapSize / 16 <= BytesToGet(total) < 2 * total + heapSize / 16 + 8
    {
    }

    /** The part of `_S_chunk_alloc` that finds the pool too small. */
    method Replenish(size: nat, totalBytes: nat, got: nat, last: nat) returns (ok: bool)
      requires Valid() && 8 <= size <= MAX_BYTES && size % 8 == 0 && endFree - startFree < size <= totalBytes &&
        totalBytes % 8 == 0
      requires MayReturn(got, BytesToGet(totalBytes)) && MayReturn(last, BytesToGet(totalBytes))
      modifies this, freeList
      ensures ok <==> got != 0 || last != 0 || !NoneFrom(old(lists), size / 8 - 1)
      ensures Valid() && (ok ==> endFree - startFree >= size)
      ensures heapSize == old(heapSize) + if FromMalloc(got, last, old(lists), size) then old(BytesToGet(totalBytes))
        else 0
      ensures FromMalloc(got, last, old(lists), size) ==> endFree - startFree == old(BytesToGet(totalBytes))
      ensures KeepsOut(old(units), units) && KeepsWords(old(units), old(memory), memory)
      ensures KeepsEmpty(old(lists), lists, size / 8 - 1)
    {
      hide FreeOk, OutOk, Given, KeepsOut, KeepsWords, Chain, Chains, State, Fresh, RoundUp, NoneFrom;
      StateLists();
      var bytesToGet := BytesToGet(totalBytes);
      HeapGrowth(totalBytes);
      ghost var u0, m0 := units, memory;
      FreeLeftOver();
      ghost var u1, m1, c := units, memory, size / 8 - 1;
      NoneKept(old(lists), lists, endFree - startFree, size);
      assert lists[c] == old(lists)[c];
      startFree := got;
      if startFree == 0 {
        ghost var d;
        ok, d := PoolFromLists(size);
        KeepsTrans(u0, u1, units, m0, m1, memory) by { SameWords(u1, m1, memory); }
        assert old(lists)[c] == [] ==> lists[c] == [];
        if ok {
          return;
        }
        endFree := 0;
        startFree := last;
        if last == 0 {
          return false;
        }
      }
      ghost var u2, m2 := units, memory;
      StillFresh(u0, u2, startFree, bytesToGet);
      PoolFromHeap(startFree, bytesToGet);
      KeepsTrans(u0, u2, units, m0, m2, memory) by { SameWords(u2, m2, memory); }
      return true;
    }

    /** The pool is made of new memory: `malloc` or its handler gave some, and was asked. */
    static ghost predicate FromMalloc(got: nat, last: nat, lists: seq<seq<nat>>, size: nat) {
      got != 0 || (last != 0 && NoneFrom(lists, size / 8 - 1))
    }

    /** The left-over piece is smaller than the blocks looked for. */
    static lemma NoneKept(lists: seq<seq<nat>>, next: seq<seq<nat>>, left: int, size: nat)
      requires |lists| == |next| == FREE_LISTS && left < size && size % 8 == 0
      requires forall c: nat :: left < 8 * (c + 1) && c < FREE_LISTS ==> next[c] == lists[c]
      ensures NoneFrom(lists, size / 8 - 1) <==> NoneFrom(next, size / 8 - 1)
    {
    }

    lemma StateLists()
      requires Valid()
      ensures |lists| == FREE_LISTS
    {
    }

    static function Total(size: nat, nobjs: nat): nat { size * nobjs }

    /** An empty list of the class stays empty. */
    static ghost predicate KeepsEmpty(lists: seq<seq<nat>>, next: seq<seq<nat>>, c: int) {
      |lists| == |next| == FREE_LISTS && 0 <= c < FREE_LISTS && (lists[c] == [] ==> next[c] == [])
    }

    static lemma TotalOf(size: nat, nobjs: nat)
      requires 8 <= size && size % 8 == 0 && nobjs > 0
      ensures size <= Total(size, nobjs) && Total(size, nobjs) % 8 == 0
    {
      var k := size / 8;
      EightTimes(k, nobjs);
      Remainder(k * nobjs);
      assert size == 8 * k;
    }

    static lemma EightTimes(k: nat, n: nat)
      requires n > 0
      ensures (8 * k) * n == 8 * (k * n) && k * n >= k
    {
    }

    static lemma Remainder(p: nat)
      ensures (8 * p) % 8 == 0
    {
    }

    static lemma Quotient(left: nat, size: nat, nobjs: nat)
      requires 0 < size <= left < Total(size, nobjs)
      ensures 1 <= left / size <= nobjs && Total(size, left / size) <= left < Total(size, left / size) + size
    {
      var q := left / size;
      assert left == size * q + left % size;
      if q > nobjs {
        NoLess(size, nobjs, q);
      }
    }

    static lemma NoLess(a: nat, b: nat, c: nat)
      requires b <= c
      ensures a * b <= a * c
    {
    }

    static lemma SameWords(units: map<nat, Owner>, m: map<nat, nat>, next: map<nat, nat>)
      requires m == next
      ensures KeepsWords(units, m, next)
    {
    }

    /** Memory apart from all units is apart from the same units under other owners. */
    static lemma StillFresh(units: map<nat, Owner>, next: map<nat, Owner>, p: nat, bytes: nat)
      requires Fresh(units, p, bytes) && next.Keys == units.Keys
      ensures Fresh(next, p, bytes)
    {
    }

    /** A refill at work: the list of class `c` ends at the run that is still to be cut up. */
    ghost predicate Building(h: nat, hEnd: nat, c: nat)
      reads this, freeList
    {
      && freeList.Length == FREE_LISTS && heapSize == 8 * |Arena(units)| && c < FREE_LISTS
      && Owned(units, lists, startFree, endFree, h, hEnd)
      && Built(memory, freeList[..], lists, c, h)
    }

    static ghost predicate Built(memory: map<nat, nat>, heads: seq<nat>, lists: seq<seq<nat>>, c: nat, end: nat) {
      && |heads| == FREE_LISTS == |lists| && c < FREE_LISTS && ChainTo(memory, heads[c], lists[c], end)
      && forall d: nat :: d < FREE_LISTS && d != c ==> Chain(memory, heads[d], lists[d])
    }

    static lemma BuiltChains(memory: map<nat, nat>, heads: seq<nat>, lists: seq<seq<nat>>, c: nat)
      ensures Built(memory, heads, lists, c, 0) ==> Chains(memory, heads, lists)
    {
    }

    static lemma BuiltStep(units: map<nat, Owner>, memory: map<nat, nat>, heads: seq<nat>, lists: seq<seq<nat>>,
                           c: nat, b: nat, v: nat)
      requires Built(memory, heads, lists, c, b) && FreeOk(units, lists) && b in units && !units[b].Free?
      ensures |lists| == FREE_LISTS && Built(memory[b := v], heads, lists[c := lists[c] + [b]], c, v)
    {
      NotListed(units, lists, b, c);
      ChainToSnoc(memory, heads[c], lists[c], b, v);
      forall d: nat | d < FREE_LISTS && d != c
        ensures Chain(memory[b := v], heads[d], lists[d])
      {
        NotListed(units, lists, b, d);
        ChainFramed(memory, memory[b := v], heads[d], lists[d]);
      }
    }

    /** One round of a refill: the front block of the run, linked to `v`, ends the list. */
    method LinkBlock(h: nat, ghost hEnd: nat, c: nat, v: nat)
      requires Building(h, hEnd, c) && h + 8 * (c + 1) <= hEnd
      modifies this`memory, this`units, this`lists
      ensures |lists| == FREE_LISTS == |old(lists)| && heapSize == 8 * |Arena(units)|
      ensures lists[c] == old(lists)[c] + [h]
      ensures Owned(units, lists, startFree, endFree, h + 8 * (c + 1), hEnd) && Built(memory, freeList[..], lists, c, v)
      ensures KeepsOut(old(units), units) && KeepsWords(old(units), old(memory), memory)
    {
      hide FreeOk, OutOk, Given, KeepsOut, KeepsWords, Built;
      RunHead(units, h, hEnd);
      BuiltStep(units, memory, freeList[..], lists, c, h, v);
      HandedToFree(units, lists, startFree, endFree, h, hEnd, c);
      GivenKeeps(units, h, h + 8 * (c + 1), Handed, Free(h, c));
      GivenSame(units, h, h + 8 * (c + 1), Handed, Free(h, c));
      WriteKeeps(units, memory, h, v);
      memory := memory[h := v];
      units := Given(units, h, h + 8 * (c + 1), Free(h, c));
      lists := lists[c := lists[c] + [h]];
      BuiltLists(memory, freeList[..], lists, c, v);
    }

    static lemma BuiltLists(memory: map<nat, nat>, heads: seq<nat>, lists: seq<seq<nat>>, c: nat, end: nat)
      requires Built(memory, heads, lists, c, end)
      ensures |lists| == FREE_LISTS
    {
    }

    static lemma RunHead(units: map<nat, Owner>, h: nat, hEnd: nat)
      requires Run(units, h, hEnd, Handed) && h < hEnd
      ensures h in units && units[h] == Handed && Held(units, h, hEnd, Handed)
    {
    }

    /** The front block of the run goes to the client. */
    method HandOut(h: nat, ghost hEnd: nat, c: nat)
      requires ValidBut(h, hEnd) && c < FREE_LISTS && h + 8 * (c + 1) <= hEnd
      modifies this`units
      ensures ValidBut(h + 8 * (c + 1), hEnd) && KeepsOut(old(units), units)
      ensures Whole(units, h, c, Out(h, c)) && Held(old(units), h, h + 8 * (c + 1), Handed)
    {
      hide FreeOk, OutOk, Given, KeepsOut, Chains;
      RunHead(units, h, hEnd);
      HandedToOut(units, lists, startFree, endFree, h, hEnd, c);
      GivenKeeps(units, h, h + 8 * (c + 1), Handed, Out(h, c));
      GivenSame(units, h, h + 8 * (c + 1), Handed, Out(h, c));
      units := Given(units, h, h + 8 * (c + 1), Out(h, c));
    }

    /** `_S_refill`: one object for the client, the others onto the list of the class. Overwriting
        the head of that list loses nothing, for the list is empty and stays so until then. */
    method Refill(n: nat, got: nat, last: nat) returns (result: Option<nat>)
      requires Valid() && 8 <= n <= MAX_BYTES && n % 8 == 0 && |lists| == FREE_LISTS && lists[n / 8 - 1] == []
      requires endFree - startFree < n ==>
        MayReturn(got, BytesToGet(Total(n, REFILL))) && MayReturn(last, BytesToGet(Total(n, REFILL)))
      modifies this, freeList
      ensures Valid() && KeepsOut(old(units), units) && KeepsWords(old(units), old(memory), memory)
      ensures result.None? <==> old(Starved(n, got, last))
      ensures result.Some? ==> NewBlock(old(units), units, result.value, n / 8 - 1)
      ensures result.Some? ==> |lists| == FREE_LISTS && (|lists[n / 8 - 1]| == 19 || endFree - startFree < n)
      ensures heapSize == old(heapSize) + old(Demand(n, REFILL, got, last))
    {
      hide FreeOk, OutOk, Given, KeepsOut, KeepsWords, Chain, Chains, State, Fresh, RoundUp, Total, Built, Whole;
      var chunk, nobjs := ChunkAlloc(n, REFILL, got, last);
      if chunk.None? {
        return None;
      }
      var c := n / 8 - 1;
      ghost var u1, m1 := units, memory;
      TotalStep(n, nobjs);
      ghost var hEnd := chunk.value + Total(n, nobjs);
      HandOut(chunk.value, hEnd, c);
      result := chunk;
      ghost var u2, m2 := units, memory;
      KeepsTrans(old(units), u1, u2, old(memory), m1, m2) by { SameWords(u1, m1, m2); }
      NotOutBefore(old(units), u1, chunk.value, c);
      if nobjs == 1 {
        AllHandedOut(hEnd);
        StateLists();
        return;
      }
      BuildList(chunk.value + n, hEnd, n, nobjs, c);
      KeepsTrans(old(units), u2, units, old(memory), m2, memory);
      KeepsWhole(u2, units, chunk.value, c);
    }

    lemma AllHandedOut(h: nat)
      requires ValidBut(h, h)
      ensures Valid()
    {
      EmptyRun(units, h, Handed);
    }

    /** `b` is a block of class `c` that a client holds now and did not hold before. */
    static ghost predicate NewBlock(units: map<nat, Owner>, next: map<nat, Owner>, b: nat, c: nat) {
      Whole(next, b, c, Out(b, c)) && forall u :: u in units && InBlock(u, b, c) ==> !units[u].Out?
    }

    static lemma TotalStep(n: nat, nobjs: nat)
      requires nobjs > 0
      ensures Total(n, nobjs) == n + Total(n, nobjs - 1) && Total(n, 0) == 0
    {
    }

    static lemma NotOutBefore(units: map<nat, Owner>, next: map<nat, Owner>, b: nat, c: nat)
      requires KeepsOut(units, next) && Held(next, b, b + 8 * (c + 1), Handed)
      ensures forall u :: u in units && InBlock(u, b, c) ==> !units[u].Out?
    {
    }

    static lemma KeepsWhole(units: map<nat, Owner>, next: map<nat, Owner>, b: nat, c: nat)
      requires Whole(units, b, c, Out(b, c)) && KeepsOut(units, next)
      ensures Whole(next, b, c, Out(b, c))
    {
    }

    static lemma BuiltStart(memory: map<nat, nat>, heads: seq<nat>, lists: seq<seq<nat>>, c: nat, b: nat)
      requires Chains(memory, heads, lists) && c < FREE_LISTS && lists[c] == []
      ensures Built(memory, heads[c := b], lists, c, b)
    {
    }

    /** The free list that a refill builds in the run from `first` on. */
    method BuildList(first: nat, ghost hEnd: nat, n: nat, nobjs: nat, c: nat)
      requires ValidBut(first, hEnd) && c < FREE_LISTS && n == 8 * (c + 1) && nobjs >= 2
      requires |lists| == FREE_LISTS && lists[c] == [] && hEnd == first + Total(n, nobjs - 1)
      modifies this`memory, this`units, this`lists, freeList
      ensures Valid() && KeepsOut(old(units), units) && KeepsWords(old(units), old(memory), memory)
      ensures |lists| == FREE_LISTS && |lists[c]| == nobjs - 1
    {
      hide FreeOk, OutOk, KeepsOut, KeepsWords, Chain, Chains, Total, Built;
      ghost var u0, m0, heads := units, memory, freeList[..];
      NothingKept(units, memory);
      BuiltStart(memory, heads, lists, c, first);
      var next: nat := first;
      freeList[c] := next;
      assert freeList[..] == heads[c := first];
      var i := 1;
      while true
        invariant 1 <= i < nobjs && Building(next, hEnd, c) && hEnd == next + Total(n, nobjs - i)
        invariant KeepsOut(u0, units) && KeepsWords(u0, m0, memory)
        invariant |lists| == FREE_LISTS && |lists[c]| == i - 1
        decreases nobjs - i
      {
        ghost var u1, m1 := units, memory;
        TotalStep(n, nobjs - i);
        var current := next;
        next := next + n;
        if nobjs - 1 == i {
          LinkBlock(current, hEnd, c, 0);
          EmptyRun(units, next, Handed);
          BuiltChains(memory, freeList[..], lists, c);
          KeepsTrans(u0, u1, units, m0, m1, memory);
          break;
        } else {
          LinkBlock(current, hEnd, c, next);
          KeepsTrans(u0, u1, units, m0, m1, memory);
        }
        i := i + 1;
      }
    }

    /** The bytes that an allocation of `n` asks `malloc` for, if it does. */
    ghost function Request(n: nat): nat
      reads this`heapSize
    {
      if n > MAX_BYTES then n else BytesToGet(Total(RoundUp(n), REFILL))
    }

    /** What `malloc_alloc` comes to when `malloc` returns `got`, and when that is null its handler `last`. */
    static function Returns(got: nat, last: nat): Option<nat> {
      if got != 0 then Some(got) else if last != 0 then Some(last) else None
    }

    /** An allocation of `n` bytes has to fail. */
    ghost predicate Fails(n: nat, got: nat, last: nat)
      reads this
    {
      if n > MAX_BYTES then got == 0 && last == 0 else Starved(RoundUp(n), got, last)
    }

    /** `allocate`: a block of the class of `n`, straight from `malloc` when it is large. Nothing
        that clients hold changes hands or content. */
    method Allocate(n: nat, got: nat, last: nat) returns (result: Option<nat>)
      requires Valid() && n > 0 && MayReturn(got, Request(n)) && MayReturn(last, Request(n))
      modifies this, freeList
      ensures Valid() && KeepsOut(old(units), units) && KeepsWords(old(units), old(memory), memory)
      ensures result.None? <==> old(Fails(n, got, last))
      ensures result.Some? ==> NewBlock(old(units), units, result.value, FreelistIndex(n))
      ensures |lists| == |old(lists)| == FREE_LISTS
      ensures n <= MAX_BYTES && old(lists)[FreelistIndex(n)] != [] ==>
        result == Some(old(lists)[FreelistIndex(n)][0]) && heapSize == old(heapSize) &&
        lists == old(lists[FreelistIndex(n) := lists[FreelistIndex(n)][1..]])
      ensures n <= MAX_BYTES && old(lists)[FreelistIndex(n)] == [] ==>
        heapSize == old(heapSize + Demand(RoundUp(n), REFILL, got, last))
      ensures n > MAX_BYTES ==> lists == old(lists) && memory == old(memory) && result == Returns(got, last)
    {
      hide FreeOk, OutOk, KeepsOut, KeepsWords, Chain, Chains, Total, State, Fresh, Given, Whole, RoundUp;
      NothingKept(units, memory);
      ClassSize(n);
      StateLists();
      if n > MAX_BYTES {
        var p := if got != 0 then got else last;
        if p == 0 {
          return None;
        }
        FreshRounded(units, p, n);
        LargeState(p, FreelistIndex(n));
        units := Grown(units, p, RoundUp(n), Out(p, FreelistIndex(n)));
        return Some(p);
      }
      var c := FreelistIndex(n);
      var head: nat := freeList[c];
      HeadOfList(c);
      if head == 0 {
        result := Refill(RoundUp(n), got, last);
        StateLists();
        return;
      }
      FirstOut(units, lists, memory, freeList[..], startFree, endFree, c);
      ghost var heads := freeList[..];
      freeList[c] := memory[head];
      assert freeList[..] == heads[c := memory[head]];
      units := Given(units, head, head + 8 * (c + 1), Out(head, c));
      lists := lists[c := lists[c][1..]];
      return Some(head);
    }

    lemma LargeState(p: nat, c: nat)
      requires Valid() && Fresh(units, p, 8 * (c + 1)) && c >= FREE_LISTS
      ensures var g := Grown(units, p, 8 * (c + 1), Out(p, c));
              && State(g, lists, memory, freeList[..], startFree, endFree, 0, 0) && Arena(g) == Arena(units)
              && KeepsOut(units, g) && NewBlock(units, g, p, c)
    {
      hide FreeOk, OutOk, KeepsOut, Grown, Arena;
      NewLarge(units, lists, startFree, endFree, p, c);
    }

    lemma HeadOfList(c: nat)
      requires Valid() && c < FREE_LISTS
      ensures |lists| == FREE_LISTS && (freeList[c] == 0 <==> lists[c] == [])
      ensures lists[c] != [] ==> freeList[c] == lists[c][0]
    {
      ListHead(units, memory, freeList[..], lists, c);
    }

    static lemma FirstOut(units: map<nat, Owner>, lists: seq<seq<nat>>, memory: map<nat, nat>, heads: seq<nat>,
                          start: nat, end: nat, c: nat)
      requires State(units, lists, memory, heads, start, end, 0, 0) && c < FREE_LISTS && |heads| == FREE_LISTS &&
        heads[c] != 0
      ensures |lists| == FREE_LISTS && lists[c] != [] && heads[c] in memory
      ensures var b := heads[c]; var next := Given(units, b, b + 8 * (c + 1), Out(b, c));
              && State(next, lists[c := lists[c][1..]], memory, heads[c := memory[b]], start, end, 0, 0)
              && KeepsOut(units, next) && Arena(next) == Arena(units) && NewBlock(units, next, b, c)
    {
      hide OutOk, Given, KeepsOut, Chain, FreeOk;
      var b := heads[c];
      ListHead(units, memory, heads, lists, c);
      FreeToOut(units, lists, start, end, c);
      ChainPop(memory, heads, lists, c);
      FreeRemoved(units, lists, c, Out(b, c));
      GivenKeeps(units, b, b + 8 * (c + 1), Free(b, c), Out(b, c));
      GivenSame(units, b, b + 8 * (c + 1), Free(b, c), Out(b, c));
    }

    /** The owners once a block of `n` bytes is given back. */
    static ghost function Returned(units: map<nat, Owner>, p: nat, n: nat): map<nat, Owner>
      requires n > 0
    {
      var c := FreelistIndex(n);
      if n > MAX_BYTES then Without(units, p, c) else Given(units, p, p + 8 * (c + 1), Free(p, c))
    }

    /** `deallocate`: the block goes onto the list of its class, or back to `malloc`. */
    method Deallocate(p: nat, n: nat)
      requires Valid() && n > 0 && p in units && units[p] == Out(p, FreelistIndex(n))
      modifies this, freeList
      ensures Valid() && heapSize == old(heapSize) && units == Returned(old(units), p, n)
      ensures n > MAX_BYTES ==> lists == old(lists)
      ensures |old(lists)| == FREE_LISTS
      ensures n <= MAX_BYTES ==> lists == old(lists[FreelistIndex(n) := [p] + lists[FreelistIndex(n)]])
      ensures forall u :: u != p ==> SameWord(old(memory), memory, u)
      ensures n > MAX_BYTES ==> memory == old(memory)
    {
      hide FreeOk, OutOk, Chain, Chains, Given, Without, Arena;
      var c := FreelistIndex(n);
      ClassSize(n);
      StateLists();
      if n > MAX_BYTES {
        LargeGone(units, lists, startFree, endFree, p, c);
        units := Without(units, p, c);
        return;
      }
      ghost var heads := freeList[..];
      LargeHeld(units, p, c);
      OutToFree(units, lists, startFree, endFree, p, c);
      ChainPush(units, memory, heads, lists, p, c);
      GivenSame(units, p, p + 8 * (c + 1), Out(p, c), Free(p, c));
      memory := memory[p := freeList[c]];
      freeList[c] := p;
      assert freeList[..] == heads[c := p];
      units := Given(units, p, p + 8 * (c + 1), Free(p, c));
      lists := lists[c := [p] + lists[c]];
    }

    /** A client writes a word into a block that it holds. */
    method Write(u: nat, v: nat)
      requires Valid() && u in units && units[u].Out?
      modifies this`memory
      ensures Valid() && memory == old(memory)[u := v]
    {
      ListsApart(units, memory, freeList[..], lists, u, v);
      memory := memory[u := v];
    }

    static lemma ListsApart(units: map<nat, Owner>, memory: map<nat, nat>, heads: seq<nat>, lists: seq<seq<nat>>,
                            u: nat, v: nat)
      requires FreeOk(units, lists) && Chains(memory, heads, lists) && u in units && !units[u].Free?
      ensures Chains(memory[u := v], heads, lists)
    {
      forall d: nat | d < FREE_LISTS
        ensures Chain(memory[u := v], heads[d], lists[d])
      {
        NotListed(units, lists, u, d);
        ChainFramed(memory, memory[u := v], heads[d], lists[d]);
      }
    }

    /** What `realloc` may return for a block of class `c`: null, or memory apart from all other blocks. */
    ghost predicate MayMove(p: nat, c: nat, got: nat, bytes: nat)
      reads this
    {
      got == 0 || Fresh(Without(units, p, c), got, bytes)
    }

    /** `reallocate`: between two large sizes by `realloc`, within a class by doing nothing, otherwise
        by a new block, the whole words that fit being copied. */
    method Reallocate(p: nat, oldSize: nat, newSize: nat, got: nat, last: nat) returns (result: Option<nat>)
      requires Valid() && oldSize > 0 && newSize > 0 && p in units && units[p] == Out(p, FreelistIndex(oldSize))
      requires oldSize > MAX_BYTES && newSize > MAX_BYTES ==> MayMove(p, FreelistIndex(oldSize), got, newSize)
      requires !(oldSize > MAX_BYTES && newSize > MAX_BYTES) ==>
        MayReturn(got, Request(newSize)) && MayReturn(last, Request(newSize))
      modifies this, freeList
      ensures Valid()
      ensures result.None? ==> KeepsOut(old(units), units) && KeepsWords(old(units), old(memory), memory)
      ensures !(oldSize > MAX_BYTES && newSize > MAX_BYTES) ==>
        (result.None? <==> RoundUp(oldSize) != RoundUp(newSize) && old(Fails(newSize, got, last)))
      ensures result.Some? ==>
        Whole(units, result.value, FreelistIndex(newSize), Out(result.value, FreelistIndex(newSize)))
      ensures oldSize > MAX_BYTES && newSize > MAX_BYTES ==>
        result == (if got == 0 then None else Some(got)) && lists == old(lists)
      ensures result.Some? && oldSize <= MAX_BYTES && FreelistIndex(newSize) == FreelistIndex(oldSize) ==>
        result.value == p && memory == old(memory)
      ensures result.Some? && oldSize <= MAX_BYTES && FreelistIndex(newSize) != FreelistIndex(oldSize) ==>
        p in units && units[p] == Free(p, FreelistIndex(oldSize))
      ensures result.Some? && oldSize > MAX_BYTES >= newSize ==> p !in units
      ensures result.Some? ==> Copied(old(memory), memory, p, result.value, Least(oldSize, newSize))
      ensures OthersSame(old(units), units, old(memory), memory, p, FreelistIndex(oldSize))
    {
      hide FreeOk, OutOk, Chain, Chains, State, Fresh, RoundUp, Given, Whole, KeepsOut, KeepsWords, NewBlock, Copied,
        InBlock, OthersSame, Without, Arena;
      ClassSize(oldSize);
      ClassSize(newSize);
      ghost var c, d := FreelistIndex(oldSize), FreelistIndex(newSize);
      ghost var u0, m0 := units, memory;
      HeldWhole(p, c);
      OwnersOk();
      NothingKept(units, memory);
      KeepsOthers(u0, units, m0, memory, p, c);
      SameCopied(memory, p, Least(oldSize, newSize));
      if oldSize > MAX_BYTES && newSize > MAX_BYTES {
        if got == 0 {
          return None;
        }
        Realloc(p, oldSize, newSize, got);
        return Some(got);
      }
      if RoundUp(oldSize) == RoundUp(newSize) {
        return Some(p);
      }
      result := Allocate(newSize, got, last);
      KeepsOthers(u0, units, m0, memory, p, c);
      if result.None? {
        return;
      }
      KeepsWhole(u0, units, p, c);
      NewWhole(u0, units, result.value, d, p);
      WordsKept(u0, m0, memory, p, c, oldSize);
      ghost var u1, m1 := units, memory;
      MoveBlock(p, oldSize, result.value, newSize);
      CopiedTrans(m0, m1, memory, p, result.value, oldSize, Least(oldSize, newSize));
      OthersKept(u0, u1, units, m0, m1, memory, p, oldSize, result.value, d);
    }

    static function Least(a: nat, b: nat): nat { if b > a then a else b }

    /** The bytes in whole words. */
    static function WholeWords(n: nat): nat { n / 8 * 8 }

    static predicate IsWord(u: nat) { u % 8 == 0 }

    /** The words of the first `n` bytes at `p`, at `q` too. */
    static function Moved(m: map<nat, nat>, p: nat, q: nat, n: nat): map<nat, nat> {
      m + Shifted(m, p, q, n)
    }

    static function Shifted(m: map<nat, nat>, p: nat, q: nat, n: nat): map<nat, nat> {
      map u: nat | q <= u < q + WholeWords(n) && IsWord(u) && p + (u - q) in m :: m[p + (u - q)]
    }

    /** The `realloc` of the C library, as far as the allocator sees it: the block moves to `q`, which
        may be where it was, with as many of its words as fit. */
    method Realloc(p: nat, oldSize: nat, newSize: nat, q: nat)
      requires Valid() && oldSize > MAX_BYTES && newSize > MAX_BYTES && p in units &&
        units[p] == Out(p, FreelistIndex(oldSize))
      requires q > 0 && MayMove(p, FreelistIndex(oldSize), q, newSize)
      modifies this`units, this`memory
      ensures Valid() && Whole(units, q, FreelistIndex(newSize), Out(q, FreelistIndex(newSize)))
      ensures memory == Moved(old(memory), p, q, Least(oldSize, newSize)) &&
        Copied(old(memory), memory, p, q, Least(oldSize, newSize))
      ensures OthersSame(old(units), units, old(memory), memory, p, FreelistIndex(oldSize))
    {
      hide FreeOk, OutOk, Chain, Given, Whole, KeepsOut, Copied, OthersSame, Without, Arena, Grown, Fresh, Run,
        RoundUp, Moved, InBlock;
      ClassSize(oldSize);
      ClassSize(newSize);
      ghost var c, d, u0, m0, n := FreelistIndex(oldSize), FreelistIndex(newSize), units, memory,
        Least(oldSize, newSize);
      ghost var rest := Without(u0, p, c);
      LargeGone(u0, lists, startFree, endFree, p, c);
      LargeHeld(u0, p, c);
      FreshRounded(rest, q, newSize);
      NewLarge(rest, lists, startFree, endFree, q, d);
      ListsMoved(u0, m0, freeList[..], lists, p, c, q, d, n);
      MovedOthers(u0, m0, p, c, q, d, n);
      MovedCopied(u0, m0, p, c, q, d, n);
      memory := Moved(memory, p, q, if newSize > oldSize then oldSize else newSize);
      units := Grown(rest, q, 8 * (d + 1), Out(q, d));
    }

    static lemma MovedCopied(units: map<nat, Owner>, m: map<nat, nat>, p: nat, c: nat, q: nat, d: nat, n: nat)
      requires Fresh(Without(units, p, c), q, 8 * (d + 1))
      ensures Copied(m, Moved(m, p, q, n), p, q, n)
    {
      hide Moved, Without;
      forall k: nat | 8 * k + 8 <= n && p + 8 * k in m
        ensures q + 8 * k in Moved(m, p, q, n) && Moved(m, p, q, n)[q + 8 * k] == m[p + 8 * k]
      {
        WordMoved(m, p, q, n, k);
      }
    }

    static lemma WordMoved(m: map<nat, nat>, p: nat, q: nat, n: nat, k: nat)
      requires q % 8 == 0 && 8 * k + 8 <= n && p + 8 * k in m
      ensures q + 8 * k in Moved(m, p, q, n) && Moved(m, p, q, n)[q + 8 * k] == m[p + 8 * k]
    {
      hide WholeWords, IsWord, Shifted;
      WordInside(q, n, k);
      ShiftedAt(m, p, q, n, q + 8 * k);
    }

    static lemma ShiftedAt(m: map<nat, nat>, p: nat, q: nat, n: nat, u: nat)
      requires q <= u < q + WholeWords(n) && IsWord(u) && p + (u - q) in m
      ensures u in Shifted(m, p, q, n) && Shifted(m, p, q, n)[u] == m[p + (u - q)]
    {
      hide WholeWords, IsWord;
    }

    static lemma WordInside(q: nat, n: nat, k: nat)
      requires q % 8 == 0 && 8 * k + 8 <= n
      ensures q + 8 * k < q + WholeWords(n) && IsWord(q + 8 * k)
    {
    }

    static lemma ListsMoved(units: map<nat, Owner>, m: map<nat, nat>, heads: seq<nat>, lists: seq<seq<nat>>, p: nat,
                            c: nat, q: nat, d: nat, n: nat)
      requires FreeOk(units, lists) && Chains(m, heads, lists) && Held(units, p, p + 8 * (c + 1), Out(p, c))
      requires Fresh(Without(units, p, c), q, 8 * (d + 1)) && n <= 8 * (d + 1)
      ensures Chains(Moved(m, p, q, n), heads, lists)
    {
      forall e: nat | e < FREE_LISTS
        ensures Chain(Moved(m, p, q, n), heads[e], lists[e])
      {
        forall b | b in lists[e]
          ensures b % 8 == 0 && !(q <= b < q + 8 * (d + 1))
        {
          var i: nat :| i < |lists[e]| && lists[e][i] == b;
          assert Whole(units, lists[e][i], e, Free(b, e)) && InBlock(b, b, e);
          assert b in Without(units, p, c);
        }
        ChainFramed(m, Moved(m, p, q, n), heads[e], lists[e]);
      }
    }

    static lemma MovedOthers(units: map<nat, Owner>, m: map<nat, nat>, p: nat, c: nat, q: nat, d: nat, n: nat)
      requires Aligned(units) && Held(units, p, p + 8 * (c + 1), Out(p, c))
      requires Fresh(Without(units, p, c), q, 8 * (d + 1)) && n <= 8 * (d + 1)
      ensures OthersSame(units, Grown(Without(units, p, c), q, 8 * (d + 1), Out(q, d)), m, Moved(m, p, q, n), p, c)
    {
      var rest := Without(units, p, c);
      GrownIs(rest, q, 8 * (d + 1), Out(q, d));
      forall u: nat | u in units && units[u].Out? && units[u] != Out(p, c)
        ensures u in rest && !(q <= u < q + 8 * (d + 1)) && SameWord(m, Moved(m, p, q, n), u)
      {
      }
    }

    static ghost predicate SameWord(m: map<nat, nat>, next: map<nat, nat>, u: nat) {
      (u in m <==> u in next) && (u in m ==> next[u] == m[u])
    }

    /** The blocks that clients hold besides this one keep their owners and their words. */
    static ghost predicate OthersSame(units: map<nat, Owner>, next: map<nat, Owner>, m: map<nat, nat>,
                                      n: map<nat, nat>, p: nat, c: nat) {
      forall u: nat :: u in units && units[u].Out? && units[u] != Out(p, c) ==>
        u in next && next[u] == units[u] && SameWord(m, n, u)
    }

    static lemma KeepsOthers(units: map<nat, Owner>, next: map<nat, Owner>, m: map<nat, nat>, n: map<nat, nat>, p: nat,
                             c: nat)
      requires KeepsOut(units, next) && KeepsWords(units, m, n)
      ensures OthersSame(units, next, m, n, p, c)
    {
    }

    static lemma SameCopied(m: map<nat, nat>, p: nat, n: nat)
      ensures Copied(m, m, p, p, n)
    {
    }

    static lemma NewWhole(units: map<nat, Owner>, next: map<nat, Owner>, b: nat, c: nat, p: nat)
      requires NewBlock(units, next, b, c) && p in units && units[p].Out?
      ensures Whole(next, b, c, Out(b, c)) && b != p
    {
      assert InBlock(b, b, c);
    }

    lemma OwnersOk()
      requires Valid()
      ensures OutOk(units) && Aligned(units)
    {
    }

    /** What other clients hold, and its words, through the whole of a `reallocate`. */
    static lemma OthersKept(u0: map<nat, Owner>, u1: map<nat, Owner>, u2: map<nat, Owner>, m0: map<nat, nat>,
                            m1: map<nat, nat>, m2: map<nat, nat>,
                            p: nat, n: nat, q: nat, d: nat)
      requires n > 0 && u2 == Returned(u1, p, n)
      requires OutOk(u0) && KeepsOut(u0, u1) && KeepsWords(u0, m0, m1) && NewBlock(u0, u1, q, d)
      requires Whole(u0, p, FreelistIndex(n), Out(p, FreelistIndex(n)))
      requires forall u: nat :: u != p && !InBlock(u, q, d) ==> SameWord(m1, m2, u)
      requires Aligned(u0)
      ensures OthersSame(u0, u2, m0, m2, p, FreelistIndex(n))
    {
      var c := FreelistIndex(n);
      forall u: nat | u in u0 && u0[u].Out? && u0[u] != Out(p, c)
        ensures u in u2 && u2[u] == u0[u] && SameWord(m0, m2, u)
      {
        assert InBlock(p, p, c);
      }
    }

    static lemma WordsKept(units: map<nat, Owner>, m: map<nat, nat>, next: map<nat, nat>, p: nat, c: nat, n: nat)
      requires KeepsWords(units, m, next) && Whole(units, p, c, Out(p, c)) && n <= 8 * (c + 1)
      ensures Copied(m, next, p, p, n)
    {
      forall k: nat | 8 * k + 8 <= n
        ensures p + 8 * k in units && units[p + 8 * k].Out?
      {
        assert InBlock(p + 8 * k, p, c);
      }
    }

    /** The end of `reallocate`: the words copied, the old block given back. */
    method MoveBlock(p: nat, oldSize: nat, q: nat, newSize: nat)
      requires Valid() && oldSize > 0 && newSize > 0 && p != q
      requires Whole(units, p, FreelistIndex(oldSize), Out(p, FreelistIndex(oldSize)))
      requires Whole(units, q, FreelistIndex(newSize), Out(q, FreelistIndex(newSize)))
      modifies this, freeList
      ensures Valid() && units == Returned(old(units), p, oldSize)
      ensures oldSize <= MAX_BYTES ==> p in units && units[p] == Free(p, FreelistIndex(oldSize))
      ensures oldSize > MAX_BYTES ==> p !in units
      ensures Whole(units, q, FreelistIndex(newSize), Out(q, FreelistIndex(newSize)))
      ensures Copied(old(memory), memory, p, q, Least(oldSize, newSize))
      ensures forall u: nat :: u != p && !InBlock(u, q, FreelistIndex(newSize)) ==>
                SameWord(old(memory), memory, u)
    {
      hide Given, Without, RoundUp, State, Whole, Copied;
      ClassSize(oldSize);
      ClassSize(newSize);
      ghost var c, d := FreelistIndex(oldSize), FreelistIndex(newSize);
      var copySize := if newSize > oldSize then oldSize else newSize;
      ApartBlocks(units, p, c, q, d);
      WordsApart(units, p, c, q, d, copySize);
      CopyWords(p, q, copySize, c, d);
      WholeHead(units, p, c);
      ghost var m := memory;
      Deallocate(p, oldSize);
      StillCopied(old(memory), m, memory, p, q, copySize);
      SameThrough(old(memory), m, memory, p, q, d);
    }

    static lemma SameThrough(m0: map<nat, nat>, m: map<nat, nat>, next: map<nat, nat>, p: nat, q: nat, d: nat)
      requires SameOutside(m0, m, q, d) && forall u :: u != p ==> SameWord(m, next, u)
      ensures forall u: nat :: u != p && !InBlock(u, q, d) ==> SameWord(m0, next, u)
    {
      forall u: nat | u != p && !InBlock(u, q, d)
        ensures SameWord(m0, next, u)
      {
        assert SameWord(m, next, u);
      }
    }

    static lemma WholeHead(units: map<nat, Owner>, b: nat, c: nat)
      requires Whole(units, b, c, Out(b, c))
      ensures b in units && units[b] == Out(b, c)
    {
      assert InBlock(b, b, c);
    }

    /** The whole words of the first `n` bytes at `p` in `m0` are at `q` in `m`. */
    static ghost predicate Copied(m0: map<nat, nat>, m: map<nat, nat>, p: nat, q: nat, n: nat) {
      forall k: nat :: 8 * k + 8 <= n && p + 8 * k in m0 ==> q + 8 * k in m && m[q + 8 * k] == m0[p + 8 * k]
    }

    static lemma StillCopied(m0: map<nat, nat>, m: map<nat, nat>, next: map<nat, nat>, p: nat, q: nat, n: nat)
      requires Copied(m0, m, p, q, n) && forall u :: u != p ==> SameWord(m, next, u)
      requires forall j: nat, k: nat :: 8 * j + 8 <= n && 8 * k + 8 <= n ==> p + 8 * j != q + 8 * k
      ensures Copied(m0, next, p, q, n)
    {
      forall k: nat | 8 * k + 8 <= n && p + 8 * k in m0
        ensures q + 8 * k in next && next[q + 8 * k] == m0[p + 8 * k]
      {
        assert p + 8 * 0 != q + 8 * k;
        assert SameWord(m, next, q + 8 * k);
      }
    }

    static lemma CopiedTrans(m0: map<nat, nat>, m1: map<nat, nat>, m2: map<nat, nat>, p: nat, q: nat, n: nat, m: nat)
      requires Copied(m0, m1, p, p, n) && Copied(m1, m2, p, q, m) && m <= n
      ensures Copied(m0, m2, p, q, m)
    {
    }

    lemma HeldWhole(p: nat, c: nat)
      requires Valid() && p in units && units[p] == Out(p, c)
      ensures Whole(units, p, c, Out(p, c))
    {
    }

    /** Two blocks that clients hold share no unit, and one given back leaves the other whole. */
    static lemma ApartBlocks(units: map<nat, Owner>, p: nat, c: nat, q: nat, d: nat)
      requires Whole(units, p, c, Out(p, c)) && Whole(units, q, d, Out(q, d)) && p != q
      ensures forall u: nat, v: nat :: InBlock(u, p, c) && InBlock(v, q, d) ==> u != v
      ensures Whole(Given(units, p, p + 8 * (c + 1), Free(p, c)), q, d, Out(q, d))
      ensures var g := Given(units, p, p + 8 * (c + 1), Free(p, c)); p in g && g[p] == Free(p, c)
      ensures Whole(Without(units, p, c), q, d, Out(q, d)) && p !in Without(units, p, c)
    {
      assert InBlock(p, p, c);
    }

    /** No word outside this block differs. */
    static ghost predicate SameOutside(m: map<nat, nat>, next: map<nat, nat>, b: nat, c: nat) {
      forall u: nat :: !InBlock(u, b, c) ==> (u in m <==> u in next) && (u in m ==> next[u] == m[u])
    }

    static lemma CopyStep(units: map<nat, Owner>, m0: map<nat, nat>, m: map<nat, nat>, p: nat, c: nat, q: nat, d: nat,
                          k: nat)
      requires Whole(units, p, c, Out(p, c)) && Whole(units, q, d, Out(q, d)) && p != q && k <= c && k <= d
      requires SameOutside(m0, m, q, d) && Copied(m0, m, p, q, 8 * k)
      ensures q + 8 * k in units && units[q + 8 * k].Out?
      ensures var next := if p + 8 * k in m then m[q + 8 * k := m[p + 8 * k]] else m;
              SameOutside(m0, next, q, d) && Copied(m0, next, p, q, 8 * k + 8)
    {
      assert InBlock(q + 8 * k, q, d) && InBlock(p + 8 * k, p, c);
      assert !InBlock(p + 8 * k, q, d);
    }

    /** `memcpy` from one block to another, by whole words. */
    method CopyWords(p: nat, q: nat, n: nat, ghost c: nat, ghost d: nat)
      requires Valid() && p != q && n <= 8 * (c + 1) && n <= 8 * (d + 1)
      requires Whole(units, p, c, Out(p, c)) && Whole(units, q, d, Out(q, d))
      modifies this`memory
      ensures Valid() && Copied(old(memory), memory, p, q, n) && SameOutside(old(memory), memory, q, d)
    {
      hide State, Copied, SameOutside, Whole;
      ghost var m0 := memory;
      NothingCopied(m0, p, q, d);
      for k := 0 to n / 8
        invariant Valid() && SameOutside(m0, memory, q, d) && Copied(m0, memory, p, q, 8 * k)
      {
        CopyStep(units, m0, memory, p, c, q, d, k);
        if p + 8 * k in memory {
          Write(q + 8 * k, memory[p + 8 * k]);
        }
      }
      CopiedShort(m0, memory, p, q, n);
    }

    static lemma NothingCopied(m: map<nat, nat>, p: nat, q: nat, d: nat)
      ensures SameOutside(m, m, q, d) && Copied(m, m, p, q, 0)
    {
    }

    static lemma CopiedShort(m0: map<nat, nat>, m: map<nat, nat>, p: nat, q: nat, n: nat)
      requires Copied(m0, m, p, q, 8 * (n / 8))
      ensures Copied(m0, m, p, q, n)
    {
    }

    static lemma WordsApart(units: map<nat, Owner>, p: nat, c: nat, q: nat, d: nat, n: nat)
      requires Whole(units, p, c, Out(p, c)) && Whole(units, q, d, Out(q, d)) && p != q && n <= 8 * (c + 1) &&
        n <= 8 * (d + 1)
      ensures forall j: nat, k: nat :: 8 * j + 8 <= n && 8 * k + 8 <= n ==> p + 8 * j != q + 8 * k
    {
      forall j: nat, k: nat | 8 * j + 8 <= n && 8 * k + 8 <= n
        ensures p + 8 * j != q + 8 * k
      {
        assert InBlock(p + 8 * j, p, c) && InBlock(q + 8 * k, q, d);
      }
    }
  }

  /** A large block is asked to be larger, and `realloc` fails: null is returned, without the handler being tried, and
      the block is held as before. */
  method ReallocateNull(p: nat) returns (a: Allocator, result: Option<nat>)
    requires p > 0 && p % 8 == 0
    ensures fresh(a) && a.Valid() && result == None && p in a.units && a.units[p] == Out(p, FreelistIndex(200))
  {
    a := new Allocator();
    var block := a.Allocate(200, p, 0);
    BlockHeld(map[], a.units, p, FreelistIndex(200));
    result := a.Reallocate(p, 200, 300, 0, p);
    BlockHeld(map[], a.units, p, FreelistIndex(200));
  }

  lemma BlockHeld(was: map<nat, Owner>, units: map<nat, Owner>, p: nat, c: nat)
    ensures Allocator.NewBlock(was, units, p, c) ==> p in units && units[p] == Out(p, c)
  {
    assert InBlock(p, p, c) || p % 8 != 0;
  }

  // ---------- conservation, in bytes ----------

  /** The units of the blocks of one list. */
  ghost function ListUnits(list: seq<nat>, c: nat): set<nat> {
    if list == [] then {} else Stretch(list[0], 8 * (c + 1)) + ListUnits(list[1..], c)
  }

  ghost function ListBytes(list: seq<nat>, c: nat): nat {
    if list == [] then 0 else 8 * (c + 1) + ListBytes(list[1..], c)
  }

  /** The units and the bytes of the first `n` lists. */
  ghost function FreeUnits(lists: seq<seq<nat>>, n: nat): set<nat>
    requires n <= |lists|
  {
    if n == 0 then {} else FreeUnits(lists, n - 1) + ListUnits(lists[n - 1], n - 1)
  }

  ghost function FreeBytes(lists: seq<seq<nat>>, n: nat): nat
    requires n <= |lists|
  {
    if n == 0 then 0 else FreeBytes(lists, n - 1) + ListBytes(lists[n - 1], n - 1)
  }

  ghost predicate ListWhole(units: map<nat, Owner>, list: seq<nat>, c: nat) {
    && (forall i: nat :: i < |list| ==> Whole(units, list[i], c, Free(list[i], c)))
    && (forall i: nat, j: nat :: i < j < |list| ==> list[i] != list[j])
  }

  lemma {:induction false} ListUnitsHave(list: seq<nat>, c: nat, u: nat, b: nat)
    requires b in list && InBlock(u, b, c)
    ensures u in ListUnits(list, c)
    decreases |list|
  {
    if b != list[0] {
      ListUnitsHave(list[1..], c, u, b);
    }
  }

  /** What a unit of the list's blocks is, and the size of them all. */
  lemma {:induction false} ListUnitsAre(units: map<nat, Owner>, list: seq<nat>, c: nat)
    requires ListWhole(units, list, c)
    ensures forall u :: u in ListUnits(list, c) ==>
      u in units && units[u].Free? && units[u].cls == c && units[u].block in list
    ensures 8 * |ListUnits(list, c)| == ListBytes(list, c)
    decreases |list|
  {
    if list != [] {
      var rest, s := list[1..], Stretch(list[0], 8 * (c + 1));
      FirstListed(units, list, c);
      ListUnitsAre(units, rest, c);
      StretchSize(list[0], 8 * (c + 1));
      assert s !! ListUnits(rest, c);
      assert |s + ListUnits(rest, c)| == |s| + |ListUnits(rest, c)|;
    }
  }

  lemma FirstListed(units: map<nat, Owner>, list: seq<nat>, c: nat)
    requires ListWhole(units, list, c) && list != []
    ensures ListWhole(units, list[1..], c) && list[0] !in list[1..] && list[0] % 8 == 0
    ensures forall u :: u in Stretch(list[0], 8 * (c + 1)) ==> u in units && units[u] == Free(list[0], c)
  {
    var rest := list[1..];
    assert forall i: nat :: i < |rest| ==> rest[i] == list[i + 1];
    assert Whole(units, list[0], c, Free(list[0], c));
    forall u | u in Stretch(list[0], 8 * (c + 1))
      ensures u in units && units[u] == Free(list[0], c)
    {
      assert InBlock(u, list[0], c);
    }
  }

  lemma {:induction false} FreeUnitsAre(units: map<nat, Owner>, lists: seq<seq<nat>>, n: nat)
    requires FreeOk(units, lists) && n <= FREE_LISTS
    ensures forall u :: u in FreeUnits(lists, n) <==> u in units && units[u].Free? && units[u].cls < n
    ensures 8 * |FreeUnits(lists, n)| == FreeBytes(lists, n)
  {
    if n > 0 {
      var c := n - 1;
      FreeUnitsAre(units, lists, c);
      assert ListWhole(units, lists[c], c);
      ListUnitsAre(units, lists[c], c);
      forall u | u in units && units[u].Free? && units[u].cls == c
        ensures u in ListUnits(lists[c], c)
      {
        ListUnitsHave(lists[c], c, u, units[u].block);
      }
      assert FreeUnits(lists, c) !! ListUnits(lists[c], c);
      assert |FreeUnits(lists, c) + ListUnits(lists[c], c)| == |FreeUnits(lists, c)| + |ListUnits(lists[c], c)|;
    }
  }

  /** The units of the small blocks that clients hold. */
  ghost function OutUnits(units: map<nat, Owner>): set<nat> {
    set u | u in units && units[u].Out? && units[u].cls < FREE_LISTS
  }

  lemma PoolUnitsAre(units: map<nat, Owner>, start: nat, end: nat)
    requires start <= end && Aligned(units) && Run(units, start, end, Pool)
    ensures forall u :: u in Stretch(start, end - start) <==> u in units && units[u] == Pool
    ensures 8 * |Stretch(start, end - start)| == end - start
  {
    if start < end {
      StretchSize(start, end - start);
    } else {
      assert Stretch(start, 0) == {};
    }
  }

  /** Free blocks, pool and small blocks held by clients account for every byte that the pool was
      ever given. */
  lemma Conservation(units: map<nat, Owner>, lists: seq<seq<nat>>, start: nat, end: nat)
    requires Owned(units, lists, start, end, 0, 0)
    ensures |lists| == FREE_LISTS
    ensures 8 * |Arena(units)| == (end - start) + FreeBytes(lists, FREE_LISTS) + 8 * |OutUnits(units)|
  {
    hide FreeOk, OutOk, Arena, OutUnits, Stretch, FreeUnits, FreeBytes;
    Lists16(units, lists);
    FreeUnitsAre(units, lists, FREE_LISTS);
    PoolUnitsAre(units, start, end);
    ArenaParts(units, lists, start, end);
    ThreeParts(Stretch(start, end - start), FreeUnits(lists, FREE_LISTS), OutUnits(units));
  }

  /** A unit of the arena is of the pool, free or out, and only one of these. */
  lemma ArenaParts(units: map<nat, Owner>, lists: seq<seq<nat>>, start: nat, end: nat)
    requires Owned(units, lists, start, end, 0, 0) && |lists| == FREE_LISTS
    ensures var p, f, o := Stretch(start, end - start), FreeUnits(lists, FREE_LISTS), OutUnits(units);
            Arena(units) == p + f + o && p !! f && (p + f) !! o
  {
    hide FreeOk, OutOk, Stretch, FreeUnits;
    FreeUnitsAre(units, lists, FREE_LISTS);
    FreeClasses(units, lists);
    PoolUnitsAre(units, start, end);
  }

  lemma ThreeParts<T>(p: set<T>, f: set<T>, o: set<T>)
    requires p !! f && (p + f) !! o
    ensures |p + f + o| == |p| + |f| + |o|
  {
    assert |p + f| == |p| + |f|;
  }

  lemma Lists16(units: map<nat, Owner>, lists: seq<seq<nat>>)
    requires FreeOk(units, lists)
    ensures |lists| == FREE_LISTS
  {
  }

  lemma FreeClasses(units: map<nat, Owner>, lists: seq<seq<nat>>)
    requires FreeOk(units, lists)
    ensures forall u :: u in units && units[u].Free? ==> units[u].cls < FREE_LISTS
  {
  }
}
