/** Rope nodes with reference counts: who refers to a node, and what the nodes stand for. */
module RopeCells {
  import opened Options
  import opened RopeRep

  /** A node in storage: its reference count, and the children by their addresses. */
  datatype Cell<C> =
    | LeafCell(refs: nat, data: seq<C>)
    | FunctionCell(refs: nat, contents: seq<C>)
    | SubstringCell(refs: nat, base: nat, start: nat, length: nat)
    | ConcatCell(refs: nat, left: nat, right: nat, size: nat, depth: nat, balanced: bool)

  /** The places that hold an address: fields of nodes, and the pointers of ropes. */
  datatype Slot = LeftOf(node: nat) | RightOf(node: nat) | BaseOf(node: nat) | HandleOf(rope: nat)

  function Kids<C>(c: Cell<C>): seq<nat> {
    match c
    case LeafCell(_, _) => []
    case FunctionCell(_, _) => []
    case SubstringCell(_, b, _, _) => [b]
    case ConcatCell(_, l, r, _, _, _) => [l, r]
  }

  /** The slots of a node that hold the address `y`. */
  ghost function KidSlots<C>(x: nat, c: Cell<C>, y: nat): set<Slot> {
    (if c.ConcatCell? && c.left == y then {LeftOf(x)} else {}) +
    (if c.ConcatCell? && c.right == y then {RightOf(x)} else {}) +
    (if c.SubstringCell? && c.base == y then {BaseOf(x)} else {})
  }

  /** The slots that hold the address `y`. */
  ghost function Owners<C>(cells: map<nat, Cell<C>>, handles: map<nat, Option<nat>>, y: nat): set<Slot> {
    (set x, s | x in cells && s in KidSlots(x, cells[x], y) :: s) +
      (set h | h in handles && handles[h] == Some(y) :: HandleOf(h))
  }

  /** The tree of values that a node is the root of. */
  ghost predicate FitsAt<C>(c: Cell<C>, reps: map<nat, Rep<C>>, r: Rep<C>) {
    match c
    case LeafCell(_, d) => r == Leaf(d)
    case FunctionCell(_, t) => r == Function(t)
    case SubstringCell(_, b, s, n) => b in reps && r == Substring(reps[b], s, n)
    case ConcatCell(_, l, t, n, d, bal) => l in reps && t in reps && r == Concat(reps[l], reps[t], n, d, bal)
  }

  ghost predicate Fits<C>(cells: map<nat, Cell<C>>, reps: map<nat, Rep<C>>) {
    cells.Keys == reps.Keys && forall x :: x in cells ==> FitsAt(cells[x], reps, reps[x])
  }

  /** Every count is the number of slots that refer to the node and of the references that are owed. */
  ghost predicate Counted<C>(cells: map<nat, Cell<C>>, handles: map<nat, Option<nat>>, owed: multiset<nat>) {
    forall x :: x in cells ==> cells[x].refs == |Owners(cells, handles, x)| + owed[x] && cells[x].refs > 0
  }

  /** Nothing refers to a node that is not there. */
  ghost predicate Closed<C>(cells: map<nat, Cell<C>>, handles: map<nat, Option<nat>>, owed: multiset<nat>) {
    (forall h :: h in handles && handles[h].Some? ==> handles[h].value in cells) &&
      (forall x :: x in owed ==> x in cells)
  }

  ghost predicate AllValid<C>(reps: map<nat, Rep<C>>) {
    forall x :: x in reps ==> Valid(reps[x])
  }

  lemma KidCount<C>(x: nat, c: Cell<C>, y: nat)
    ensures |KidSlots(x, c, y)| == multiset(Kids(c))[y]
  {
    match c
    case LeafCell(_, _) =>
    case FunctionCell(_, _) =>
    case SubstringCell(_, b, _, _) => SingleKid(b, y);
    case ConcatCell(_, l, r, _, _, _) =>
      TwoKids(l, r, y);
      TwoSlots(x, l == y, r == y);
  }

  lemma SingleKid(b: nat, y: nat)
    ensures multiset([b])[y] == if b == y then 1 else 0
  {
  }

  lemma TwoKids(l: nat, r: nat, y: nat)
    ensures multiset([l, r])[y] == (if l == y then 1 else 0) + if r == y then 1 else 0
  {
    assert [l, r] == [l] + [r];
  }

  lemma TwoSlots(x: nat, left: bool, right: bool)
    ensures |(if left then {LeftOf(x)} else {}) + (if right then {RightOf(x)} else {}) + {}| ==
      (if left then 1 else 0) + if right then 1 else 0
  {
    var a: set<Slot>, b: set<Slot> := if left then {LeftOf(x)} else {}, if right then {RightOf(x)} else {};
    assert a !! b && a + b + {} == a + b;
  }

  /** The slot is there and holds the address. */
  ghost predicate Holds<C>(cells: map<nat, Cell<C>>, handles: map<nat, Option<nat>>, s: Slot, y: nat) {
    match s
    case HandleOf(h) => h in handles && handles[h] == Some(y)
    case LeftOf(x) => x in cells && cells[x].ConcatCell? && cells[x].left == y
    case RightOf(x) => x in cells && cells[x].ConcatCell? && cells[x].right == y
    case BaseOf(x) => x in cells && cells[x].SubstringCell? && cells[x].base == y
  }

  lemma OwnerIs<C>(cells: map<nat, Cell<C>>, handles: map<nat, Option<nat>>, y: nat, s: Slot)
    ensures s in Owners(cells, handles, y) <==> Holds(cells, handles, s, y)
  {
    match s
    case HandleOf(h) =>
    case LeftOf(x) => assert x in cells ==>
      (s in KidSlots(x, cells[x], y) <==> cells[x].ConcatCell? && cells[x].left == y);
    case RightOf(x) => assert x in cells ==>
      (s in KidSlots(x, cells[x], y) <==> cells[x].ConcatCell? && cells[x].right == y);
    case BaseOf(x) => assert x in cells ==>
      (s in KidSlots(x, cells[x], y) <==> cells[x].SubstringCell? && cells[x].base == y);
  }

  lemma DisjointSum<T>(all: set<T>, a: set<T>, b: set<T>)
    requires (forall s :: s in all <==> s in a || s in b) && (forall s :: s in b ==> s !in a)
    ensures |all| == |a| + |b|
  {
    assert all == a + b && a !! b;
  }

  /** Whether a slot points to `y`, once there is a cell more. */
  lemma OwnerMore<C>(cells: map<nat, Cell<C>>, handles: map<nat, Option<nat>>, x: nat, c: Cell<C>, y: nat, s: Slot)
    requires x !in cells
    ensures s in Owners(cells[x := c], handles, y) <==> s in Owners(cells, handles, y) || s in KidSlots(x, c, y)
    ensures s in KidSlots(x, c, y) ==> s !in Owners(cells, handles, y)
  {
    hide Owners;
    OwnerIs(cells, handles, y, s);
    OwnerIs(cells[x := c], handles, y, s);
  }

  /** One node more adds the references it holds. */
  lemma CellCount<C>(cells: map<nat, Cell<C>>, handles: map<nat, Option<nat>>, x: nat, c: Cell<C>, y: nat)
    requires x !in cells
    ensures |Owners(cells[x := c], handles, y)| == |Owners(cells, handles, y)| + multiset(Kids(c))[y]
  {
    hide Owners, Kids;
    KidCount(x, c, y);
    var more := cells[x := c];
    forall s
      ensures s in Owners(more, handles, y) <==> s in Owners(cells, handles, y) || s in KidSlots(x, c, y)
      ensures s in KidSlots(x, c, y) ==> s !in Owners(cells, handles, y)
    {
      OwnerMore(cells, handles, x, c, y, s);
    }
    hide *;
    DisjointSum(Owners(more, handles, y), Owners(cells, handles, y), KidSlots(x, c, y));
  }

  /** One pointer more adds a reference. */
  lemma HandleCount<C>(cells: map<nat, Cell<C>>, handles: map<nat, Option<nat>>, h: nat, p: Option<nat>, y: nat)
    requires h !in handles
    ensures |Owners(cells, handles[h := p], y)| == |Owners(cells, handles, y)| + if p == Some(y) then 1 else 0
  {
    hide Owners;
    var more := handles[h := p];
    var extra := if p == Some(y) then {HandleOf(h)} else {};
    forall s
      ensures s in Owners(cells, more, y) <==> s in Owners(cells, handles, y) || s in extra
      ensures s in extra ==> s !in Owners(cells, handles, y)
    {
      OwnerIs(cells, handles, y, s);
      OwnerIs(cells, more, y, s);
    }
    hide *;
    DisjointSum(Owners(cells, more, y), Owners(cells, handles, y), extra);
  }

  /** A node with a count of one, a slot that refers to it and nothing owed has no other slot. */
  lemma OnlyOwner<C>(cells: map<nat, Cell<C>>, handles: map<nat, Option<nat>>, owed: multiset<nat>, y: nat, s: Slot)
    requires Counted(cells, handles, owed) && y in cells && cells[y].refs == 1 && s in Owners(cells, handles, y)
    ensures Owners(cells, handles, y) == {s} && owed[y] == 0
  {
    hide Owners;
    OneElement(Owners(cells, handles, y), s, 1 - owed[y]);
  }

  lemma OneElement<T>(a: set<T>, x: T, n: int)
    requires x in a && |a| == n <= 1
    ensures a == {x} && n == 1
  {
    assert |a - {x}| == |a| - 1;
    assert a == (a - {x}) + {x};
  }

  /** Then no node but the owner has it for a child. */
  lemma NoOtherParent<C>(cells: map<nat, Cell<C>>, handles: map<nat, Option<nat>>, y: nat, s: Slot, x: nat)
    requires Owners(cells, handles, y) == {s} && x in cells && s != LeftOf(x) && s != RightOf(x) && s != BaseOf(x)
    ensures y !in Kids(cells[x])
  {
    hide Owners;
    OwnerIs(cells, handles, y, LeftOf(x));
    OwnerIs(cells, handles, y, RightOf(x));
    OwnerIs(cells, handles, y, BaseOf(x));
  }

  // ---------- what every step keeps ----------

  ghost predicate Sound<C>(cells: map<nat, Cell<C>>, handles: map<nat, Option<nat>>, reps: map<nat, Rep<C>>,
                           owed: multiset<nat>, next: nat) {
    Fits(cells, reps) && Counted(cells, handles, owed) && Closed(cells, handles, owed) && AllValid(reps) &&
      forall x :: x in cells ==> x < next
  }

  lemma KidsThere<C>(cells: map<nat, Cell<C>>, reps: map<nat, Rep<C>>, x: nat, y: nat)
    requires Fits(cells, reps) && x in cells && y in Kids(cells[x])
    ensures y in cells
  {
  }

  /** A child stands for a part of what its parent stands for. */
  lemma ChildLess<C>(cells: map<nat, Cell<C>>, reps: map<nat, Rep<C>>, x: nat, k: nat)
    requires Fits(cells, reps) && x in cells && k in Kids(cells[x])
    ensures k in cells && x in reps && k in reps && reps[k] < reps[x] && k != x
  {
  }

  /** Nothing refers to an address where there is no node. */
  lemma NoOwners<C>(cells: map<nat, Cell<C>>, handles: map<nat, Option<nat>>, reps: map<nat, Rep<C>>,
                    owed: multiset<nat>, y: nat)
    requires Fits(cells, reps) && Closed(cells, handles, owed) && y !in cells
    ensures Owners(cells, handles, y) == {} && owed[y] == 0
  {
    hide Owners, Fits;
    forall s
      ensures s !in Owners(cells, handles, y)
    {
      OwnerIs(cells, handles, y, s);
      match s
      case HandleOf(h) =>
      case LeftOf(x) => NotKid(cells, reps, x, y);
      case RightOf(x) => NotKid(cells, reps, x, y);
      case BaseOf(x) => NotKid(cells, reps, x, y);
    }
  }

  lemma NotKid<C>(cells: map<nat, Cell<C>>, reps: map<nat, Rep<C>>, x: nat, y: nat)
    requires Fits(cells, reps) && y !in cells
    ensures x in cells ==> y !in Kids(cells[x])
  {
    if x in cells {
      var k := Kids(cells[x]);
      forall i | 0 <= i < |k|
        ensures k[i] != y
      {
        KidsThere(cells, reps, x, k[i]);
      }
    }
  }

  lemma AddSound<C>(cells: map<nat, Cell<C>>, handles: map<nat, Option<nat>>, reps: map<nat, Rep<C>>,
                    owed: multiset<nat>, next: nat,
                    c: Cell<C>, r: Rep<C>)
    requires Sound(cells, handles, reps, owed, next) && c.refs == 1 && FitsAt(c, reps, r) && Valid(r)
    requires multiset(Kids(c)) <= owed
    ensures Sound(cells[next := c], handles, reps[next := r], owed - multiset(Kids(c)) + multiset{next}, next + 1)
  {
    hide Owners, Kids, Valid;
    var more, rest := cells[next := c], owed - multiset(Kids(c)) + multiset{next};
    NoOwners(cells, handles, reps, owed, next);
    forall y | y in more
      ensures more[y].refs == |Owners(more, handles, y)| + rest[y] && more[y].refs > 0
    {
      CellCount(cells, handles, next, c, y);
    }
    FitsMore(cells, reps, next, c, r);
  }

  lemma FitsMore<C>(cells: map<nat, Cell<C>>, reps: map<nat, Rep<C>>, x: nat, c: Cell<C>, r: Rep<C>)
    requires Fits(cells, reps) && x !in cells && FitsAt(c, reps, r)
    ensures Fits(cells[x := c], reps[x := r])
  {
    forall y | y in cells
      ensures FitsAt(cells[y], reps[x := r], reps[y])
    {
    }
  }

  /** A node to which only one owed reference is left can go; its references are owed then. */
  lemma RemoveSound<C>(cells: map<nat, Cell<C>>, handles: map<nat, Option<nat>>, reps: map<nat, Rep<C>>,
                       owed: multiset<nat>, next: nat, x: nat)
    requires Sound(cells, handles, reps, owed, next) && x in cells && cells[x].refs == 1 && owed[x] > 0
    ensures Sound(cells - {x}, handles, reps - {x}, owed - multiset{x} + multiset(Kids(cells[x])), next)
  {
    hide Owners, Valid, Kids;
    var less, c := cells - {x}, cells[x];
    assert less[x := c] == cells;
    assert Owners(cells, handles, x) == {};
    var rest := owed - multiset{x} + multiset(Kids(c));
    forall y | y in less
      ensures less[y].refs == |Owners(less, handles, y)| + rest[y] && less[y].refs > 0
    {
      CellCount(less, handles, x, c, y);
    }
    FitsLess(cells, handles, reps, x);
    NoPointer(cells, handles, x);
    ClosedLess(cells, handles, reps, owed, x);
  }

  lemma NoPointer<C>(cells: map<nat, Cell<C>>, handles: map<nat, Option<nat>>, x: nat)
    requires Owners(cells, handles, x) == {}
    ensures forall h :: h in handles ==> handles[h] != Some(x)
  {
    forall h | h in handles
      ensures handles[h] != Some(x)
    {
      OwnerIs(cells, handles, x, HandleOf(h));
    }
  }

  lemma FitsLess<C>(cells: map<nat, Cell<C>>, handles: map<nat, Option<nat>>, reps: map<nat, Rep<C>>, x: nat)
    requires Fits(cells, reps) && Owners(cells, handles, x) == {} && x in cells
    ensures Fits(cells - {x}, reps - {x})
  {
    hide Owners;
    forall y | y in cells && y != x
      ensures FitsAt(cells[y], reps - {x}, reps[y])
    {
      OwnerIs(cells, handles, x, LeftOf(y));
      OwnerIs(cells, handles, x, RightOf(y));
      OwnerIs(cells, handles, x, BaseOf(y));
    }
  }

  lemma ClosedLess<C>(cells: map<nat, Cell<C>>, handles: map<nat, Option<nat>>, reps: map<nat, Rep<C>>,
                      owed: multiset<nat>, x: nat)
    requires Fits(cells, reps) && Closed(cells, handles, owed) && x in cells && owed[x] == 1
    requires Owners(cells, handles, x) == {} && forall h :: h in handles ==> handles[h] != Some(x)
    ensures Closed(cells - {x}, handles, owed - multiset{x} + multiset(Kids(cells[x])))
  {
    hide Owners, Fits;
    var rest := owed - multiset{x} + multiset(Kids(cells[x]));
    forall y | y in rest
      ensures y in cells - {x}
    {
      if y in multiset(Kids(cells[x])) {
        assert y in Kids(cells[x]);
        KidsThere(cells, reps, x, y);
        OwnerIs(cells, handles, x, LeftOf(x));
        OwnerIs(cells, handles, x, RightOf(x));
        OwnerIs(cells, handles, x, BaseOf(x));
      }
    }
  }

  function WithRefs<C>(c: Cell<C>, n: nat): Cell<C> {
    match c
    case LeafCell(_, d) => LeafCell(n, d)
    case FunctionCell(_, t) => FunctionCell(n, t)
    case SubstringCell(_, b, s, l) => SubstringCell(n, b, s, l)
    case ConcatCell(_, l, r, s, d, b) => ConcatCell(n, l, r, s, d, b)
  }

  /** Replacing a node changes the counts by its children. */
  lemma ReplaceCount<C>(cells: map<nat, Cell<C>>, handles: map<nat, Option<nat>>, x: nat, c: Cell<C>, y: nat)
    requires x in cells
    ensures |Owners(cells[x := c], handles, y)| + multiset(Kids(cells[x]))[y] == |Owners(cells, handles, y)| +
      multiset(Kids(c))[y]
  {
    hide Owners, Kids;
    var less := cells - {x};
    assert less[x := c] == cells[x := c] && less[x := cells[x]] == cells;
    CellCount(less, handles, x, c, y);
    CellCount(less, handles, x, cells[x], y);
  }

  /** The balance at the address `y` when the node at `x` is replaced by `c` and `rest` is owed in the end. */
  ghost predicate Balanced<C>(cells: map<nat, Cell<C>>, x: nat, c: Cell<C>, owed: multiset<nat>, rest: multiset<nat>,
                              y: nat)
    requires x in cells
  {
    owed[y] + multiset(Kids(cells[x]))[y] + (if y == x then c.refs else 0) ==
    rest[y] + multiset(Kids(c))[y] + if y == x then cells[x].refs else 0
  }

  lemma ReplaceCounted<C>(cells: map<nat, Cell<C>>, handles: map<nat, Option<nat>>, owed: multiset<nat>, x: nat,
                          c: Cell<C>, rest: multiset<nat>)
    requires Counted(cells, handles, owed) && x in cells && c.refs > 0
    requires forall y :: y in cells ==> Balanced(cells, x, c, owed, rest, y)
    ensures Counted(cells[x := c], handles, rest)
  {
    hide Owners, Kids;
    var now := cells[x := c];
    forall y | y in now
      ensures now[y].refs == |Owners(now, handles, y)| + rest[y] && now[y].refs > 0
    {
      ReplaceCount(cells, handles, x, c, y);
      assert Balanced(cells, x, c, owed, rest, y);
    }
  }

  lemma SameRefsFit<C>(cells: map<nat, Cell<C>>, reps: map<nat, Rep<C>>, x: nat, n: nat)
    requires Fits(cells, reps) && x in cells
    ensures Fits(cells[x := WithRefs(cells[x], n)], reps)
  {
  }

  lemma WithRefsKids<C>(c: Cell<C>, n: nat)
    ensures Kids(WithRefs(c, n)) == Kids(c) && WithRefs(c, n).refs == n
  {
  }

  /** A reference more is owed. */
  lemma RefSound<C>(cells: map<nat, Cell<C>>, handles: map<nat, Option<nat>>, reps: map<nat, Rep<C>>,
                    owed: multiset<nat>, next: nat, x: nat)
    requires Sound(cells, handles, reps, owed, next) && x in cells
    ensures Sound(cells[x := WithRefs(cells[x], cells[x].refs + 1)], handles, reps, owed + multiset{x}, next)
  {
    hide Owners, Kids, Counted, Fits, AllValid, WithRefs;
    var n := cells[x].refs + 1;
    WithRefsKids(cells[x], n);
    ReplaceCounted(cells, handles, owed, x, WithRefs(cells[x], n), owed + multiset{x});
    SameRefsFit(cells, reps, x, n);
  }

  /** A reference less is owed, and others are left. */
  lemma UnrefSound<C>(cells: map<nat, Cell<C>>, handles: map<nat, Option<nat>>, reps: map<nat, Rep<C>>,
                      owed: multiset<nat>, next: nat, x: nat)
    requires Sound(cells, handles, reps, owed, next) && x in cells && cells[x].refs > 1 && owed[x] > 0
    ensures Sound(cells[x := WithRefs(cells[x], cells[x].refs - 1)], handles, reps, owed - multiset{x}, next)
  {
    hide Owners, Kids, Counted, Fits, AllValid, WithRefs;
    var n: nat := cells[x].refs - 1;
    WithRefsKids(cells[x], n);
    ReplaceCounted(cells, handles, owed, x, WithRefs(cells[x], n), owed - multiset{x});
    SameRefsFit(cells, reps, x, n);
  }

  ghost function Pointed(p: Option<nat>): multiset<nat> {
    if p.Some? then multiset{p.value} else multiset{}
  }

  /** What a pointer refers to. */
  ghost function Held(handles: map<nat, Option<nat>>, h: nat): multiset<nat> {
    if h in handles then Pointed(handles[h]) else multiset{}
  }

  lemma TurnCount<C>(cells: map<nat, Cell<C>>, handles: map<nat, Option<nat>>, h: nat, p: Option<nat>, y: nat)
    ensures |Owners(cells, handles[h := p], y)| + Held(handles, h)[y] == |Owners(cells, handles, y)| + Pointed(p)[y]
  {
    hide Owners;
    var less := handles - {h};
    assert less[h := p] == handles[h := p];
    HandleCount(cells, less, h, p, y);
    if h in handles {
      assert less[h := handles[h]] == handles;
      HandleCount(cells, less, h, handles[h], y);
    } else {
      assert less == handles;
    }
  }

  lemma TurnCounted<C>(cells: map<nat, Cell<C>>, handles: map<nat, Option<nat>>, owed: multiset<nat>, h: nat,
                       p: Option<nat>)
    requires Counted(cells, handles, owed) && Pointed(p) <= owed
    ensures Counted(cells, handles[h := p], owed - Pointed(p) + Held(handles, h))
  {
    hide Owners, Held, Pointed;
    var rest := owed - Pointed(p) + Held(handles, h);
    forall y | y in cells
      ensures cells[y].refs == |Owners(cells, handles[h := p], y)| + rest[y] && cells[y].refs > 0
    {
      TurnCount(cells, handles, h, p, y);
    }
  }

  lemma TurnClosed<C>(cells: map<nat, Cell<C>>, handles: map<nat, Option<nat>>, owed: multiset<nat>, h: nat,
                      p: Option<nat>)
    requires Closed(cells, handles, owed) && Pointed(p) <= owed
    ensures Closed(cells, handles[h := p], owed - Pointed(p) + Held(handles, h))
  {
    if p.Some? {
      assert Pointed(p)[p.value] == 1;
      assert p.value in owed;
    }
  }

  /** A pointer is turned to `p`: what it referred to is owed then, and `p` no longer. */
  lemma TurnSound<C>(cells: map<nat, Cell<C>>, handles: map<nat, Option<nat>>, reps: map<nat, Rep<C>>,
                     owed: multiset<nat>, next: nat,
                     h: nat, p: Option<nat>)
    requires Sound(cells, handles, reps, owed, next) && Pointed(p) <= owed
    ensures Sound(cells, handles[h := p], reps, owed - Pointed(p) + Held(handles, h), next)
  {
    hide Owners, Counted, Closed, Fits, AllValid, Pointed, Held;
    TurnCounted(cells, handles, owed, h, p);
    TurnClosed(cells, handles, owed, h, p);
  }

  // ---------- changes in place ----------

  /** A node with the count one that a rope points to has no parent, and no other rope points to it. */
  lemma RootAlone<C>(cells: map<nat, Cell<C>>, handles: map<nat, Option<nat>>, reps: map<nat, Rep<C>>,
                     owed: multiset<nat>, next: nat, h: nat, x: nat)
    requires Sound(cells, handles, reps, owed, next) && h in handles && handles[h] == Some(x) && x in cells &&
      cells[x].refs == 1
    ensures forall y :: y in cells ==> x !in Kids(cells[y])
    ensures forall g :: g in handles && g != h ==> handles[g] != Some(x)
    ensures owed[x] == 0
  {
    hide Owners, Kids, Fits, AllValid, Closed;
    OwnerIs(cells, handles, x, HandleOf(h));
    OnlyOwner(cells, handles, owed, x, HandleOf(h));
    forall y | y in cells
      ensures x !in Kids(cells[y])
    {
      NoOtherParent(cells, handles, x, HandleOf(h), y);
    }
    forall g | g in handles && g != h
      ensures handles[g] != Some(x)
    {
      OwnerIs(cells, handles, x, HandleOf(g));
    }
  }

  /** The right child of a node, with the count one, is the child of no other, and no rope points to it. */
  lemma RightAlone<C>(cells: map<nat, Cell<C>>, handles: map<nat, Option<nat>>, reps: map<nat, Rep<C>>,
                      owed: multiset<nat>, next: nat, r: nat, x: nat)
    requires Sound(cells, handles, reps, owed, next) && r in cells && cells[r].ConcatCell? && cells[r].right == x &&
      x in cells && cells[x].refs == 1
    ensures (forall y :: y in cells && y != r ==> x !in Kids(cells[y])) && cells[r].left != x
    ensures forall g :: g in handles ==> handles[g] != Some(x)
    ensures owed[x] == 0
  {
    hide Owners, Kids, Fits, AllValid, Closed;
    OwnerIs(cells, handles, x, RightOf(r));
    OnlyOwner(cells, handles, owed, x, RightOf(r));
    forall y | y in cells && y != r
      ensures x !in Kids(cells[y])
    {
      NoOtherParent(cells, handles, x, RightOf(r), y);
    }
    OwnerIs(cells, handles, x, LeftOf(r));
    forall g | g in handles
      ensures handles[g] != Some(x)
    {
      OwnerIs(cells, handles, x, HandleOf(g));
    }
  }

  /** A node without a parent may get another value. */
  lemma RootFits<C>(cells: map<nat, Cell<C>>, reps: map<nat, Rep<C>>, x: nat, c: Cell<C>, r: Rep<C>)
    requires Fits(cells, reps) && x in cells && FitsAt(c, reps, r) && x !in Kids(c)
    requires forall y :: y in cells ==> x !in Kids(cells[y])
    ensures Fits(cells[x := c], reps[x := r])
  {
    forall y | y in cells && y != x
      ensures FitsAt(cells[y], reps[x := r], reps[y])
    {
      OtherFits(cells[y], reps, reps[y], x, r);
    }
    OtherFits(c, reps, r, x, r);
  }

  lemma OtherFits<C>(c: Cell<C>, reps: map<nat, Rep<C>>, t: Rep<C>, x: nat, r: Rep<C>)
    requires FitsAt(c, reps, t) && x !in Kids(c)
    ensures FitsAt(c, reps[x := r], t)
  {
    match c
    case LeafCell(_, _) =>
    case FunctionCell(_, _) =>
    case SubstringCell(_, b, _, _) => assert b in Kids(c);
    case ConcatCell(_, l, y, _, _, _) => assert l in Kids(c) && y in Kids(c);
  }

  /** The leaf of a rope grows. */
  lemma LeafGrown<C>(cells: map<nat, Cell<C>>, handles: map<nat, Option<nat>>, reps: map<nat, Rep<C>>,
                     owed: multiset<nat>, next: nat,
                     h: nat, x: nat, d: seq<C>)
    requires Sound(cells, handles, reps, owed, next) && h in handles && handles[h] == Some(x) && x in cells &&
      cells[x].refs == 1
    requires cells[x].LeafCell? && d != []
    ensures Sound(cells[x := LeafCell(2, d)], handles, reps[x := Leaf(d)], owed + multiset{x}, next)
  {
    hide Owners, Counted, Fits, Valid;
    RootAlone(cells, handles, reps, owed, next, h, x);
    RootFits(cells, reps, x, LeafCell(2, d), Leaf(d));
    ReplaceCounted(cells, handles, owed, x, LeafCell(2, d), owed + multiset{x});
    LeafValid(d);
  }

  lemma LeafValid<C>(d: seq<C>)
    requires d != []
    ensures Valid(Leaf(d))
  {
  }

  /** A node of a rope gets another right child, to which a reference was owed; one to the old child is owed then. */
  lemma RightReplaced<C>(cells: map<nat, Cell<C>>, handles: map<nat, Option<nat>>, reps: map<nat, Rep<C>>,
                         owed: multiset<nat>, next: nat,
                         h: nat, r: nat, n: nat, c: Cell<C>, t: Rep<C>)
    requires h in handles && handles[h] == Some(r) && r in cells && cells[r].refs == 1
    requires cells[r].ConcatCell? && n in cells && owed[n] > 0 && n != r
    requires c.ConcatCell? && c.refs == 2 && c.left == cells[r].left && c.right == n && FitsAt(c, reps, t) && Valid(t)
    requires Sound(cells, handles, reps, owed, next)
    ensures Sound(cells[r := c], handles, reps[r := t], owed - multiset{n} + multiset{cells[r].right} + multiset{r},
      next)
  {
    hide Owners, Counted, Fits, FitsAt, Balanced, Valid;
    RootAlone(cells, handles, reps, owed, next, h, r);
    assert r !in Kids(cells[r]);
    assert cells[r].left in Kids(cells[r]) && cells[r].right in Kids(cells[r]);
    KidsThere(cells, reps, r, cells[r].right);
    RootFits(cells, reps, r, c, t);
    RightBalanced(cells, owed, r, n, c);
    ReplaceCounted(cells, handles, owed, r, c, owed - multiset{n} + multiset{cells[r].right} + multiset{r});
  }

  lemma RightBalanced<C>(cells: map<nat, Cell<C>>, owed: multiset<nat>, r: nat, n: nat, c: Cell<C>)
    requires r in cells && cells[r].refs == 1 && cells[r].ConcatCell? && owed[n] > 0
    requires c.ConcatCell? && c.refs == 2 && c.left == cells[r].left && c.right == n
    ensures forall y :: y in cells ==>
      Balanced(cells, r, c, owed, owed - multiset{n} + multiset{cells[r].right} + multiset{r}, y)
  {
    forall y | y in cells
      ensures Balanced(cells, r, c, owed, owed - multiset{n} + multiset{cells[r].right} + multiset{r}, y)
    {
      TwoKids(c.left, c.right, y);
      TwoKids(cells[r].left, cells[r].right, y);
    }
  }

  ghost function Put<V>(m: map<nat, V>, x: nat, v: V): map<nat, V> {
    m[x := v]
  }

  /** The right leaf of a node of a rope grows, both having the count one. */
  lemma RightGrown<C>(cells: map<nat, Cell<C>>, handles: map<nat, Option<nat>>, reps: map<nat, Rep<C>>,
                      owed: multiset<nat>, next: nat,
                      h: nat, r: nat, x: nat, d: seq<C>, c: Cell<C>, t: Rep<C>)
    requires h in handles && handles[h] == Some(r) && r in cells && cells[r].refs == 1
    requires cells[r].ConcatCell? && cells[r].right == x && x in cells && cells[x].LeafCell? && cells[x].refs == 1 &&
      d != []
    requires c.ConcatCell? && c.refs == 2 && c.left == cells[r].left && c.right == x
    requires FitsAt(c, Put(reps, x, Leaf(d)), t) && Valid(t)
    requires Sound(cells, handles, reps, owed, next)
    ensures x != r && Sound(Put(Put(cells, x, LeafCell(1, d)), r, c), handles, Put(Put(reps, x, Leaf(d)), r, t),
      owed + multiset{r}, next)
  {
    hide Owners, Counted, Valid, AllValid, Fits;
    RootAlone(cells, handles, reps, owed, next, h, r);
    RightAlone(cells, handles, reps, owed, next, r, x);
    assert x != r;
    var mid := cells[x := LeafCell(1, d)];
    ReplaceCounted(cells, handles, owed, x, LeafCell(1, d), owed);
    ReplaceCounted(mid, handles, owed, r, c, owed + multiset{r});
    TwoFit(cells, reps, r, x, LeafCell(1, d), Leaf(d), c, t);
    LeafValid(d);
    TwoValid(reps, r, x, Leaf(d), t);
  }

  lemma TwoValid<C>(reps: map<nat, Rep<C>>, r: nat, x: nat, u: Rep<C>, t: Rep<C>)
    requires AllValid(reps) && Valid(u) && Valid(t)
    ensures AllValid(reps[x := u][r := t])
  {
    hide Valid;
  }

  lemma TwoFit<C>(cells: map<nat, Cell<C>>, reps: map<nat, Rep<C>>, r: nat, x: nat, d: Cell<C>, u: Rep<C>, c: Cell<C>,
                  t: Rep<C>)
    requires Fits(cells, reps) && r in cells && x in cells && x != r && Kids(d) == [] && FitsAt(d, reps, u)
    requires c.ConcatCell? && c.right == x && c.left != x && c.left != r && FitsAt(c, reps[x := u], t)
    requires forall y :: y in cells && y != r ==> x !in Kids(cells[y])
    requires forall y :: y in cells ==> r !in Kids(cells[y])
    ensures Fits(cells[x := d][r := c], reps[x := u][r := t])
  {
    var now, vals := cells[x := d][r := c], reps[x := u][r := t];
    forall y | y in now
      ensures FitsAt(now[y], vals, vals[y])
    {
      if y == r {
      } else if y == x {
        OtherFits(d, reps, u, x, u);
        OtherFits(d, reps[x := u], u, r, t);
      } else {
        OtherFits(cells[y], reps, reps[y], x, u);
        OtherFits(cells[y], reps[x := u], reps[y], r, t);
      }
    }
  }
}
