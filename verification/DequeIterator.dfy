/** Deque iterators: a slot of the map and an offset in its node, and the integers they stand for. */
module DequeIterator {
  import opened Sequences

  datatype Iter = Iter(node: int, off: int)

  /** The offset lies inside the node: every iterator of a deque can be dereferenced. */
  ghost predicate Inside(b: nat, it: Iter) {
    0 <= it.off < b
  }

  /** The position of an iterator, counting the elements of all slots before it. */
  ghost function Pos(b: nat, it: Iter): int {
    it.node * b + it.off
  }

  function Next(b: nat, it: Iter): Iter {
    if it.off + 1 == b then Iter(it.node + 1, 0) else Iter(it.node, it.off + 1)
  }

  function Prev(b: nat, it: Iter): Iter {
    if it.off == 0 then Iter(it.node - 1, b - 1) else Iter(it.node, it.off - 1)
  }

  /** Division that truncates towards zero, of numbers that are not negative. */
  function NodeOffset(b: nat, offset: int): int
    requires b > 0
  {
    if offset > 0 then offset / b else -((-offset - 1) / b) - 1
  }

  /** `operator+=`. */
  function Plus(b: nat, it: Iter, n: int): Iter
    requires b > 0
  {
    var offset := n + it.off;
    if 0 <= offset < b then Iter(it.node, it.off + n)
    else
      var k := NodeOffset(b, offset);
      Iter(it.node + k, offset - k * b)
  }

  /** `operator-=`. */
  function Subtract(b: nat, it: Iter, n: int): Iter
    requires b > 0
  {
    Plus(b, it, -n)
  }

  /** `operator-` of two iterators. */
  function Minus(b: nat, x: Iter, y: Iter): int {
    b * (x.node - y.node - 1) + x.off + (b - y.off)
  }

  /** `operator<`. */
  predicate Before(x: Iter, y: Iter) {
    if x.node == y.node then x.off < y.off else x.node < y.node
  }

  lemma Times(a: int, c: int, b: nat)
    ensures (a + c) * b == a * b + c * b && (a - c) * b == a * b - c * b
    ensures a >= 0 ==> a * b >= 0
    ensures a < 0 ==> a * b + b <= 0
  {
  }

  lemma StepPos(b: nat, it: Iter)
    requires Inside(b, it)
    ensures Inside(b, Next(b, it)) && Pos(b, Next(b, it)) == Pos(b, it) + 1
    ensures Inside(b, Prev(b, it)) && Pos(b, Prev(b, it)) == Pos(b, it) - 1
    ensures Prev(b, Next(b, it)) == it && Next(b, Prev(b, it)) == it
  {
    Times(it.node, 1, b);
  }

  lemma DivBounds(a: nat, b: nat)
    requires b > 0
    ensures (a / b) * b <= a < (a / b) * b + b
  {
  }

  /** Advancing by any number, of either sign, is addition. */
  lemma PlusPos(b: nat, it: Iter, n: int)
    requires Inside(b, it)
    ensures Inside(b, Plus(b, it, n)) && Pos(b, Plus(b, it, n)) == Pos(b, it) + n
  {
    var offset := n + it.off;
    if !(0 <= offset < b) {
      var k := NodeOffset(b, offset);
      Times(it.node, k, b);
      if offset > 0 {
        DivBounds(offset, b);
      } else {
        DivBounds(-offset - 1, b);
        var q := (-offset - 1) / b;
        Times(-q, 1, b);
        assert k * b == -(q * b) - b;
      }
    }
  }

  lemma MinusPos(b: nat, x: Iter, y: Iter)
    ensures Minus(b, x, y) == Pos(b, x) - Pos(b, y)
  {
    Times(x.node, y.node, b);
    Times(x.node - y.node, 1, b);
    assert b * (x.node - y.node - 1) == (x.node - y.node - 1) * b;
  }

  /** Iterators compare like their positions, and differ when those do. */
  lemma BeforePos(b: nat, x: Iter, y: Iter)
    requires Inside(b, x) && Inside(b, y)
    ensures Before(x, y) <==> Pos(b, x) < Pos(b, y)
    ensures x == y <==> Pos(b, x) == Pos(b, y)
    ensures x.node < y.node ==> Pos(b, x) < Pos(b, y)
    ensures Pos(b, x) <= Pos(b, y) ==> x.node <= y.node
  {
    Times(y.node, x.node, b);
    Times(y.node - x.node, 1, b);
    Times(x.node - y.node, 1, b);
    if x.node < y.node {
      Times(y.node - x.node - 1, 0, b);
    } else if x.node > y.node {
      Times(x.node - y.node - 1, 0, b);
    }
  }

  // ---------- rows laid end to end ----------

  ghost predicate Rows<T>(rows: seq<seq<T>>, b: nat) {
    forall i :: 0 <= i < |rows| ==> |rows[i]| == b
  }

  lemma {:induction false} FlatLength<T>(rows: seq<seq<T>>, b: nat)
    requires Rows(rows, b)
    ensures |Flat(rows)| == |rows| * b
  {
    if rows != [] {
      FlatLength(rows[..|rows| - 1], b);
      Times(|rows| - 1, 1, b);
    } else {
      assert 0 * b == 0;
    }
  }

  lemma FlatAt<T>(rows: seq<seq<T>>, b: nat, i: nat, off: nat)
    requires Rows(rows, b) && i < |rows| && off < b
    ensures 0 <= i * b + off < |Flat(rows)| == |rows| * b
    ensures Flat(rows)[i * b + off] == rows[i][off]
  {
    hide Flat;
    FlatLength(rows, b);
    RowParts(rows, b, i);
    Times(|rows| - i, i, b);
  }

  lemma FlatSplit<T>(rows: seq<seq<T>>, b: nat, i: nat)
    requires i <= |rows|
    ensures Flat(rows) == Flat(rows[..i]) + Flat(rows[i..])
  {
    FlatConcat(rows[..i], rows[i..]);
    assert rows == rows[..i] + rows[i..];
  }

  /** A row and what lies around it. */
  lemma RowParts<T>(rows: seq<seq<T>>, b: nat, i: nat)
    requires Rows(rows, b) && i < |rows|
    ensures Flat(rows) == Flat(rows[..i]) + rows[i] + Flat(rows[i + 1..]) && |Flat(rows[..i])| == i * b
  {
    FlatParts(rows, i);
    FlatLength(rows[..i], b);
  }

  lemma UpdateMiddle<T>(p: seq<T>, r: seq<T>, s: seq<T>, off: nat, v: T)
    requires off < |r|
    ensures (p + r + s)[|p| + off := v] == p + r[off := v] + s
  {
  }

  lemma FlatUpdate<T>(rows: seq<seq<T>>, b: nat, i: nat, off: nat, v: T)
    requires Rows(rows, b) && i < |rows| && off < b
    ensures 0 <= i * b + off < |Flat(rows)|
    ensures Flat(rows[i := rows[i][off := v]]) == Flat(rows)[i * b + off := v]
  {
    hide Flat;
    var next := rows[i := rows[i][off := v]];
    RowParts(rows, b, i);
    RowParts(next, b, i);
    assert next[..i] == rows[..i] && next[i + 1..] == rows[i + 1..];
    UpdateMiddle(Flat(rows[..i]), rows[i], Flat(rows[i + 1..]), off, v);
  }
}
