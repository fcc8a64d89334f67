/** Bit iterators: a word of storage and an offset in it, and the integers they stand for. */
module BitIterator {

  const WORD_BIT: nat := 32

  /** The word is counted from the beginning of the storage; it may lie before that. */
  datatype BitIter = BitIter(p: int, offset: nat)

  ghost predicate Inside(it: BitIter) {
    it.offset < WORD_BIT
  }

  /** The bits before the iterator. */
  function Pos(it: BitIter): int {
    WORD_BIT * it.p + it.offset
  }

  /** Division as in C++: it truncates towards zero. */
  function TruncDiv(a: int, b: nat): int
    requires b > 0
  {
    if a >= 0 then a / b else -(-a / b)
  }

  /** The remainder that belongs to it, of the sign of `a`. */
  function TruncMod(a: int, b: nat): int
    requires b > 0
  {
    a - TruncDiv(a, b) * b
  }

  /** `bump_up`. */
  function Next(it: BitIter): BitIter {
    if it.offset == WORD_BIT - 1 then BitIter(it.p + 1, 0) else BitIter(it.p, it.offset + 1)
  }

  /** `bump_down`. */
  function Prev(it: BitIter): BitIter {
    if it.offset == 0 then BitIter(it.p - 1, WORD_BIT - 1) else BitIter(it.p, it.offset - 1)
  }

  lemma TruncModRange(a: int)
    ensures 0 - WORD_BIT < TruncMod(a, WORD_BIT) < WORD_BIT && (a >= 0 ==> TruncMod(a, WORD_BIT) >= 0)
  {
  }

  /** `operator+=`. */
  function Plus(it: BitIter, i: int): BitIter {
    var n := i + it.offset;
    var p := it.p + TruncDiv(n, WORD_BIT);
    var m := TruncMod(n, WORD_BIT);
    TruncModRange(n);
    if m < 0 then BitIter(p - 1, m + WORD_BIT) else BitIter(p, m)
  }

  /** `operator-` of two iterators. */
  function Minus(x: BitIter, y: BitIter): int {
    WORD_BIT * (x.p - y.p) + x.offset - y.offset
  }

  /** `operator<`. */
  predicate Before(x: BitIter, y: BitIter) {
    x.p < y.p || (x.p == y.p && x.offset < y.offset)
  }

  /** Iterators are the integers: one position, one iterator, in the same order. */
  lemma PosOrder(x: BitIter, y: BitIter)
    requires Inside(x) && Inside(y)
    ensures Before(x, y) <==> Pos(x) < Pos(y)
    ensures x == y <==> Pos(x) == Pos(y)
    ensures Minus(x, y) == Pos(x) - Pos(y)
  {
  }

  /** The steps and the jumps are those of the integers, the latter for offsets of either sign. */
  lemma PosSteps(it: BitIter, i: int)
    requires Inside(it)
    ensures Inside(Next(it)) && Pos(Next(it)) == Pos(it) + 1
    ensures Inside(Prev(it)) && Pos(Prev(it)) == Pos(it) - 1
    ensures Inside(Plus(it, i)) && Pos(Plus(it, i)) == Pos(it) + i
  {
  }

  lemma PrevUndoesNext(it: BitIter)
    requires Inside(it)
    ensures Prev(Next(it)) == it && Next(Prev(it)) == it
  {
  }

  /** Jumping back undoes a jump, and the difference of iterators is the jump between them. */
  lemma JumpBack(x: BitIter, y: BitIter, i: int)
    requires Inside(x) && Inside(y)
    ensures Plus(Plus(x, i), -i) == x && Plus(x, Minus(y, x)) == y
  {
    PosSteps(x, i);
    PosSteps(Plus(x, i), -i);
    PosOrder(Plus(Plus(x, i), -i), x);
    PosSteps(x, Minus(y, x));
    PosOrder(Plus(x, Minus(y, x)), y);
    PosOrder(y, x);
  }

  /** The iterator at a position. */
  function At(k: int): BitIter {
    BitIter(k / WORD_BIT, k % WORD_BIT)
  }

  lemma AtPos(k: int)
    ensures Inside(At(k)) && Pos(At(k)) == k
    ensures Next(At(k)) == At(k + 1) && Prev(At(k)) == At(k - 1)
  {
  }

  lemma AtPlus(k: int, i: int)
    ensures Plus(At(k), i) == At(k + i)
  {
    AtPos(k);
    AtPos(k + i);
    PosSteps(At(k), i);
    PosOrder(Plus(At(k), i), At(k + i));
  }

  lemma AtDiffer(k: int, l: int)
    ensures At(k) == At(l) <==> k == l
    ensures Minus(At(k), At(l)) == k - l
    ensures 0 <= l && 0 <= k <= WORD_BIT * l ==> (At(k).p == l <==> k == WORD_BIT * l) && 0 <= At(k).p <= l
  {
    AtPos(k);
    AtPos(l);
  }
}
