/** Rope trees: the text they stand for, their sizes and depths, and the
    Fibonacci thresholds of the balance conditions. */
module RopeRep {

  import opened Options

  const MAX_ROPE_DEPTH: nat := 45
  const COPY_MAX: nat := 23
  const LAZY_THRESHOLD: nat := 128

  /** The table `_S_min_len`, up to index 45. */
  function MinLen(i: nat): nat
    requires i <= MAX_ROPE_DEPTH
  {
    match i
    case 0 => 1 case 1 => 2 case 2 => 3 case 3 => 5
    case 4 => 8 case 5 => 13 case 6 => 21 case 7 => 34
    case 8 => 55 case 9 => 89 case 10 => 144 case 11 => 233
    case 12 => 377 case 13 => 610 case 14 => 987 case 15 => 1597
    case 16 => 2584 case 17 => 4181 case 18 => 6765 case 19 => 10946
    case 20 => 17711 case 21 => 28657 case 22 => 46368 case 23 => 75025
    case 24 => 121393 case 25 => 196418 case 26 => 317811 case 27 => 514229
    case 28 => 832040 case 29 => 1346269 case 30 => 2178309 case 31 => 3524578
    case 32 => 5702887 case 33 => 9227465 case 34 => 14930352 case 35 => 24157817
    case 36 => 39088169 case 37 => 63245986 case 38 => 102334155 case 39 => 165580141
    case 40 => 267914296 case 41 => 433494437 case 42 => 701408733 case 43 => 1134903170
    case 44 => 1836311903
    case _ => 2971215073
  }

  const MAX_SIZE: nat := MinLen(MAX_ROPE_DEPTH - 1) - 1

  /** A node of a rope. `Function` stands for a character producer, by the
      characters it produces; a substring node points into a flat node. */
  datatype Rep<C> =
    | Leaf(data: seq<C>)
    | Function(contents: seq<C>)
    | Substring(base: Rep<C>, start: nat, length: nat)
    | Concat(left: Rep<C>, right: Rep<C>, size: nat, depth: nat, balanced: bool)

  function Size<C>(r: Rep<C>): nat {
    match r
    case Leaf(d) => |d|
    case Function(c) => |c|
    case Substring(_, _, n) => n
    case Concat(_, _, n, _, _) => n
  }

  function Depth<C>(r: Rep<C>): nat {
    if r.Concat? then r.depth else 0
  }

  function BalancedFlag<C>(r: Rep<C>): bool {
    r.Concat? ==> r.balanced
  }

  function Max(a: nat, b: nat): nat { if a > b then a else b }

  /** `_S_flatten`: the text of a rope. */
  function Text<C>(r: Rep<C>): seq<C> {
    match r
    case Leaf(d) => d
    case Function(c) => c
    case Substring(b, s, n) => var t := Text(b); if s + n <= |t| then t[s..s + n] else []
    case Concat(l, r, _, _, _) => Text(l) + Text(r)
  }

  function OptText<C>(r: Option<Rep<C>>): seq<C> {
    if r.None? then [] else Text(r.value)
  }

  function OptSize<C>(r: Option<Rep<C>>): nat {
    if r.None? then 0 else Size(r.value)
  }

  /** What the constructors establish and every operation keeps. */
  ghost predicate Valid<C>(r: Rep<C>) {
    match r
    case Leaf(d) => |d| > 0
    case Function(c) => |c| > 0
    case Substring(b, s, n) => (b.Leaf? || b.Function?) && Valid(b) && n > 0 && s + n <= Size(b)
    case Concat(l, r, n, d, bal) =>
      && Valid(l) && Valid(r)
      && n == Size(l) + Size(r) && d == Max(Depth(l), Depth(r)) + 1
      && (bal ==> d <= MAX_ROPE_DEPTH && n >= MinLen(d))
  }

  /** A rope that clients see: valid, and never deeper than 45. */
  ghost predicate Ok<C>(r: Rep<C>) {
    Valid(r) && Depth(r) <= MAX_ROPE_DEPTH
  }

  ghost predicate OptOk<C>(r: Option<Rep<C>>) {
    r.Some? ==> Ok(r.value)
  }

  lemma {:induction false} SizeIsTextLength<C>(r: Rep<C>)
    requires Valid(r)
    ensures Size(r) == |Text(r)| > 0
  {
    match r
    case Leaf(_) =>
    case Function(_) =>
    case Substring(b, _, _) => SizeIsTextLength(b);
    case Concat(l, r, _, _, _) => SizeIsTextLength(l); SizeIsTextLength(r);
  }

  /** The thresholds are Fibonacci numbers. */
  lemma MinLenIsFibonacci(i: nat)
    requires i + 2 <= MAX_ROPE_DEPTH
    ensures MinLen(i + 2) == MinLen(i + 1) + MinLen(i)
  {
  }

  lemma {:induction false} MinLenMonotone(i: nat, j: nat)
    requires i <= j <= MAX_ROPE_DEPTH
    ensures MinLen(i) <= MinLen(j)
    ensures i < j ==> MinLen(i) < MinLen(j)
    decreases j
  {
    if i < j {
      MinLenMonotone(i, j - 1);
      if j >= 2 {
        MinLenIsFibonacci(j - 2);
      }
    }
  }
}
