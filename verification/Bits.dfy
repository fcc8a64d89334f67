/** The bits of an array of words, and copying and filling them. */
module Bits {
  import opened BitIterator
  import opened Copying

  // ---------- one word ----------

  /** `1U << offset`. */
  function Mask(i: nat): bv32
    requires i < WORD_BIT
  {
    (1 as bv32) << i
  }

  function Test(w: bv32, m: bv32): bool {
    w & m != 0
  }

  /** `_Bit_reference::operator=`. */
  function Masked(w: bv32, m: bv32, x: bool): bv32 {
    if x then w | m else w & !m
  }

  function BitOf(w: bv32, i: nat): bool
    requires i < WORD_BIT
  {
    Test(w, Mask(i))
  }

  lemma MasksApart(i: nat, j: nat)
    requires i < WORD_BIT && j < WORD_BIT
    ensures Mask(i) != 0 && (i != j ==> Mask(i) & Mask(j) == 0)
  {
  }

  lemma SetSets(w: bv32, m: bv32)
    requires m != 0
    ensures (w | m) & m != 0
  {
    assert (w | m) & m == m;
  }

  lemma SetKeeps(w: bv32, m: bv32, n: bv32)
    requires m & n == 0
    ensures (w | m) & n == w & n
  {
    assert (w | m) & n == (w & n) | (m & n);
  }

  lemma ClearClears(w: bv32, m: bv32)
    ensures (w & !m) & m == 0
  {
  }

  lemma ClearKeeps(w: bv32, m: bv32, n: bv32)
    requires m & n == 0
    ensures (w & !m) & n == w & n
  {
    assert n & !m == n;
    assert (w & !m) & n == w & (n & !m);
  }

  lemma MaskedTest(w: bv32, m: bv32, x: bool)
    requires m != 0
    ensures Test(Masked(w, m, x), m) == x
  {
    if x {
      SetSets(w, m);
    } else {
      ClearClears(w, m);
    }
  }

  lemma MaskedOthers(w: bv32, m: bv32, x: bool, n: bv32)
    requires m & n == 0
    ensures Test(Masked(w, m, x), n) == Test(w, n)
  {
    hide Test;
    if x {
      SetTest(w, m, n);
    } else {
      ClearTest(w, m, n);
    }
  }

  lemma SetTest(w: bv32, m: bv32, n: bv32)
    requires m & n == 0
    ensures Test(w | m, n) == Test(w, n)
  {
    SetKeeps(w, m, n);
  }

  lemma ClearTest(w: bv32, m: bv32, n: bv32)
    requires m & n == 0
    ensures Test(w & !m, n) == Test(w, n)
  {
    ClearKeeps(w, m, n);
  }

  /** Writing one bit of a word changes no other. */
  lemma BitWritten(w: bv32, i: nat, x: bool, j: nat)
    requires i < WORD_BIT && j < WORD_BIT
    ensures BitOf(Masked(w, Mask(i), x), j) == if i == j then x else BitOf(w, j)
  {
    hide Mask, Test, Masked;
    MasksApart(i, j);
    if i == j {
      MaskedTest(w, Mask(i), x);
    } else {
      MaskedOthers(w, Mask(i), x, Mask(j));
    }
  }

  /** All bits of the words `~0` and `0`. */
  lemma BitsOfFill(i: nat)
    requires i < WORD_BIT
    ensures BitOf(0xffff_ffff, i) && !BitOf(0, i)
  {
    MasksApart(i, i);
    var m := Mask(i);
    assert 0xffff_ffff & m == m && 0 & m == 0;
  }

  // ---------- an array of words ----------

  /** All bits of the storage, used or not. */
  ghost function AllBits(words: seq<bv32>): (r: seq<bool>)
    ensures |r| == WORD_BIT * |words|
    ensures forall k :: 0 <= k < |r| ==> r[k] == BitOf(words[k / WORD_BIT], k % WORD_BIT)
  {
    seq(WORD_BIT * |words|, k requires 0 <= k < WORD_BIT * |words| => BitOf(words[k / WORD_BIT], k % WORD_BIT))
  }

  lemma Place(k: nat, words: seq<bv32>)
    requires k < WORD_BIT * |words|
    ensures At(k).p == k / WORD_BIT && At(k).offset == k % WORD_BIT < WORD_BIT && 0 <= At(k).p < |words|
    ensures k < |AllBits(words)|
  {
  }

  method Get(words: array<bv32>, it: BitIter, ghost k: nat) returns (x: bool)
    requires it == At(k) && k < |AllBits(words[..])|
    ensures x == AllBits(words[..])[k]
  {
    Place(k, words[..]);
    x := Test(words[it.p], Mask(it.offset));
  }

  method Set(words: array<bv32>, it: BitIter, x: bool, ghost k: nat)
    requires it == At(k) && k < |AllBits(words[..])|
    modifies words
    ensures AllBits(words[..]) == old(AllBits(words[..]))[k := x]
  {
    Place(k, words[..]);
    ghost var was := words[..];
    words[it.p] := Masked(words[it.p], Mask(it.offset), x);
    WordWritten(was, words[..], k, x);
  }

  lemma WordWritten(was: seq<bv32>, now: seq<bv32>, k: nat, x: bool)
    requires k < WORD_BIT * |was| && now == was[k / WORD_BIT := Masked(was[k / WORD_BIT], Mask(k % WORD_BIT), x)]
    ensures AllBits(now) == AllBits(was)[k := x]
  {
    hide BitOf, Masked, Mask;
    forall l | 0 <= l < WORD_BIT * |was|
      ensures AllBits(now)[l] == AllBits(was)[k := x][l]
    {
      BitWritten(was[k / WORD_BIT], k % WORD_BIT, x, l % WORD_BIT);
    }
  }

  /** `fill` of the words from the first to the last. */
  method FillWords(words: array<bv32>, x: bool)
    modifies words
    ensures AllBits(words[..]) == seq(WORD_BIT * words.Length, _ => x)
  {
    var w: bv32 := if x then 0xffff_ffff else 0;
    for i := 0 to words.Length
      invariant forall j :: 0 <= j < i ==> words[j] == w
    {
      words[i] := w;
    }
    FilledBits(words[..], x, w);
  }

  lemma FilledBits(words: seq<bv32>, x: bool, w: bv32)
    requires w == (if x then 0xffff_ffff else 0) && forall j :: 0 <= j < |words| ==> words[j] == w
    ensures AllBits(words) == seq(WORD_BIT * |words|, _ => x)
  {
    forall k | 0 <= k < WORD_BIT * |words|
      ensures AllBits(words)[k] == x
    {
      BitsOfFill(k % WORD_BIT);
      hide BitOf;
    }
  }

  /** From place `lo` to before place `hi` the bits are still those there were. */
  ghost predicate Agree(t: seq<bool>, was: seq<bool>, lo: int, hi: int) {
    |t| == |was| && 0 <= lo && hi <= |was| && forall k :: lo <= k < hi ==> t[k] == was[k]
  }

  lemma AgreeSame(t: seq<bool>, lo: nat, hi: nat)
    requires hi <= |t|
    ensures Agree(t, t, lo, hi)
  {
  }

  lemma AgreeAt(t: seq<bool>, was: seq<bool>, lo: nat, hi: nat, k: nat)
    requires Agree(t, was, lo, hi) && lo <= k < hi
    ensures t[k] == was[k] && Agree(t, was, lo, k) && Agree(t, was, k + 1, hi)
  {
  }

  lemma AgreeWrite(t: seq<bool>, was: seq<bool>, lo: nat, hi: nat, at: nat, x: bool)
    requires Agree(t, was, lo, hi) && at < |t| && (at < lo || at >= hi)
    ensures Agree(t[at := x], was, lo, hi)
  {
  }

  /** One bit is copied; what is still to be read is kept. */
  method CopyBit(src: array<bv32>, from: BitIter, dst: array<bv32>, to: BitIter,
                 ghost was: seq<bool>, ghost lo: nat, ghost hi: nat, ghost i: nat, ghost k: nat)
    requires Agree(AllBits(src[..]), was, lo, hi) && lo <= i < hi && from == At(i) && to == At(k) &&
      k < |AllBits(dst[..])|
    modifies dst
    ensures AllBits(dst[..]) == old(AllBits(dst[..]))[k := was[i]]
    ensures src != dst || k <= i ==> Agree(AllBits(src[..]), was, i + 1, hi)
    ensures src != dst || k >= i ==> Agree(AllBits(src[..]), was, lo, i)
  {
    hide AllBits, At, Agree;
    AgreeAt(AllBits(src[..]), was, lo, hi, i);
    ghost var t := AllBits(src[..]);
    AgreeSize(t, was, lo, hi);
    var bit := Get(src, from, i);
    Set(dst, to, bit, k);
    if src == dst {
      if k <= i {
        AgreeWrite(t, was, i + 1, hi, k, bit);
      }
      if k >= i {
        AgreeWrite(t, was, lo, i, k, bit);
      }
    }
  }

  lemma AgreeSize(t: seq<bool>, was: seq<bool>, lo: int, hi: int)
    requires Agree(t, was, lo, hi)
    ensures |t| == |was| && 0 <= lo && hi <= |was|
  {
  }

  /** `copy` over bits; inside one storage, only towards the front. */
  method CopyBits(src: array<bv32>, first: BitIter, last: BitIter, dst: array<bv32>, result: BitIter,
                  ghost a: nat, ghost z: nat, ghost r: nat) returns (end: BitIter)
    requires first == At(a) && last == At(z) && result == At(r)
    requires a <= z <= |AllBits(src[..])| && r + (z - a) <= |AllBits(dst[..])|
    requires src == dst ==> r <= a
    modifies dst
    ensures end == At(r + (z - a))
    ensures AllBits(dst[..]) == Overwritten(old(AllBits(dst[..])), r, old(AllBits(src[..]))[a..z])
  {
    hide Overwritten, AllBits, At, Next, Agree;
    AgreeSame(AllBits(src[..]), a, z);
    ghost var s, was := AllBits(dst[..]), AllBits(src[..]);
    ghost var x := was[a..z];
    OverwrittenEnds(s, r, x);
    var from := first;
    end := result;
    ghost var n: nat := 0;
    while from != last
      invariant n <= z - a && from == At(a + n) && end == At(r + n)
      invariant AllBits(dst[..]) == Overwritten(s, r, x[..n])
      invariant |AllBits(src[..])| == |was| && Agree(AllBits(src[..]), was, a + n, z)
      decreases z - a - n
    {
      AtDiffer(a + n, z);
      OverwrittenStep(s, r, x, n);
      CopyBit(src, from, dst, end, was, a + n, z, a + n, r + n);
      AtPos(a + n);
      AtPos(r + n);
      from, end, n := Next(from), Next(end), n + 1;
    }
    AtDiffer(a + n, z);
  }

  /** `copy_backward` over bits; inside one storage, only towards the back. */
  method CopyBitsBackward(src: array<bv32>, first: BitIter, last: BitIter, dst: array<bv32>, result: BitIter,
                          ghost a: nat, ghost z: nat, ghost r: nat)
    requires first == At(a) && last == At(z) && result == At(r + (z - a))
    requires a <= z <= |AllBits(src[..])| && r + (z - a) <= |AllBits(dst[..])|
    requires src == dst ==> r >= a
    modifies dst
    ensures AllBits(dst[..]) == Overwritten(old(AllBits(dst[..])), r, old(AllBits(src[..]))[a..z])
  {
    hide Overwritten, AllBits, At, Prev, Agree;
    AgreeSame(AllBits(src[..]), a, z);
    ghost var s, was := AllBits(dst[..]), AllBits(src[..]);
    ghost var x := was[a..z];
    OverwrittenEnds(s, r, x);
    var from, end := last, result;
    ghost var n: nat := z - a;
    while from != first
      invariant n <= z - a && from == At(a + n) && end == At(r + n)
      invariant AllBits(dst[..]) == Overwritten(s, r + n, x[n..])
      invariant |AllBits(src[..])| == |was| && Agree(AllBits(src[..]), was, a, a + n)
      decreases n
    {
      AtDiffer(a + n, a);
      AtPos(a + n);
      AtPos(r + n);
      from, end, n := Prev(from), Prev(end), n - 1;
      OverwrittenStep(s, r, x, n);
      CopyBit(src, from, dst, end, was, a, a + n + 1, a + n, r + n);
    }
    AtDiffer(a + n, a);
  }

  /** `fill` over bits. */
  method FillBits(words: array<bv32>, first: BitIter, last: BitIter, x: bool, ghost a: nat, ghost z: nat)
    requires first == At(a) && last == At(z) && a <= z <= |AllBits(words[..])|
    modifies words
    ensures AllBits(words[..]) == Overwritten(old(AllBits(words[..])), a, seq(z - a, _ => x))
  {
    hide Overwritten, AllBits, At, Next;
    ghost var s, v := AllBits(words[..]), seq(z - a, _ => x);
    OverwrittenEnds(s, a, v);
    var it := first;
    ghost var n: nat := 0;
    while it != last
      invariant n <= |v| && it == At(a + n)
      invariant AllBits(words[..]) == Overwritten(s, a, v[..n])
      decreases |v| - n
    {
      AtDiffer(a + n, z);
      OverwrittenStep(s, a, v, n);
      Set(words, it, x, a + n);
      AtPos(a + n);
      it, n := Next(it), n + 1;
    }
    AtDiffer(a + n, z);
  }
}
