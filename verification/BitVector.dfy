/** The vector of bits packed into words. */
module BitVector {
  import opened BitIterator
  import opened Bits
  import opened Copying

  /** `n` copies of a bit. */
  ghost function Copies(n: nat, x: bool): seq<bool> {
    seq(n, _ => x)
  }

  /** A gap of `n` opened inside one storage and filled. */
  lemma GapFilled(s: seq<bool>, k: nat, len: nat, v: seq<bool>)
    requires k <= len && len + |v| <= |s|
    ensures Overwritten(Overwritten(s, k + |v|, s[k..len]), k, v)[..len + |v|] == s[..k] + v + s[k..len]
  {
    var t := Overwritten(s, k + |v|, s[k..len]);
    assert t[..k] == s[..k] && t[k + |v|..len + |v|] == s[k..len];
    var u := Overwritten(t, k, v);
    assert u[..k] == t[..k] && u[k..k + |v|] == v && u[k + |v|..len + |v|] == t[k + |v|..len + |v|];
    assert u[..len + |v|] == u[..k] + u[k..k + |v|] + u[k + |v|..len + |v|];
  }

  /** The same in a new storage. */
  lemma PartsCopied(q: seq<bool>, s: seq<bool>, k: nat, len: nat, v: seq<bool>)
    requires k <= len <= |s| && len + |v| <= |q|
    ensures Overwritten(Overwritten(Overwritten(q, 0, s[0..k]), k, v), k + |v|, s[k..len])[..len + |v|] == s[..k] + v +
      s[k..len]
  {
    var t := Overwritten(q, 0, s[0..k]);
    assert t[..k] == s[..k];
    var u := Overwritten(t, k, v);
    assert u[..k] == t[..k] && u[k..k + |v|] == v;
    var w := Overwritten(u, k + |v|, s[k..len]);
    assert w[..k] == u[..k] && w[k..k + |v|] == u[k..k + |v|] && w[k + |v|..len + |v|] == s[k..len];
    assert w[..len + |v|] == w[..k] + w[k..k + |v|] + w[k + |v|..len + |v|];
  }

  lemma OneWritten(s: seq<bool>, k: nat, x: bool)
    requires k < |s|
    ensures Overwritten(s, k, [x]) == s[k := x]
  {
  }

  lemma RangeCut(s: seq<bool>, a: nat, z: nat, len: nat)
    requires a <= z <= len <= |s|
    ensures Overwritten(s, a, s[z..len])[..a + (len - z)] == s[..a] + s[z..len]
  {
  }

  /** `_M_bit_alloc`: words for `n` bits. */
  method BitAlloc(n: nat) returns (q: array<bv32>)
    ensures fresh(q) && n <= |AllBits(q[..])| < n + WORD_BIT
  {
    q := new bv32[(n + WORD_BIT - 1) / WORD_BIT];
  }

  class BitVector {
    var words: array<bv32>
    var start: BitIter
    var finish: BitIter
    ghost var len: nat

    ghost predicate Valid()
      reads this, words
    {
      start == At(0) && finish == At(len) && len <= |AllBits(words[..])|
    }

    /** The bits of the vector, whatever those behind them are. */
    ghost function Contents(): seq<bool>
      requires Valid()
      reads this, words
    {
      AllBits(words[..])[..len]
    }

    constructor ()
      ensures Valid() && Contents() == [] && fresh(words)
    {
      words := new bv32[0];
      start, finish, len := BitIter(0, 0), BitIter(0, 0), 0;
    }

    constructor Filled(n: nat, value: bool)
      ensures Valid() && Contents() == Copies(n, value) && fresh(words)
    {
      hide AllBits, At;
      AtZero();
      var q := BitAlloc(n);
      words := q;
      start, finish, len := BitIter(0, 0), Plus(BitIter(0, 0), n), n;
      AtPlus(0, n);
      new;
      FillWords(words, value);
      assert AllBits(words[..])[..n] == Copies(n, value);
    }

    method Size() returns (n: nat)
      requires Valid()
      ensures n == |Contents()|
    {
      AtDiffer(len, 0);
      n := Minus(finish, start);
    }

    method Capacity() returns (n: nat)
      requires Valid()
      ensures n == |AllBits(words[..])|
    {
      AtZero();
      n := Minus(BitIter(words.Length, 0), start);
    }

    /** Whether there is room behind the last bit. */
    method Room() returns (room: bool)
      requires Valid()
      ensures room <==> len < |AllBits(words[..])|
    {
      AtDiffer(len, words.Length);
      room := finish.p != words.Length;
    }

    method GetAt(n: nat) returns (x: bool)
      requires Valid() && n < |Contents()|
      ensures x == Contents()[n]
    {
      AtPlus(0, n);
      x := Get(words, Plus(start, n), n);
    }

    method SetAt(n: nat, x: bool)
      requires Valid() && n < |Contents()|
      modifies words
      ensures Valid() && Contents() == old(Contents())[n := x]
    {
      AtPlus(0, n);
      Set(words, Plus(start, n), x, n);
    }

    /** The bits are in the new storage `q`. */
    method TakeStorage(q: array<bv32>, end: BitIter, ghost n: nat)
      requires end == At(n) && n <= |AllBits(q[..])|
      modifies this
      ensures Valid() && words == q && len == n && Contents() == AllBits(q[..])[..n]
    {
      AtZero();
      words, start, finish, len := q, BitIter(0, 0), end, n;
    }

    /** `reserve`. */
    method Reserve(n: nat)
      requires Valid()
      modifies this
      ensures Valid() && Contents() == old(Contents()) && |AllBits(words[..])| >= n
      ensures words == old(words) || fresh(words)
      ensures old(|AllBits(words[..])|) >= n ==> words == old(words)
    {
      hide AllBits, At, Overwritten;
      var c := Capacity();
      if c < n {
        var q := BitAlloc(n);
        AtZero();
        ghost var s, t := AllBits(words[..]), AllBits(q[..]);
        var end := CopyBits(words, start, finish, q, BitIter(0, 0), 0, len, 0);
        FrontCopied(t, s, len);
        TakeStorage(q, end, len);
      }
    }

    /** `_M_insert_aux`. */
    method InsertAux(position: BitIter, x: bool, ghost k: nat)
      requires Valid() && k <= |Contents()| && position == At(k)
      modifies this, words
      ensures Valid() && (words == old(words) || fresh(words))
      ensures Contents() == old(Contents())[..k] + [x] + old(Contents())[k..]
      ensures if old(|Contents()| + 1 <= |AllBits(words[..])|) then words == old(words)
        else |AllBits(words[..])| >= 2 * old(|Contents()|)
    {
      hide AllBits, At;
      var room := Room();
      if room {
        InsertInPlace(position, x, k);
      } else {
        var size := Size();
        var n := if size > 0 then 2 * size else WORD_BIT;
        var q := BitAlloc(n);
        CopyWithGap(q, position, 1, x, k);
      }
    }

    method InsertInPlace(position: BitIter, x: bool, ghost k: nat)
      requires Valid() && k <= |Contents()| && position == At(k) && len < |AllBits(words[..])|
      modifies this`finish, this`len, words
      ensures Valid() && Contents() == old(Contents())[..k] + [x] + old(Contents())[k..]
    {
      hide AllBits, At, Overwritten, Plus, Next;
      ghost var s, v := AllBits(words[..]), [x];
      Sliced(s, k, len);
      GapFilled(s, k, len, v);
      AtPlus(len, 1);
      AtPos(len);
      SameSize(s, k + 1, s[k..len]);
      CopyBitsBackward(words, position, finish, words, Plus(finish, 1), k, len, k + 1);
      OneWritten(AllBits(words[..]), k, x);
      Set(words, position, x, k);
      finish, len := Next(finish), len + 1;
    }

    /** The bits before `position`, `n` times `x` and the rest are copied to the new storage. */
    method CopyWithGap(q: array<bv32>, position: BitIter, n: nat, x: bool, ghost k: nat)
      requires Valid() && k <= |Contents()| && position == At(k) && q != words && len + n <= |AllBits(q[..])|
      modifies this, q
      ensures Valid() && words == q
      ensures Contents() == old(Contents())[..k] + Copies(n, x) + old(Contents())[k..]
    {
      hide AllBits, At, Overwritten;
      ghost var s, t, v := AllBits(words[..]), AllBits(q[..]), Copies(n, x);
      Sliced(s, k, len);
      PartsCopied(t, s, k, len, v);
      AtZero();
      var i := CopyBits(words, start, position, q, BitIter(0, 0), 0, k, 0);
      AtPlus(k, n);
      SameSize(t, 0, s[0..k]);
      FillBits(q, i, Plus(i, n), x, k, k + n);
      SameSize(AllBits(q[..]), k, v);
      var end := CopyBits(words, position, finish, q, Plus(i, n), k, len, k + n);
      TakeStorage(q, end, len + n);
    }

    /** `*_M_finish++ = x`, where there is room. */
    method Append(x: bool)
      requires Valid() && len < |AllBits(words[..])|
      modifies this`finish, this`len, words
      ensures Valid() && Contents() == old(Contents()) + [x]
    {
      hide AllBits, At;
      Set(words, finish, x, len);
      AtPos(len);
      finish, len := Next(finish), len + 1;
    }

    method PushBack(x: bool)
      requires Valid()
      modifies this, words
      ensures Valid() && (words == old(words) || fresh(words)) && Contents() == old(Contents()) + [x]
      ensures if old(|Contents()| + 1 <= |AllBits(words[..])|) then words == old(words)
        else |AllBits(words[..])| >= 2 * old(|Contents()|)
    {
      hide AllBits, At;
      AtTheEnd(Contents(), x);
      var room := Room();
      if room {
        Append(x);
      } else {
        InsertAux(finish, x, len);
      }
    }

    /** `insert` of one bit. */
    method Insert(position: BitIter, x: bool, ghost k: nat) returns (r: BitIter)
      requires Valid() && k <= |Contents()| && position == At(k)
      modifies this, words
      ensures Valid() && (words == old(words) || fresh(words)) && r == At(k)
      ensures Contents() == old(Contents())[..k] + [x] + old(Contents())[k..]
      ensures if old(|Contents()| + 1 <= |AllBits(words[..])|) then words == old(words)
        else |AllBits(words[..])| >= 2 * old(|Contents()|)
    {
      hide AllBits, At, Minus, Plus;
      AtDiffer(k, 0);
      AtDiffer(k, len);
      AtTheEnd(Contents(), x);
      var n := Minus(position, start);
      var room := Room();
      if room && position == finish {
        Append(x);
      } else {
        InsertAux(position, x, k);
      }
      AtPlus(0, k);
      r := Plus(start, n);
    }

    /** `insert` of a number of equal bits. */
    method InsertN(position: BitIter, n: nat, x: bool, ghost k: nat)
      requires Valid() && k <= |Contents()| && position == At(k)
      modifies this, words
      ensures Valid() && (words == old(words) || fresh(words))
      ensures Contents() == old(Contents())[..k] + Copies(n, x) + old(Contents())[k..]
      ensures if old(|Contents()| + n <= |AllBits(words[..])|) then words == old(words)
        else |AllBits(words[..])| >= 2 * old(|Contents()|)
    {
      hide AllBits, At, Overwritten;
      ghost var s, v := AllBits(words[..]), Copies(n, x);
      Sliced(s, k, len);
      if n == 0 {
        assert s[..k] + v + s[k..len] == s[..len];
        return;
      }
      var capacity := Capacity();
      var size := Size();
      if capacity - size >= n {
        GapFilled(s, k, len, v);
        AtPlus(len, n);
        AtPlus(k, n);
        CopyBitsBackward(words, position, finish, words, Plus(finish, n), k, len, k + n);
        SameSize(s, k + n, s[k..len]);
        FillBits(words, position, Plus(position, n), x, k, k + n);
        SameSize(Overwritten(s, k + n, s[k..len]), k, v);
        finish, len := Plus(finish, n), len + n;
      } else {
        var q := BitAlloc(size + if size > n then size else n);
        CopyWithGap(q, position, n, x, k);
      }
    }

    /** `erase` of a range. */
    method EraseRange(first: BitIter, last: BitIter, ghost a: nat, ghost z: nat) returns (r: BitIter)
      requires Valid() && a <= z <= |Contents()| && first == At(a) && last == At(z)
      modifies this, words
      ensures Valid() && words == old(words) && r == first && |AllBits(words[..])| == old(|AllBits(words[..])|)
      ensures Contents() == old(Contents())[..a] + old(Contents())[z..]
    {
      hide AllBits, At, Overwritten;
      ghost var s := AllBits(words[..]);
      RangeCut(s, a, z, len);
      Sliced(s, a, len);
      Sliced(s, z, len);
      SameSize(s, a, s[z..len]);
      finish := CopyBits(words, last, finish, words, first, z, len, a);
      len := a + (len - z);
      r := first;
    }

    /** `erase` of one bit. */
    method EraseAt(position: BitIter, ghost k: nat) returns (r: BitIter)
      requires Valid() && k < |Contents()| && position == At(k)
      modifies this, words
      ensures Valid() && words == old(words) && r == position
      ensures Contents() == old(Contents())[..k] + old(Contents())[k + 1..]
    {
      hide AllBits, At, Overwritten;
      ghost var s := AllBits(words[..]);
      RangeCut(s, k, k + 1, len);
      Sliced(s, k, len);
      Sliced(s, k + 1, len);
      SameSize(s, k, s[k + 1..len]);
      AtPlus(k, 1);
      AtDiffer(k + 1, len);
      AtPos(len);
      if Plus(position, 1) != finish {
        var unused := CopyBits(words, Plus(position, 1), finish, words, position, k + 1, len, k);
      }
      finish, len := Prev(finish), len - 1;
      r := position;
    }

    method PopBack()
      requires Valid() && Contents() != []
      modifies this
      ensures Valid() && words == old(words) && Contents() == old(Contents()[..|Contents()| - 1])
    {
      hide AllBits, At;
      AtPos(len);
      finish, len := Prev(finish), len - 1;
    }

    method Clear()
      requires Valid()
      modifies this, words
      ensures Valid() && words == old(words) && Contents() == []
    {
      var unused := EraseRange(start, finish, 0, len);
    }

    /** `resize`. */
    method Resize(n: nat, x: bool)
      requires Valid()
      modifies this, words
      ensures Valid() && (words == old(words) || fresh(words))
      ensures Contents() == if n < |old(Contents())| then old(Contents())[..n]
        else old(Contents()) + Copies(n - |old(Contents())|, x)
    {
      hide AllBits, At;
      ghost var s := Contents();
      var size := Size();
      AtPlus(0, n);
      if n < size {
        assert s[..n] + s[|s|..] == s[..n];
        var unused := EraseRange(Plus(start, n), finish, n, len);
      } else {
        assert s[..|s|] + Copies(n - |s|, x) + s[|s|..] == s + Copies(n - |s|, x);
        InsertN(finish, n - size, x, len);
      }
    }

    /** `assign`: whole words are filled, which is right whatever lies behind the last bit. */
    method Assign(n: nat, x: bool)
      requires Valid()
      modifies this, words
      ensures Valid() && (words == old(words) || fresh(words)) && Contents() == Copies(n, x)
    {
      hide AllBits, At;
      var size := Size();
      AtPlus(0, n);
      if n > size {
        AllSize(words[..]);
        FillWords(words, x);
        ghost var s := Contents();
        assert s[..|s|] + Copies(n - |s|, x) + s[|s|..] == Copies(n, x);
        InsertN(finish, n - size, x, len);
      } else {
        var unused := EraseRange(Plus(start, n), finish, n, len);
        AllSize(words[..]);
        FillWords(words, x);
        assert Contents() == Copies(n, x);
      }
    }
  }

  lemma AtZero()
    ensures At(0) == BitIter(0, 0)
  {
  }

  lemma AtTheEnd(s: seq<bool>, x: bool)
    ensures s[..|s|] + [x] + s[|s|..] == s + [x]
  {
  }

  lemma AllSize(words: seq<bv32>)
    ensures |AllBits(words)| == WORD_BIT * |words|
  {
  }

  lemma Sliced(s: seq<bool>, k: nat, len: nat)
    requires k <= len <= |s|
    ensures s[..len][..k] == s[..k] && s[..len][k..] == s[k..len]
  {
  }

  lemma SameSize(s: seq<bool>, at: nat, x: seq<bool>)
    requires at + |x| <= |s|
    ensures |Overwritten(s, at, x)| == |s|
  {
  }

  lemma FrontCopied(t: seq<bool>, s: seq<bool>, len: nat)
    requires len <= |s| && len <= |t|
    ensures |Overwritten(t, 0, s[0..len])| == |t| && Overwritten(t, 0, s[0..len])[..len] == s[..len]
  {
  }
}
