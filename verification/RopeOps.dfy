/** The text operations on ropes: substrings, replacement, appending, indexing. */
module RopeOps {
  import opened Options
  import opened RopeRep
  import opened RopeConcat

  /** Characters `start` up to `stop`, clipped to the text. */
  function Clip<C>(t: seq<C>, start: nat, stop: nat): seq<C> {
    var e := if stop < |t| then stop else |t|;
    if start >= e then [] else t[start..e]
  }

  lemma SliceOfSlice<C>(t: seq<C>, a: nat, n: nat, start: nat, m: nat)
    requires a + n <= |t| && start + m <= n
    ensures t[a..a + n][start..start + m] == t[a + start..a + start + m]
  {
    var u, v := t[a..a + n][start..start + m], t[a + start..a + start + m];
    assert forall k :: 0 <= k < m ==> u[k] == v[k];
  }

  /** A call of the character producer of a function or substring node. */
  function Produce<C>(r: Rep<C>, start: nat, n: nat): (s: seq<C>)
    requires Valid(r) && (r.Function? || r.Substring?) && start + n <= Size(r)
    ensures start + n <= |Text(r)| && s == Text(r)[start..start + n]
  {
    SizeIsTextLength(r);
    if r.Function? then r.contents[start..start + n]
    else
      SizeIsTextLength(r.base);
      var at := start + r.start;
      var b := if r.base.Function? then r.base.contents else r.base.data;
      SliceOfSlice(b, r.start, r.length, start, n);
      b[at..at + n]
  }

  lemma ClipConcat<C>(a: seq<C>, b: seq<C>, start: nat, stop: nat)
    ensures stop <= |a| ==> Clip(a + b, start, stop) == Clip(a, start, stop)
    ensures start >= |a| && stop >= |a| ==> Clip(a + b, start, stop) == Clip(b, start - |a|, stop - |a|)
    ensures start < |a| <= stop ==> Clip(a + b, start, stop) == Clip(a, start, |a|) + Clip(b, 0, stop - |a|)
  {
    var e := if stop < |a + b| then stop else |a + b|;
    if start < e {
      if e <= |a| {
        assert (a + b)[start..e] == a[start..e];
      } else if start >= |a| {
        assert (a + b)[start..e] == b[start - |a|..e - |a|];
      } else {
        assert (a + b)[start..e] == a[start..] + b[..e - |a|];
      }
    }
  }

  lemma ClipSize<C>(t: seq<C>, start: nat, stop: nat)
    ensures |Clip(t, start, stop)| <= |t|
    ensures stop >= |t| ==> Clip(t, start, stop) == Clip(t, start, |t|)
    ensures stop >= |t| && start == 0 ==> Clip(t, start, stop) == t
  {
  }

  /** The flat cases of `_S_substring`: short pieces are copied, long ones become a
      substring node, and a substring of a substring points to the original. */
  function SubFlat<C>(r: Rep<C>, start: nat, adjusted: nat): (res: Option<Rep<C>>)
    requires Valid(r) && !r.Concat? && adjusted <= Size(r)
    ensures OptOk(res) && OptText(res) == Clip(Text(r), start, adjusted)
    ensures res.Some? ==> (res.value.Leaf? <==> adjusted - start <= LAZY_THRESHOLD)
  {
    SizeIsTextLength(r);
    if start >= adjusted then None
    else
      var n := adjusted - start;
      match r
      case Leaf(data) =>
        if n > LAZY_THRESHOLD then Some(Rep.Substring(r, start, n)) else Some(Leaf(data[start..start + n]))
      case Substring(b, s, _) =>
        SizeIsTextLength(b);
        SliceOfSlice(Text(b), s, r.length, start, n);
        if n > LAZY_THRESHOLD then Some(Rep.Substring(b, start + s, n)) else Some(Leaf(Produce(r, start, n)))
      case Function(_) =>
        if n > LAZY_THRESHOLD then Some(Rep.Substring(r, start, n)) else Some(Leaf(Produce(r, start, n)))
  }

  /** `_S_substring` of a rope that is not null. */
  method SubRep<C>(r: Rep<C>, start: nat, stop: nat) returns (res: Option<Rep<C>>)
    requires Ok(r) && Size(r) <= MAX_SIZE
    ensures OptOk(res) && OptText(res) == Clip(Text(r), start, stop)
    ensures start == 0 && stop >= Size(r) ==> res == Some(r)
    decreases r
  {
    hide Text, Valid, MinLen, Clip, Concatenated, Rebalances;
    SizeIsTextLength(r);
    ClipSize(Text(r), start, stop);
    var len := Size(r);
    var adjusted;
    if stop >= len {
      if start == 0 {
        return Some(r);
      }
      adjusted := len;
    } else {
      adjusted := stop;
    }
    if r.Concat? {
      Children(r);
      var left, right := r.left, r.right;
      var leftLen := Size(left);
      ghost var a, b := Text(left), Text(right);
      ClipConcat(a, b, start, adjusted);
      ClipTail(b, stop - leftLen);
      if adjusted <= leftLen {
        res := SubRep(left, start, stop);
      } else if start >= leftLen {
        res := SubRep(right, start - leftLen, adjusted - leftLen);
      } else {
        var l := SubRep(left, start, leftLen);
        var s := SubRep(right, 0, stop - leftLen);
        ClipSize(a, start, leftLen);
        ClipSize(b, 0, stop - leftLen);
        OptSizeIsLength(l);
        OptSizeIsLength(s);
        res := ConcatOpt(l, s);
      }
    } else {
      res := SubFlat(r, start, adjusted);
    }
  }

  lemma Children<C>(r: Rep<C>)
    requires Ok(r) && r.Concat?
    ensures Ok(r.left) && Ok(r.right) && Text(r) == Text(r.left) + Text(r.right)
    ensures Size(r.left) == |Text(r.left)| > 0 && Size(r.right) == |Text(r.right)| > 0
    ensures Size(r) == Size(r.left) + Size(r.right)
  {
    SizeIsTextLength(r.left);
    SizeIsTextLength(r.right);
  }

  lemma ClipTail<C>(t: seq<C>, stop: int)
    ensures stop >= |t| ==> Clip(t, 0, stop) == t
  {
  }

  /** `_S_substring`. */
  method Subrope<C>(base: Option<Rep<C>>, start: nat, stop: nat) returns (res: Option<Rep<C>>)
    requires OptOk(base) && OptSize(base) <= MAX_SIZE
    ensures OptOk(res) && OptText(res) == Clip(OptText(base), start, stop)
    ensures start == 0 && stop >= OptSize(base) ==> res == base
  {
    if base.None? {
      return None;
    }
    res := SubRep(base.value, start, stop);
  }

  lemma OptSizeIsLength<C>(r: Option<Rep<C>>)
    requires OptOk(r)
    ensures OptSize(r) == |OptText(r)|
  {
    if r.Some? {
      SizeIsTextLength(r.value);
    }
  }

  /** `_S_fetch` without a cached string. */
  method Fetch<C>(r0: Rep<C>, i0: nat) returns (c: C)
    requires Valid(r0) && i0 < Size(r0)
    ensures i0 < |Text(r0)| && c == Text(r0)[i0]
  {
    var r, i: nat := r0, i0;
    SizeIsTextLength(r);
    while r.Concat?
      invariant Valid(r) && Size(r) == |Text(r)| && 0 <= i < Size(r) && Text(r)[i] == Text(r0)[i0]
      decreases r
    {
      var left := r.left;
      SizeIsTextLength(left);
      SizeIsTextLength(r.right);
      if i >= Size(left) {
        i := i - Size(left);
        r := r.right;
      } else {
        r := left;
      }
    }
    match r
    case Leaf(data) => c := data[i];
    case Function(_) => c := Produce(r, i, 1)[0];
    case Substring(_, _, _) => c := Produce(r, i, 1)[0];
  }

  /** `_S_flatten`: copies the text into a buffer and returns the place behind it. */
  method Flatten<C>(r: Rep<C>, buffer: array<C>, at: nat) returns (end: nat)
    requires Valid(r) && at + Size(r) <= buffer.Length
    modifies buffer
    ensures end == at + Size(r)
    ensures buffer[..] == old(buffer[..at]) + Text(r) + old(buffer[end..])
    decreases r
  {
    hide Text, Produce, MinLen, Valid;
    FlatText(r);
    SizeIsTextLength(r);
    match r
    case Concat(left, right, _, _, _) =>
      SizeIsTextLength(left);
      SizeIsTextLength(right);
      ghost var b0 := buffer[..];
      var rest := Flatten(left, buffer, at);
      ghost var b1 := buffer[..];
      end := Flatten(right, buffer, rest);
      Spliced(b0, b1, Text(left), Text(right), at);
    case Leaf(data) =>
      CopyInto(data, buffer, at);
      end := at + |data|;
    case Function(_) =>
      CopyInto(Produce(r, 0, Size(r)), buffer, at);
      end := at + Size(r);
    case Substring(_, _, _) =>
      CopyInto(Produce(r, 0, Size(r)), buffer, at);
      end := at + Size(r);
  }

  lemma FlatText<C>(r: Rep<C>)
    requires Valid(r)
    ensures r.Concat? ==> Valid(r.left) && Valid(r.right) && Size(r) == Size(r.left) + Size(r.right)
    ensures r.Concat? ==> Text(r) == Text(r.left) + Text(r.right)
    ensures r.Leaf? ==> Text(r) == r.data
    ensures r.Function? || r.Substring? ==> Produce(r, 0, Size(r)) == Text(r)
  {
    SizeIsTextLength(r);
    assert Text(r)[0..|Text(r)|] == Text(r);
  }

  lemma Spliced<C>(b0: seq<C>, b1: seq<C>, s: seq<C>, t: seq<C>, at: nat)
    requires at + |s| + |t| <= |b0| && b1 == b0[..at] + s + b0[at + |s|..]
    ensures b1[..at + |s|] + t + b1[at + |s| + |t|..] == b0[..at] + (s + t) + b0[at + |s| + |t|..]
  {
  }

  method CopyInto<C>(s: seq<C>, buffer: array<C>, at: nat)
    requires at + |s| <= buffer.Length
    modifies buffer
    ensures buffer[..] == old(buffer[..at]) + s + old(buffer[at + |s|..])
  {
    for k := 0 to |s|
      invariant buffer[..at + k] == old(buffer[..at]) + s[..k]
      invariant buffer[at + k..] == old(buffer[at + k..])
    {
      buffer[at + k] := s[k];
    }
  }

  lemma ClipPair<C>(t: seq<C>, pos1: nat, pos2: nat)
    requires pos1 <= pos2
    ensures |Clip(t, 0, pos1)| + |Clip(t, pos2, |t|)| <= |t|
  {
  }

  lemma EmptyMiddle<C>(a: seq<C>, b: seq<C>)
    ensures a + [] + b == a + b
  {
  }

  /** `replace` of the characters from `pos1` to `pos2`. */
  method Replace<C>(whole: Option<Rep<C>>, pos1: nat, pos2: nat, r: Option<Rep<C>>) returns (res: Option<Rep<C>>)
    requires OptOk(whole) && OptOk(r) && pos1 <= pos2
    requires OptSize(whole) + OptSize(r) <= MAX_SIZE
    ensures OptOk(res)
    ensures OptText(res) == Clip(OptText(whole), 0, pos1) + OptText(r) + Clip(OptText(whole), pos2, |OptText(whole)|)
  {
    if whole.None? {
      return r;
    }
    hide Text, OptText, Valid, MinLen, Clip, Concatenated;
    OptSizeIsLength(whole);
    ClipPair(OptText(whole), pos1, pos2);
    var left := Subrope(whole, 0, pos1);
    var right := Subrope(whole, pos2, Size(whole.value));
    OptSizeIsLength(left);
    OptSizeIsLength(right);
    OptSizeIsLength(r);
    if r.None? {
      res := ConcatOpt(left, right);
      NoText(r);
      EmptyMiddle(OptText(left), OptText(right));
    } else {
      var l := ConcatOpt(left, r);
      OptSizeIsLength(l);
      res := ConcatOpt(l, right);
    }
  }

  lemma NoText<C>(r: Option<Rep<C>>)
    requires r.None?
    ensures OptText(r) == []
  {
  }

  /** `insert(p, r)`. */
  method Insert<C>(whole: Option<Rep<C>>, p: nat, r: Option<Rep<C>>) returns (res: Option<Rep<C>>)
    requires OptOk(whole) && OptOk(r) && p <= OptSize(whole)
    requires OptSize(whole) + OptSize(r) <= MAX_SIZE
    ensures OptOk(res) && p <= |OptText(whole)|
    ensures OptText(res) == OptText(whole)[..p] + OptText(r) + OptText(whole)[p..]
  {
    OptSizeIsLength(whole);
    res := Replace(whole, p, p, r);
  }

  // ---------- appending characters ----------

  /** `_S_concat_char_iter`. */
  method ConcatCharIter<C>(r: Option<Rep<C>>, s: seq<C>) returns (res: Option<Rep<C>>)
    requires OptOk(r) && OptSize(r) + |s| <= MAX_SIZE
    ensures OptOk(res) && OptText(res) == OptText(r) + s
    ensures s != [] && r.Some? ==> res.Some? && Concatenated(r.value, Leaf(s), res.value) && ShortIsShallow(res.value)
  {
    if s == [] {
      return r;
    }
    if r.None? {
      return Some(Leaf(s));
    }
    var t := r.value;
    var u;
    if t.Leaf? && Size(t) + |s| <= COPY_MAX {
      u := Leaf(t.data + s);
    } else if t.Concat? && t.right.Leaf? && Size(t.right) + |s| <= COPY_MAX {
      u := TreeConcat(t.left, Leaf(t.right.data + s));
    } else {
      u := TreeConcat(t, Leaf(s));
    }
    ConcatenatedFacts(t, Leaf(s), u);
    res := Some(u);
  }

  lemma GrownRight<C>(t: Rep<C>, s: seq<C>)
    requires Ok(t) && t.Concat? && t.right.Leaf?
    ensures var u := t.(right := Leaf(t.right.data + s), size := t.size + |s|);
            Ok(u) && Text(u) == Text(t) + s
  {
    hide MinLen;
    var u := t.(right := Leaf(t.right.data + s), size := t.size + |s|);
    assert Valid(t.left) && Valid(t.right) && Valid(u.right);
    assert u.size == Size(u.left) + Size(u.right);
    assert u.depth == Max(Depth(u.left), Depth(u.right)) + 1;
    assert t.balanced ==> t.size >= MinLen(t.depth);
    assert Valid(u);
    assert Text(t.left) + (t.right.data + s) == (Text(t.left) + t.right.data) + s;
  }

  // ---------- n copies ----------

  ghost function Times<C>(t: seq<C>, n: nat): seq<C> {
    if n == 0 then [] else t + Times(t, n - 1)
  }

  lemma {:induction false} TimesAdd<C>(t: seq<C>, a: nat, b: nat)
    ensures Times(t, a + b) == Times(t, a) + Times(t, b)
  {
    if a > 0 {
      TimesAdd(t, a - 1, b);
      var u, v := Times(t, a - 1), Times(t, b);
      assert Times(t, a) == t + u && Times(t, a + b) == t + (u + v);
      assert t + (u + v) == (t + u) + v;
    }
  }

  lemma {:induction false} TimesMul<C>(t: seq<C>, a: nat, b: nat)
    ensures Times(Times(t, a), b) == Times(t, a * b)
  {
    if b > 0 {
      TimesMul(t, a, b - 1);
      TimesAdd(t, a, a * (b - 1));
      assert a * b == a + a * (b - 1);
    }
  }

  lemma {:induction false} TimesSize<C>(t: seq<C>, n: nat)
    ensures |Times(t, n)| == |t| * n
  {
    if n > 0 {
      TimesSize(t, n - 1);
      assert |t| * n == |t| + |t| * (n - 1);
    }
  }

  lemma MulMonotone(k: nat, a: nat, b: nat)
    requires a <= b
    ensures k * a <= k * b
  {
  }

  /** `a + b` copies fit when at most `n` copies do. */
  lemma CopiesFit<C>(t: seq<C>, a: nat, b: nat, n: nat)
    requires a + b <= n && |t| * n <= MAX_SIZE
    ensures |Times(t, a)| + |Times(t, b)| <= MAX_SIZE
    ensures Times(t, a) + Times(t, b) == Times(t, a + b)
  {
    TimesAdd(t, a, b);
    TimesSize(t, a + b);
    MulMonotone(|t|, a + b, n);
  }

  /** `n` units of `e` copies. */
  ghost function Units(e: nat, n: nat): nat { e * n }

  /** Halving the number of units while the unit doubles. */
  lemma Halve(e: nat, n: nat)
    ensures Units(e, n) == Units(e + e, n / 2) + if n % 2 == 1 then e else 0
    ensures n >= 2 ==> e + e <= Units(e, n)
  {
    var h := n / 2;
    if n % 2 == 0 {
      assert e * (2 * h) == (e + e) * h;
    } else {
      assert e * (2 * h + 1) == (e + e) * h + e;
    }
    if n >= 2 {
      MulMonotone(e, 2, n);
    }
  }

  lemma OneUnit(e: nat, n: nat)
    ensures Units(1, n) == n && Units(e, 0) == 0
    ensures n >= 1 ==> e <= Units(e, n)
  {
    if n >= 1 {
      MulMonotone(e, 1, n);
    }
  }

  /** `operator+` on two ropes that are not null. */
  method Join<C>(l: Rep<C>, r: Rep<C>) returns (res: Rep<C>)
    requires Ok(l) && Ok(r) && Size(l) + Size(r) <= MAX_SIZE
    ensures Ok(res) && Text(res) == Text(l) + Text(r)
  {
    res := ConcatReps(l, r);
    ConcatenatedFacts(l, r, res);
  }

  /** Joins `a` and `b` copies of `t`. */
  method JoinCopies<C>(x: Rep<C>, y: Rep<C>, ghost t: seq<C>, ghost a: nat, ghost b: nat, ghost n: nat)
                       returns (res: Rep<C>)
    requires Ok(x) && Ok(y) && Text(x) == Times(t, a) && Text(y) == Times(t, b)
    requires a + b <= n && |t| * n <= MAX_SIZE
    ensures Ok(res) && Text(res) == Times(t, a + b)
  {
    hide MinLen, Valid, Text, Times;
    SizeIsTextLength(x);
    SizeIsTextLength(y);
    CopiesFit(t, a, b, n);
    res := Join(x, y);
  }

  lemma TimesOne<C>(t: seq<C>)
    ensures Times(t, 1) == t
  {
    assert Times(t, 0) == [];
  }

  /** `__power` with rope concatenation: `n0` copies of the text of `x0`. No intermediate rope
      is longer than the result. */
  method Power<C>(x0: Rep<C>, n0: nat) returns (result: Option<Rep<C>>)
    requires Ok(x0) && |Text(x0)| * n0 <= MAX_SIZE
    ensures OptOk(result) && OptText(result) == Times(Text(x0), n0)
  {
    if n0 == 0 {
      return None;
    }
    hide MinLen, Valid, Text, Times, Units;
    ghost var t := Text(x0);
    var x, n := x0, n0;
    ghost var e: nat := 1;
    TimesOne(t);
    OneUnit(1, n0);
    while n % 2 == 0
      invariant n > 0 && Units(e, n) == n0 && Ok(x) && Text(x) == Times(t, e)
      decreases n
    {
      Halve(e, n);
      n := n / 2;
      x := JoinCopies(x, x, t, e, e, n0);
      e := e + e;
    }
    var acc := x;
    ghost var a := e;
    Halve(e, n);
    n := n / 2;
    while n != 0
      invariant e >= 0 && n >= 0 && a + Units(e + e, n) == n0 && Ok(x) && Text(x) == Times(t, e)
      invariant Ok(acc) && Text(acc) == Times(t, a)
      decreases n
    {
      Halve(e + e, n);
      OneUnit(e + e, n);
      x := JoinCopies(x, x, t, e, e, n0);
      e := e + e;
      if n % 2 != 0 {
        acc := JoinCopies(acc, x, t, a, e, n0);
        a := a + e;
      }
      n := n / 2;
    }
    OneUnit(e + e, n);
    result := Some(acc);
  }

  function Copies<C>(c: C, n: nat): seq<C> { seq(n, i => c) }

  lemma {:induction false} TimesCopies<C>(c: C, m: nat, n: nat)
    ensures Times(Copies(c, m), n) == Copies(c, m * n)
  {
    if n > 0 {
      TimesCopies(c, m, n - 1);
      assert m * n == m + m * (n - 1);
      assert Copies(c, m) + Copies(c, m * (n - 1)) == Copies(c, m * n);
    }
  }

  /** `rope(n, c)`: exactly `n` copies of the character. */
  method Fill<C>(n: nat, c: C) returns (res: Option<Rep<C>>)
    requires n <= MAX_SIZE
    ensures OptOk(res) && OptText(res) == Copies(c, n)
  {
    if n == 0 {
      return None;
    }
    var exponent, rest := n / 32, n % 32;
    var remainder: Option<Rep<C>> := if rest == 0 then None else Some(Leaf(Copies(c, rest)));
    if exponent == 0 {
      return remainder;
    }
    var base := Leaf(Copies(c, 32));
    TimesCopies(c, 32, exponent);
    if exponent == 1 {
      res := Some(base);
    } else {
      res := Power(base, exponent);
    }
    TimesOne(Copies(c, 32));
    assert OptText(res) == Copies(c, 32 * exponent);
    if remainder.Some? {
      OptSizeIsLength(res);
      res := ConcatOpt(res, remainder);
      assert Copies(c, 32 * exponent) + Copies(c, rest) == Copies(c, n);
    }
  }
}
