/** The form of `rotate` that follows the cycles of the permutation, one for each residue
    modulo the greatest common divisor. */
module RotateCycles {
  import opened Ranges
  import opened Rotate

  // ---------- the greatest common divisor ----------

  /** `x` and `y` combine `n` and `k` to one: they have no common divisor. */
  ghost predicate Coprime(n: nat, k: nat, x: int, y: int) {
    n > 0 && x * n + y * k == 1
  }

  /** `m` and `n` are combinations of `m0` and `n0`, and the other way round. */
  ghost predicate SameDivisors(m: int, n: int, m0: int, n0: int, x: int, y: int, u: int, v: int, a: int, b: int,
                               c: int, e: int) {
    && m == x * m0 + y * n0 && n == u * m0 + v * n0
    && m0 == a * m + b * n && n0 == c * m + e * n
  }

  lemma GcdStep(m: int, n: int, m0: int, n0: int, x: int, y: int, u: int, v: int, a: int, b: int, c: int, e: int)
    returns (x1: int, y1: int, a1: int, c1: int)
    requires n > 0 && SameDivisors(m, n, m0, n0, x, y, u, v, a, b, c, e)
    ensures SameDivisors(n, m % n, m0, n0, u, v, x1, y1, a1, a, c1, c)
  {
    var q, t := m / n, m % n;
    DivMod(m, n);
    x1, y1, a1, c1 := x - q * u, y - q * v, a * q + b, c * q + e;
    Subtracted(m, n, q, t, m0, n0, x, y, u, v);
    Substituted(m, n, q, t, m0, a, b);
    Substituted(m, n, q, t, n0, c, e);
  }

  lemma Subtracted(m: int, n: int, q: int, t: int, m0: int, n0: int, x: int, y: int, u: int, v: int)
    requires m == x * m0 + y * n0 && n == u * m0 + v * n0 && m == q * n + t
    ensures t == (x - q * u) * m0 + (y - q * v) * n0
  {
    assert (x - q * u) * m0 + (y - q * v) * n0 == (x * m0 + y * n0) - q * (u * m0 + v * n0);
  }

  lemma Substituted(m: int, n: int, q: int, t: int, m0: int, a: int, b: int)
    requires m0 == a * m + b * n && m == q * n + t
    ensures m0 == (a * q + b) * n + a * t
  {
    assert a * (q * n + t) == a * q * n + a * t;
  }

  lemma GcdEnds(m: int, m0: int, n0: int, x: int, y: int, u: int, v: int, a: int, b: int, c: int, e: int)
    ensures SameDivisors(m0, n0, m0, n0, 1, 0, 0, 1, 1, 0, 0, 1)
    ensures SameDivisors(m, 0, m0, n0, x, y, u, v, a, b, c, e) ==> m0 == a * m && n0 == c * m && m == x * m0 + y * n0
  {
  }

  /** `__gcd`, with what makes it the greatest: a combination of its arguments. */
  method Gcd(m0: nat, n0: nat) returns (d: nat, ghost a: int, ghost c: int, ghost x: int, ghost y: int)
    requires m0 > 0
    ensures d > 0 && m0 == a * d && n0 == c * d && d == x * m0 + y * n0
  {
    hide SameDivisors;
    d, a, c, x, y := m0, 1, 0, 1, 0;
    var n: nat := n0;
    ghost var u: int, v: int, b: int, e: int := 0, 1, 0, 1;
    GcdEnds(d, m0, n0, x, y, u, v, a, b, c, e);
    while n != 0
      invariant SameDivisors(d, n, m0, n0, x, y, u, v, a, b, c, e) && d > 0
      decreases n
    {
      ghost var x1, y1, a1, c1 := GcdStep(d, n, m0, n0, x, y, u, v, a, b, c, e);
      x, y, u, v := u, v, x1, y1;
      a, b, c, e := a1, a, c1, c;
      var t := d % n;
      d, n := n, t;
    }
    GcdEnds(d, m0, n0, x, y, u, v, a, b, c, e);
  }

  lemma Multiple(c: int, n: int)
    requires n > 0
    ensures c >= 1 ==> c * n >= n
    ensures c <= -1 ==> c * n <= -n
  {
  }

  lemma SmallMultiple(c: int, n: int, e: int)
    requires c * n == e && -n < e < n
    ensures c == 0 && e == 0
  {
    Multiple(c, n);
  }

  lemma Quotients(d: nat, n: nat, k: nat, a: int, c: int, x: int, y: int)
    requires d > 0 && n > 0 && n == a * d && k == c * d && d == x * n + y * k
    ensures a > 0 && c >= 0 && Coprime(a, c, x, y)
  {
    Multiple(a, d);
    Multiple(c, d);
    var e := x * a + y * c - 1;
    calc {
      e * d;
      (x * a) * d + (y * c) * d - d;
      x * (a * d) + y * (c * d) - d;
      x * n + y * k - d;
      0;
    }
    SmallMultiple(e, d, 0);
  }

  // ---------- the walk round one cycle ----------

  lemma ModIs(a: int, n: nat, c: int, r: nat)
    requires a == c * n + r && r < n
    ensures a % n == r
  {
    DivMod(a, n);
    var q, t := a / n, a % n;
    assert (c - q) * n == c * n - q * n;
    SmallMultiple(c - q, n, t - r);
  }

  lemma DivMod(a: int, n: nat)
    requires n > 0
    ensures a == (a / n) * n + a % n && 0 <= a % n < n
  {
  }

  /** The place of the walk after `m` steps of `k` places, modulo `n`. */
  ghost function Walk(n: nat, k: nat, m: nat): (r: nat)
    requires n > 0
    ensures r < n
  {
    (m * k) % n
  }

  /** Where the element that goes to place `q` comes from. */
  ghost function Source(n: nat, k: nat, q: nat): (r: nat)
    requires k <= n && q < n
    ensures r < n
  {
    if q < n - k then q + k else q - (n - k)
  }

  lemma WalkStep(n: nat, k: nat, m: nat)
    requires n > 0 && k <= n
    ensures Walk(n, k, 0) == 0 && Walk(n, k, m + 1) == Source(n, k, Walk(n, k, m))
  {
    ModIs(0 * k, n, 0, 0);
    var q, c := Walk(n, k, m), (m * k) / n;
    assert (m + 1) * k == m * k + k == c * n + q + k;
    if q < n - k {
      ModIs((m + 1) * k, n, c, q + k);
    } else {
      assert (c + 1) * n == c * n + n;
      ModIs((m + 1) * k, n, c + 1, q - (n - k));
    }
  }

  /** Only after `n` steps is the walk back at the start. */
  lemma WalkReturns(n: nat, k: nat, m: nat, x: int, y: int)
    requires Coprime(n, k, x, y) && Walk(n, k, m) == 0
    ensures m % n == 0
  {
    var c := (m * k) / n;
    assert m * k == c * n;
    calc {
      m;
      m * (x * n + y * k);
      (m * x) * n + y * (m * k);
      (m * x) * n + (y * c) * n;
      (m * x + y * c) * n;
    }
    ModIs(m, n, m * x + y * c, 0);
  }

  /** The walk visits no place twice. */
  lemma WalkDistinct(n: nat, k: nat, a: nat, b: nat, x: int, y: int)
    requires Coprime(n, k, x, y) && a < b < n
    ensures Walk(n, k, a) != Walk(n, k, b)
  {
    if Walk(n, k, a) == Walk(n, k, b) {
      DivMod(a * k, n);
      DivMod(b * k, n);
      SameRemainder(n, k, a, b, (a * k) / n, (b * k) / n, Walk(n, k, a));
      WalkReturns(n, k, b - a, x, y);
      ModIs(b - a, n, 0, b - a);
    }
  }

  lemma SameRemainder(n: nat, k: nat, a: nat, b: nat, ca: int, cb: int, r: nat)
    requires n > 0 && a < b && a * k == ca * n + r && b * k == cb * n + r
    ensures Walk(n, k, b - a) == 0
  {
    assert (b - a) * k == b * k - a * k;
    assert (cb - ca) * n == cb * n - ca * n;
    ModIs((b - a) * k, n, cb - ca, 0);
  }

  /** The walk visits every place. */
  lemma WalkReaches(n: nat, k: nat, q: nat, x: int, y: int) returns (m: nat)
    requires Coprime(n, k, x, y) && q < n
    ensures m < n && Walk(n, k, m) == q
  {
    m := (q * y) % n;
    var t := (q * y) / n;
    assert q * y == t * n + m;
    calc {
      m * k;
      (q * y - t * n) * k;
      q * (y * k) - t * n * k;
      { assert y * k == 1 - x * n; }
      q * (1 - x * n) - t * n * k;
      (-(q * x) - t * k) * n + q;
    }
    ModIs(m * k, n, -(q * x) - t * k, q);
  }

  /** The last place of the walk is the one whose source is the start. */
  lemma WalkEnds(n: nat, k: nat, m: nat, x: int, y: int)
    requires Coprime(n, k, x, y) && 0 < k <= n && m < n
    ensures Walk(n, k, m) == n - k <==> m + 1 == n
  {
    WalkStep(n, k, m);
    if m + 1 == n {
      ModIs(n * k, n, k, 0);
    } else if Walk(n, k, m) == n - k {
      WalkReturns(n, k, m + 1, x, y);
      ModIs(m + 1, n, 0, m + 1);
    }
  }

  // ---------- the cycles in the array ----------

  /** The cycle of residue `i`: `n` places, `d` apart from `base + i` on, walked `k` at a time. */
  datatype Cycle = Cycle(base: nat, i: nat, d: nat, n: nat, k: nat, x: int, y: int)

  ghost predicate CycleOk(c: Cycle) {
    c.i < c.d && c.k <= c.n && Coprime(c.n, c.k, c.x, c.y)
  }

  lemma Residue(d: nat, i: nat, q: nat, n: nat)
    requires i < d && q < n
    ensures 0 <= i + d * q < d * n && (i + d * q) % d == i
  {
    Multiple(n - q, d);
    assert d * n == d * q + (n - q) * d;
    assert i + d * q == q * d + i;
    ModIs(i + d * q, d, q, i);
  }

  /** The length of so many places, in elements. */
  ghost function Span(c: Cycle, places: int): int {
    c.d * places
  }

  ghost function Rem(o: int, d: nat): int { if d == 0 then o else o % d }

  ghost predicate OnCycle(c: Cycle, o: int)
  {
    c.d > 0 && c.base <= o < c.base + Span(c, c.n) && Rem(o - c.base, c.d) == c.i
  }

  /** Place `q` of the cycle. */
  ghost function At(c: Cycle, q: nat): (r: nat)
    requires CycleOk(c) && q < c.n
    ensures OnCycle(c, r)
  {
    Residue(c.d, c.i, q, c.n);
    c.base + c.i + c.d * q
  }

  lemma AtDistinct(c: Cycle, q: nat, r: nat)
    requires CycleOk(c) && q < c.n && r < c.n && q != r
    ensures At(c, q) != At(c, r)
  {
    assert (r - q) * c.d == c.d * r - c.d * q;
    Multiple(r - q, c.d);
  }

  ghost function WalkAt(c: Cycle, m: nat): (r: nat)
    requires CycleOk(c)
    ensures OnCycle(c, r)
  {
    At(c, Walk(c.n, c.k, m))
  }

  lemma WalkAtDistinct(c: Cycle, a: nat, b: nat)
    requires CycleOk(c) && a < b < c.n
    ensures WalkAt(c, a) != WalkAt(c, b)
  {
    WalkDistinct(c.n, c.k, a, b, c.x, c.y);
    AtDistinct(c, Walk(c.n, c.k, a), Walk(c.n, c.k, b));
  }

  /** After `m` steps, the places walked over hold what their sources held. */
  ghost predicate Walked<T>(s0: seq<T>, s: seq<T>, c: Cycle, m: nat) {
    && CycleOk(c) && |s| == |s0| && c.base + Span(c, c.n) <= |s|
    && (forall j :: 0 <= j < m ==> s[WalkAt(c, j)] == s0[WalkAt(c, j + 1)])
    && (forall j :: m <= j < c.n ==> s[WalkAt(c, j)] == s0[WalkAt(c, j)])
    && (forall o :: 0 <= o < |s| && !OnCycle(c, o) ==> s[o] == s0[o])
  }

  lemma WalkOn<T>(s0: seq<T>, s: seq<T>, c: Cycle, m: nat)
    requires Walked(s0, s, c, m) && m + 1 < c.n
    ensures Walked(s0, s[WalkAt(c, m) := s[WalkAt(c, m + 1)]], c, m + 1)
  {
    hide WalkAt;
    var t := s[WalkAt(c, m) := s[WalkAt(c, m + 1)]];
    forall j | 0 <= j < c.n && j != m
      ensures t[WalkAt(c, j)] == s[WalkAt(c, j)]
    {
      if j < m { WalkAtDistinct(c, j, m); } else { WalkAtDistinct(c, m, j); }
    }
  }

  /** The cycle is done: every place of it holds what its source held. */
  ghost predicate CycleDone<T>(s0: seq<T>, s: seq<T>, c: Cycle) {
    && CycleOk(c) && |s| == |s0| && c.base + Span(c, c.n) <= |s|
    && (forall q :: 0 <= q < c.n ==> s[At(c, q)] == s0[At(c, Source(c.n, c.k, q))])
    && (forall o :: 0 <= o < |s| && !OnCycle(c, o) ==> s[o] == s0[o])
  }

  lemma WalkClosed<T>(s0: seq<T>, s: seq<T>, c: Cycle)
    requires c.n > 0 && Walked(s0, s, c, c.n - 1)
    ensures CycleDone(s0, s[WalkAt(c, c.n - 1) := s0[WalkAt(c, 0)]], c)
  {
    var last := c.n - 1;
    var t := s[WalkAt(c, last) := s0[WalkAt(c, 0)]];
    forall q | 0 <= q < c.n
      ensures t[At(c, q)] == s0[At(c, Source(c.n, c.k, q))]
    {
      var m := WalkReaches(c.n, c.k, q, c.x, c.y);
      WalkStep(c.n, c.k, m);
      hide Walk, Source;
      assert At(c, q) == WalkAt(c, m);
      if m < last {
        WalkAtDistinct(c, m, last);
        assert s[WalkAt(c, m)] == s0[WalkAt(c, m + 1)];
      } else {
        WalkHome(c);
      }
    }
  }

  lemma WalkHome(c: Cycle)
    requires CycleOk(c)
    ensures WalkAt(c, c.n) == WalkAt(c, 0)
  {
    ModIs(c.n * c.k, c.n, c.k, 0);
    ModIs(0 * c.k, c.n, 0, 0);
  }

  // ---------- counting the steps up and down ----------

  /** The walk has gone up by `k` and down by `n - k` these many times. */
  ghost predicate Steps(c: Cycle, m: nat, ups: nat, downs: nat) {
    CycleOk(c) && m == ups + downs < c.n && Walk(c.n, c.k, m) == ups * c.k - downs * (c.n - c.k)
  }

  lemma StepsStart(c: Cycle)
    requires CycleOk(c)
    ensures Steps(c, 0, 0, 0) && Walk(c.n, c.k, 0) == 0
  {
    WalkStep(c.n, c.k, 0);
  }

  lemma StepUp(c: Cycle, m: nat, ups: nat, downs: nat)
    requires Steps(c, m, ups, downs) && c.k > 0 && Walk(c.n, c.k, m) < c.n - c.k
    ensures Steps(c, m + 1, ups + 1, downs) && Walk(c.n, c.k, m + 1) == Walk(c.n, c.k, m) + c.k
  {
    WalkStep(c.n, c.k, m);
    WalkEnds(c.n, c.k, m, c.x, c.y);
    assert (ups + 1) * c.k == ups * c.k + c.k;
  }

  lemma StepDown(c: Cycle, m: nat, ups: nat, downs: nat)
    requires Steps(c, m, ups, downs) && c.k > 0 && Walk(c.n, c.k, m) > c.n - c.k
    ensures Steps(c, m + 1, ups, downs + 1) && Walk(c.n, c.k, m + 1) == Walk(c.n, c.k, m) - (c.n - c.k)
  {
    WalkStep(c.n, c.k, m);
    WalkEnds(c.n, c.k, m, c.x, c.y);
    assert (downs + 1) * (c.n - c.k) == downs * (c.n - c.k) + (c.n - c.k);
  }

  /** The walk stands on its last place when all steps but one down are done. */
  lemma StepsEnd(c: Cycle, m: nat, ups: nat, downs: nat)
    requires Steps(c, m, ups, downs) && c.k > 0 && Walk(c.n, c.k, m) == c.n - c.k
    ensures m + 1 == c.n && ups == c.n - c.k && downs == c.k - 1
  {
    WalkEnds(c.n, c.k, m, c.x, c.y);
    var k, l := c.k, c.n - c.k;
    assert downs + 1 == k + l - ups;
    assert ups * k == (downs + 1) * l;
    assert (ups - l) * (k + l) == ups * k + ups * l - l * k - l * l;
    assert (k + l - ups) * l == k * l + l * l - ups * l;
    SmallMultiple(ups - l, k + l, 0);
  }

  lemma AllUpsDone(c: Cycle, m: nat, ups: nat, downs: nat)
    requires Steps(c, m, ups, downs) && 0 < c.k < c.n - c.k == ups
    ensures m + 1 == c.n
  {
    var k, l := c.k, c.n - c.k;
    assert l * k - downs * l == (k - downs) * l;
    assert (k - downs - 1) * l == (k - downs) * l - l;
    Multiple(k - downs - 1, l);
    WalkEnds(c.n, c.k, m, c.x, c.y);
  }

  lemma AllDownsDone(c: Cycle, m: nat, ups: nat, downs: nat)
    requires Steps(c, m, ups, downs) && c.n - c.k < c.k == downs + 1
    ensures m + 1 == c.n
  {
    var k, l := c.k, c.n - c.k;
    assert (l - ups) * k == l * k - ups * k;
    assert (k - 1) * l == k * l - l;
    Multiple(l - ups, k);
  }

  // ---------- following the cycles ----------

  /** `p` points to where the walk stands after `m` steps. */
  ghost predicate Stands<T>(s0: seq<T>, s: seq<T>, c: Cycle, m: nat, ups: nat, downs: nat, p: nat) {
    Steps(c, m, ups, downs) && Walked(s0, s, c, m) && p == WalkAt(c, m)
  }

  lemma StandsStart<T>(s: seq<T>, c: Cycle)
    requires CycleOk(c) && c.base + Span(c, c.n) <= |s|
    ensures Stands(s, s, c, 0, 0, 0, c.base + c.i)
  {
    StepsStart(c);
  }

  /** The comparisons of pointers that decide which way to step. */
  lemma StandsWhere<T>(s0: seq<T>, s: seq<T>, c: Cycle, m: nat, ups: nat, downs: nat, p: nat)
    requires Stands(s0, s, c, m, ups, downs, p)
    ensures var l := Span(c, c.n - c.k);
            && c.base <= p < c.base + Span(c, c.n) <= |s|
            && (p > c.base + c.i + l <==> Walk(c.n, c.k, m) > c.n - c.k)
            && (p < c.base + l <==> Walk(c.n, c.k, m) < c.n - c.k)
  {
    var q, l := Walk(c.n, c.k, m), c.n - c.k;
    assert (q - l) * c.d == c.d * q - c.d * l;
    Multiple(q - l, c.d);
  }

  lemma WalkAtMoves(c: Cycle, m: nat)
    requires CycleOk(c)
    ensures var q, r := Walk(c.n, c.k, m), Walk(c.n, c.k, m + 1);
            && (r == q + c.k ==> WalkAt(c, m + 1) == WalkAt(c, m) + Span(c, c.k))
            && (r == q - (c.n - c.k) ==> WalkAt(c, m + 1) == WalkAt(c, m) - Span(c, c.n - c.k))
            && Span(c, c.n - c.k) >= 0
  {
    var q, l := Walk(c.n, c.k, m), c.n - c.k;
    assert c.d * (q + c.k) == c.d * q + c.d * c.k;
    assert c.d * (q - l) == c.d * q - c.d * l;
    Multiple(l, c.d);
  }

  lemma StandsOut<T>(s0: seq<T>, s: seq<T>, c: Cycle, m: nat, ups: nat, downs: nat, p: nat)
    requires Stands(s0, s, c, m, ups, downs, p)
    ensures CycleOk(c) && m < c.n && 0 <= WalkAt(c, m) < |s| && 0 <= WalkAt(c, m + 1) < |s|
  {
  }

  lemma StandsUp<T>(s0: seq<T>, s: seq<T>, c: Cycle, m: nat, ups: nat, downs: nat, p: nat)
    requires Stands(s0, s, c, m, ups, downs, p) && c.k > 0 && Walk(c.n, c.k, m) < c.n - c.k
    ensures var from := p + Span(c, c.k);
            p < |s| && from < |s| && Stands(s0, s[p := s[from]], c, m + 1, ups + 1, downs, from)
  {
    hide Walked, Walk, WalkAt, Steps, Span, OnCycle;
    StandsOut(s0, s, c, m, ups, downs, p);
    StepUp(c, m, ups, downs);
    WalkAtMoves(c, m);
    WalkOn(s0, s, c, m);
  }

  lemma StandsDown<T>(s0: seq<T>, s: seq<T>, c: Cycle, m: nat, ups: nat, downs: nat, p: nat)
    requires Stands(s0, s, c, m, ups, downs, p) && c.k > 0 && Walk(c.n, c.k, m) > c.n - c.k
    ensures var from := p - Span(c, c.n - c.k);
            0 <= from <= p < |s| && Stands(s0, s[p := s[from]], c, m + 1, ups, downs + 1, from)
  {
    hide Walked, Walk, WalkAt, Steps, Span, OnCycle;
    StandsOut(s0, s, c, m, ups, downs, p);
    StepDown(c, m, ups, downs);
    WalkAtMoves(c, m);
    WalkOn(s0, s, c, m);
  }

  /** The lengths in elements and in places. */
  lemma Lengths(c: Cycle, k: nat, l: nat)
    requires CycleOk(c) && k == Span(c, c.k) && l == Span(c, c.n - c.k)
    ensures Span(c, c.n) == k + l && k / c.d == c.k && l / c.d == c.n - c.k && 0 < c.i + 1 <= c.d <= Span(c, c.n)
    ensures (c.k == 0 <==> k == 0) && (k < l <==> c.k < c.n - c.k) && (k == 0 ==> c.n == 1)
  {
    var d, K, L := c.d, c.k, c.n - c.k;
    SpansOf(d, K, L);
    if K == 0 {
      AloneInCycle(c);
    }
  }

  lemma SpansOf(d: nat, K: nat, L: nat)
    requires d > 0
    ensures d * (K + L) == d * K + d * L && d * K / d == K && d * L / d == L
    ensures (K == 0 <==> d * K == 0) && (d * K < d * L <==> K < L) && (K + L > 0 ==> d <= d * (K + L))
  {
    Quotient(d * K, d, K);
    Quotient(d * L, d, L);
    Multiple(K + L, d);
    Multiple(K, d);
    assert (L - K) * d == d * L - d * K;
    Multiple(L - K, d);
  }

  lemma AloneInCycle(c: Cycle)
    requires CycleOk(c) && c.k == 0
    ensures c.n == 1
  {
    assert c.x * c.n == 1;
    SmallMultiple(c.x - 1, c.n, 1 - c.n);
  }

  lemma Quotient(a: nat, d: nat, q: nat)
    requires d > 0 && a == q * d
    ensures a / d == q
  {
    DivMod(a, d);
    assert (a / d - q) * d == (a / d) * d - q * d;
    SmallMultiple(a / d - q, d, -(a % d));
  }

  /** `*p = *(p + k); p += k`. When `k` is zero this changes nothing. */
  method StepForward<T>(a: array<T>, p: nat, k: nat, ghost s: seq<T>, ghost c: Cycle, ghost m: nat, ghost ups: nat,
                        ghost downs: nat)
    returns (q: nat)
    requires Stands(s, a[..], c, m, ups, downs, p) && k == Span(c, c.k) && (k == 0 <==> c.k == 0)
    requires k > 0 ==> Walk(c.n, c.k, m) < c.n - c.k
    modifies a
    ensures k == 0 ==> a[..] == old(a[..]) && q == p
    ensures k > 0 ==> Stands(s, a[..], c, m + 1, ups + 1, downs, q)
    ensures k > 0 ==> Walk(c.n, c.k, m + 1) == Walk(c.n, c.k, m) + c.k
  {
    hide Stands, Walk;
    StandsWhere(s, a[..], c, m, ups, downs, p);
    ghost var t := a[..];
    if k > 0 {
      StandsUp(s, t, c, m, ups, downs, p);
      StandsWalk(s, t, c, m, ups, downs, p);
    }
    a[p] := a[p + k];
    assert a[..] == t[p := t[p + k]];
    q := p + k;
  }

  lemma StandsWalk<T>(s0: seq<T>, s: seq<T>, c: Cycle, m: nat, ups: nat, downs: nat, p: nat)
    requires Stands(s0, s, c, m, ups, downs, p)
    ensures c.n > 0 && c.k <= c.n && Walk(c.n, c.k, m) < c.n
    ensures Walk(c.n, c.k, m + 1) == Source(c.n, c.k, Walk(c.n, c.k, m))
  {
    WalkStep(c.n, c.k, m);
  }

  /** `*p = *(p - l); p -= l`. */
  method StepBack<T>(a: array<T>, p: nat, l: nat, ghost s: seq<T>, ghost c: Cycle, ghost m: nat, ghost ups: nat,
                     ghost downs: nat)
    returns (q: nat)
    requires Stands(s, a[..], c, m, ups, downs, p) && c.k > 0 && l == Span(c, c.n - c.k)
    requires Walk(c.n, c.k, m) > c.n - c.k
    modifies a
    ensures Stands(s, a[..], c, m + 1, ups, downs + 1, q)
    ensures Walk(c.n, c.k, m + 1) == Walk(c.n, c.k, m) - (c.n - c.k)
  {
    hide Stands, Walk;
    ghost var t := a[..];
    StandsDown(s, t, c, m, ups, downs, p);
    StandsWalk(s, t, c, m, ups, downs, p);
    a[p] := a[p - l];
    assert a[..] == t[p := t[p - l]];
    q := p - l;
  }

  /** Before all steps up are done, or all but one down, the walk is not on its last place. */
  lemma NotOnLast<T>(s0: seq<T>, s: seq<T>, c: Cycle, m: nat, ups: nat, downs: nat, p: nat)
    requires Stands(s0, s, c, m, ups, downs, p) && c.k > 0 && (ups < c.n - c.k || downs < c.k - 1)
    ensures Walk(c.n, c.k, m) != c.n - c.k
  {
    if Walk(c.n, c.k, m) == c.n - c.k {
      StepsEnd(c, m, ups, downs);
    }
  }

  /** After them, it is. */
  lemma OnLast<T>(s0: seq<T>, s: seq<T>, c: Cycle, m: nat, ups: nat, downs: nat, p: nat)
    requires Stands(s0, s, c, m, ups, downs, p) && c.n > 0
    requires if c.k == 0 then c.n == 1 && m == 0
             else if c.k < c.n - c.k then ups == c.n - c.k
             else c.n - c.k < c.k && downs == c.k - 1
    ensures p < |s| && |s| == |s0| && WalkAt(c, 0) < |s| && CycleDone(s0, s[p := s0[WalkAt(c, 0)]], c)
  {
    if c.k > 0 {
      if c.k < c.n - c.k {
        AllUpsDone(c, m, ups, downs);
      } else {
        AllDownsDone(c, m, ups, downs);
      }
    }
    WalkClosed(s0, s, c);
  }

  lemma WalkFrom(c: Cycle)
    requires CycleOk(c)
    ensures WalkAt(c, 0) == c.base + c.i
  {
    StepsStart(c);
  }

  /** The body of the outer loop, for the cycle that starts at `first`. */
  method FollowCycle<T>(a: array<T>, first: nat, last: nat, k: nat, l: nat, d: nat, ghost c: Cycle)
    requires CycleOk(c) && first == c.base + c.i && last == c.base + d * c.n <= a.Length && d == c.d
    requires k == d * c.k && l == d * (c.n - c.k) && k != l
    modifies a
    ensures CycleDone(old(a[..]), a[..], c)
  {
    hide CycleOk, CycleDone, Stands, Walk, WalkAt, Walked;
    Lengths(c, k, l);
    ghost var s := a[..];
    ghost var m, ups, downs := 0, 0, 0;
    StandsStart(s, c);
    WalkFrom(c);
    var tmp := a[first];
    var p: nat := first;
    if k < l {
      for j := 0 to l / d
        invariant Stands(s, a[..], c, m, ups, downs, p)
        invariant if c.k == 0 then m == 0 else ups == j
      {
        StandsWhere(s, a[..], c, m, ups, downs, p);
        StandsWalk(s, a[..], c, m, ups, downs, p);
        if c.k > 0 { NotOnLast(s, a[..], c, m, ups, downs, p); }
        if p > first + l {
          p := StepBack(a, p, l, s, c, m, ups, downs);
          m, downs := m + 1, downs + 1;
        }
        p := StepForward(a, p, k, s, c, m, ups, downs);
        if k > 0 { m, ups := m + 1, ups + 1; }
      }
    } else {
      for j := 0 to k / d - 1
        invariant Stands(s, a[..], c, m, ups, downs, p) && downs == j
      {
        StandsWhere(s, a[..], c, m, ups, downs, p);
        NotOnLast(s, a[..], c, m, ups, downs, p);
        if p < last - k {
          p := StepForward(a, p, k, s, c, m, ups, downs);
          m, ups := m + 1, ups + 1;
        }
        p := StepBack(a, p, l, s, c, m, ups, downs);
        m, downs := m + 1, downs + 1;
      }
    }
    OnLast(s, a[..], c, m, ups, downs, p);
    ghost var t := a[..];
    a[p] := tmp;
    assert a[..] == t[p := tmp];
  }

  // ---------- all the cycles ----------

  /** What stands at a place of the range when the cycles of the residues below `i` are done. */
  ghost predicate CycleCell<T>(s0: seq<T>, s: seq<T>, base: nat, n: nat, k: nat, d: nat, i: nat, o: int)
    requires base + n <= |s| == |s0| && k <= n && base <= o < base + n
  {
    s[o] == if Rem(o - base, d) < i then s0[base + Source(n, k, o - base)] else s0[o]
  }

  /** The cycles of the residues below `i` are done, the others untouched. */
  ghost predicate CyclesDone<T>(s0: seq<T>, s: seq<T>, base: nat, n: nat, k: nat, d: nat, i: nat) {
    && |s| == |s0| && base + n <= |s| && 0 < d && k <= n
    && (forall o :: base <= o < base + n ==> CycleCell(s0, s, base, n, k, d, i, o))
    && (forall o :: 0 <= o < |s| && !(base <= o < base + n) ==> s[o] == s0[o])
  }

  /** The place and the source of an offset. */
  lemma OffsetAt(c: Cycle, o: nat, n: nat, k: nat) returns (q: nat)
    requires CycleOk(c) && o < n && Rem(o, c.d) == c.i && k <= n && n == Span(c, c.n) && k == Span(c, c.k)
    ensures q < c.n && At(c, q) == c.base + o
    ensures At(c, Source(c.n, c.k, q)) == c.base + Source(n, k, o)
  {
    q := o / c.d;
    DivMod(o, c.d);
    assert o == c.d * q + c.i;
    assert c.d * c.n - c.d * q == (c.n - q) * c.d;
    Multiple(c.n - q, c.d);
    var l := c.n - c.k;
    assert c.d * c.n - c.d * c.k == c.d * l;
    assert (l - q) * c.d == c.d * l - c.d * q;
    Multiple(l - q, c.d);
    assert c.d * (q + c.k) == c.d * q + c.d * c.k;
    assert c.d * (q - l) == c.d * q - c.d * l;
  }

  lemma CyclesAt<T>(s0: seq<T>, s: seq<T>, base: nat, n: nat, k: nat, d: nat, i: nat, o: nat)
    requires CyclesDone(s0, s, base, n, k, d, i) && o < n
    ensures k <= n && base + o < |s| == |s0| && base + Source(n, k, o) < |s|
    ensures s[base + o] == if Rem(o, d) < i then s0[base + Source(n, k, o)] else s0[base + o]
  {
    hide Rem, Source;
    assert CycleCell(s0, s, base, n, k, d, i, base + o);
    assert base + o - base == o;
  }

  lemma CycleAt<T>(s: seq<T>, t: seq<T>, c: Cycle, q: nat, o: nat)
    requires CycleDone(s, t, c)
    ensures |s| == |t| && CycleOk(c)
    ensures q < c.n ==>
      At(c, q) < |s| && At(c, Source(c.n, c.k, q)) < |s| && t[At(c, q)] == s[At(c, Source(c.n, c.k, q))]
    ensures q < c.n ==> OnCycle(c, At(c, Source(c.n, c.k, q)))
    ensures o < |t| && !OnCycle(c, o) ==> t[o] == s[o]
  {
  }

  lemma CyclesStepAt<T>(s0: seq<T>, s: seq<T>, t: seq<T>, n: nat, k: nat, c: Cycle, o: nat)
    requires n == Span(c, c.n) && k == Span(c, c.k) && k <= n && o < n
    requires CyclesDone(s0, s, c.base, n, k, c.d, c.i) && CycleDone(s, t, c)
    ensures c.base + n <= |t| == |s0|
    ensures t[c.base + o] == if Rem(o, c.d) < c.i + 1 then s0[c.base + Source(n, k, o)] else s0[c.base + o]
  {
    hide At, Source, Rem, Span, CyclesDone, CycleDone;
    CycleAt(s, t, c, 0, c.base + o);
    CyclesAt(s0, s, c.base, n, k, c.d, c.i, n - 1);
    CyclesAt(s0, s, c.base, n, k, c.d, c.i, o);
    if Rem(o, c.d) == c.i {
      var q := OffsetAt(c, o, n, k);
      CycleAt(s, t, c, q, 0);
      CyclesAt(s0, s, c.base, n, k, c.d, c.i, Source(n, k, o));
    }
  }

  lemma CyclesStep<T>(s0: seq<T>, s: seq<T>, t: seq<T>, n: nat, k: nat, c: Cycle)
    requires n == Span(c, c.n) && k == Span(c, c.k) && k <= n
    requires CyclesDone(s0, s, c.base, n, k, c.d, c.i) && CycleDone(s, t, c)
    ensures CyclesDone(s0, t, c.base, n, k, c.d, c.i + 1)
  {
    hide At, Source, Rem, Span, CycleDone;
    CyclesStepOutside(s0, s, t, n, k, c);
    var base, d, i := c.base, c.d, c.i + 1;
    forall o | base <= o < base + n
      ensures CycleCell(s0, t, base, n, k, d, i, o)
    {
      CyclesStepAt(s0, s, t, n, k, c, o - c.base);
    }
  }

  lemma CyclesStepOutside<T>(s0: seq<T>, s: seq<T>, t: seq<T>, n: nat, k: nat, c: Cycle)
    requires n == Span(c, c.n) && CyclesDone(s0, s, c.base, n, k, c.d, c.i) && CycleDone(s, t, c)
    ensures |t| == |s0| && c.base + n <= |t| && 0 < c.d && k <= n
    ensures forall o :: 0 <= o < |t| && !(c.base <= o < c.base + n) ==> t[o] == s0[o]
  {
    hide At, Source, Rem, Span;
    forall o | 0 <= o < |t| && !(c.base <= o < c.base + n)
      ensures t[o] == s0[o]
    {
      assert !OnCycle(c, o);
    }
  }

  lemma AllCyclesDone<T>(s0: seq<T>, s: seq<T>, base: nat, n: nat, k: nat, d: nat)
    requires CyclesDone(s0, s, base, n, k, d, d)
    ensures s == Rotated(s0, base, base + k, base + n)
  {
    var r := Rotated(s0, base, base + k, base + n);
    forall o | 0 <= o < |s|
      ensures s[o] == r[o]
    {
      if base <= o < base + n {
        assert CycleCell(s0, s, base, n, k, d, d, o);
      }
    }
  }

  /** Two adjacent ranges of length `h`, exchanged up to `i`. */
  ghost function PartlySwapped<T>(s: seq<T>, first: nat, i: nat, h: nat): seq<T>
    requires first <= i <= first + h && first + 2 * h <= |s|
  {
    s[..first] + s[first + h..i + h] + s[i..first + h] + s[first..i] + s[i + h..]
  }

  lemma PartlySwappedStep<T>(s: seq<T>, first: nat, i: nat, h: nat)
    requires first <= i < first + h && first + 2 * h <= |s|
    ensures PartlySwapped(s, first, i + 1, h) == Swapped(PartlySwapped(s, first, i, h), i, i + h)
  {
    var p, q := PartlySwapped(s, first, i, h), PartlySwapped(s, first, i + 1, h);
    forall k | 0 <= k < |s|
      ensures q[k] == if k == i then p[i + h] else if k == i + h then p[i] else p[k]
    {
      PartlySwappedAt(s, first, i, h, k);
      PartlySwappedAt(s, first, i + 1, h, k);
      PartlySwappedAt(s, first, i, h, i);
      PartlySwappedAt(s, first, i, h, i + h);
    }
  }

  lemma PartlySwappedAt<T>(s: seq<T>, first: nat, i: nat, h: nat, k: nat)
    requires first <= i <= first + h && first + 2 * h <= |s| && k < |s|
    ensures var p := PartlySwapped(s, first, i, h);
            |p| == |s| && p[k] == if first <= k < i then s[k + h] else if first + h <= k < i + h then s[k - h] else s[k]
  {
  }

  lemma PartlySwappedEnds<T>(s: seq<T>, first: nat, h: nat)
    requires first + 2 * h <= |s|
    ensures PartlySwapped(s, first, first, h) == s
    ensures PartlySwapped(s, first, first + h, h) == Rotated(s, first, first + h, first + 2 * h)
  {
  }

  /** `swap_ranges` of two adjacent ranges of the same length. */
  method SwapRanges<T>(a: array<T>, first: nat, mid: nat, last: nat)
    requires first <= mid <= last <= a.Length && mid - first == last - mid
    modifies a
    ensures a[..] == old(Rotated(a[..], first, mid, last))
  {
    hide PartlySwapped, Rotated, Swapped;
    ghost var s, h := a[..], mid - first;
    PartlySwappedEnds(s, first, h);
    for i := first to mid
      invariant a[..] == PartlySwapped(s, first, i, h)
    {
      PartlySwappedStep(s, first, i, h);
      IterSwap(a, i, i + (mid - first));
    }
  }

  /** `__rotate` over random access iterators. */
  method RotateByCycles<T>(a: array<T>, lo: nat, mid: nat, hi: nat) returns (newMiddle: nat)
    requires lo <= mid <= hi <= a.Length
    modifies a
    ensures a[..] == old(Rotated(a[..], lo, mid, hi)) && newMiddle == lo + (hi - mid)
  {
    hide CyclesDone, CycleDone, CycleOk, Rotated;
    ghost var s := a[..];
    var n, k := hi - lo, mid - lo;
    var l := n - k;
    newMiddle := lo + (hi - mid);
    if k == l {
      SwapRanges(a, lo, mid, hi);
      return;
    }
    var d; ghost var N, K, x, y;
    d, N, K, x, y := Gcd(n, k);
    Quotients(d, n, k, N, K, x, y);
    NoCycleDone(s, lo, n, k, d);
    var first := lo;
    for i := 0 to d
      invariant first == lo + i && CyclesDone(s, a[..], lo, n, k, d, i)
    {
      ghost var c := Cycle(lo, i, d, N, K, x, y);
      CycleFits(c, n, k);
      ghost var t := a[..];
      FollowCycle(a, first, hi, k, l, d, c);
      CyclesStep(s, t, a[..], n, k, c);
      first := first + 1;
    }
    AllCyclesDone(s, a[..], lo, n, k, d);
  }

  lemma NoCycleDone<T>(s: seq<T>, base: nat, n: nat, k: nat, d: nat)
    requires base + n <= |s| && 0 < d && k <= n
    ensures CyclesDone(s, s, base, n, k, d, 0)
  {
  }

  lemma CycleFits(c: Cycle, n: nat, k: nat)
    requires c.i < c.d && Coprime(c.n, c.k, c.x, c.y) && n == c.n * c.d && k == c.k * c.d && k <= n
    ensures CycleOk(c) && n == Span(c, c.n) && k == Span(c, c.k) && n - k == Span(c, c.n - c.k)
  {
    assert (c.k - c.n) * c.d == k - n;
    Multiple(c.k - c.n, c.d);
    assert c.d * (c.n - c.k) == c.d * c.n - c.d * c.k;
  }
}
