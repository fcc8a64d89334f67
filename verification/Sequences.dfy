/** Distinct elements, and sequences laid end to end. */
module Sequences {

  ghost predicate Distinct<T>(s: seq<T>) {
    forall i, j :: 0 <= i < j < |s| ==> s[i] != s[j]
  }

  /** The rows of `rows` laid end to end. */
  ghost function Flat<T>(rows: seq<seq<T>>): seq<T> {
    if rows == [] then [] else Flat(rows[..|rows| - 1]) + rows[|rows| - 1]
  }

  lemma FlatMore<T>(x: seq<seq<T>>, s: seq<T>)
    ensures Flat(x + [s]) == Flat(x) + s
  {
    assert (x + [s])[..|x|] == x;
  }

  lemma {:induction false} FlatConcat<T>(x: seq<seq<T>>, y: seq<seq<T>>)
    ensures Flat(x + y) == Flat(x) + Flat(y)
    decreases |y|
  {
    if y == [] {
      assert x + y == x;
    } else {
      hide Flat;
      var r, s := y[..|y| - 1], y[|y| - 1];
      FlatConcat(x, r);
      assert y == r + [s] && x + y == (x + r) + [s];
      FlatMore(x + r, s);
      FlatMore(r, s);
      assert Flat(x) + Flat(r) + s == Flat(x) + (Flat(r) + s);
    }
  }

  lemma FlatStep<T>(rows: seq<seq<T>>, b: nat)
    requires b < |rows|
    ensures Flat(rows[..b + 1]) == Flat(rows[..b]) + rows[b]
  {
    assert rows[..b + 1][..b] == rows[..b];
  }

  lemma FlatParts<T>(rows: seq<seq<T>>, b: nat)
    requires b < |rows|
    ensures Flat(rows) == Flat(rows[..b]) + rows[b] + Flat(rows[b + 1..])
    ensures Flat(rows[..b + 1]) == Flat(rows[..b]) + rows[b]
  {
    hide Flat;
    FlatStep(rows, b);
    FlatConcat(rows[..b + 1], rows[b + 1..]);
    Halves(rows, b + 1);
  }

  lemma Halves<T>(s: seq<T>, k: nat)
    requires k <= |s|
    ensures s[..k] + s[k..] == s
  {
  }

  lemma PrefixShorter<T>(rows: seq<seq<T>>, b: nat)
    requires b <= |rows|
    ensures |Flat(rows[..b])| <= |Flat(rows)|
  {
    FlatConcat(rows[..b], rows[b..]);
    assert rows[..b] + rows[b..] == rows;
  }
}
