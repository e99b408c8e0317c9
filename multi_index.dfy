/**
 * Row-major cell numbering of a multi-dimensional binning: np.ravel_multi_index and
 * np.unravel_index, with the last axis varying fastest.
 */
module MultiIndex {

  /** np.prod(shape): the number of cells. */
  function Prod(shape: seq<nat>): nat {
    if |shape| == 0 then 1 else Prod(shape[..|shape| - 1]) * shape[|shape| - 1]
  }

  /** Every coordinate lies inside its axis. */
  predicate InShape(idx: seq<nat>, shape: seq<nat>) {
    |idx| == |shape| && forall a :: 0 <= a < |idx| ==> idx[a] < shape[a]
  }

  /** np.ravel_multi_index(idx, shape). */
  function Ravel(idx: seq<nat>, shape: seq<nat>): (r: nat)
    requires InShape(idx, shape)
    ensures r < Prod(shape)
  {
    if |shape| == 0 then 0
    else
      var n := |shape| - 1;
      var q := Ravel(idx[..n], shape[..n]);
      RavelStep(q, Prod(shape[..n]), idx[n], shape[n]);
      q * shape[n] + idx[n]
  }

  /** np.unravel_index(c, shape). */
  function Unravel(c: nat, shape: seq<nat>): (r: seq<nat>)
    requires c < Prod(shape)
    ensures InShape(r, shape)
    decreases |shape|
  {
    if |shape| == 0 then []
    else
      var n := |shape| - 1;
      var p, s := Prod(shape[..n]), shape[n];
      assert Prod(shape) == p * s;
      UnravelStep(c, p, s);
      var q, i := c / s, c % s;
      assert i < s;
      var front := Unravel(q, shape[..n]);
      InShapeSnoc(front, shape[..n], i, s);
      assert shape[..n] + [s] == shape;
      front + [i]
  }

  lemma InShapeSnoc(idx: seq<nat>, shape: seq<nat>, i: nat, s: nat)
    requires InShape(idx, shape) && i < s
    ensures InShape(idx + [i], shape + [s])
  {
  }

  lemma RavelStep(q: nat, p: nat, i: nat, s: nat)
    requires q < p && i < s
    ensures q * s + i < p * s
  {
    assert q * s <= (p - 1) * s;
  }

  lemma UnravelStep(c: nat, p: nat, s: nat)
    requires c < p * s
    ensures s > 0 && c / s < p
  {
  }

  lemma DivModOf(q: nat, s: nat, i: nat)
    requires i < s
    ensures (q * s + i) / s == q && (q * s + i) % s == i
  {
    var c := q * s + i;
    var d, m := c / s, c % s;
    assert c == d * s + m;
    assert (d - q) * s == i - m;
    MulAwayFromZero(d - q, s);
  }

  lemma MulAwayFromZero(k: int, s: nat)
    ensures k >= 1 ==> k * s >= s
    ensures k <= -1 ==> k * s + s <= 0
  {
  }

  /** Unravelling a raveled coordinate gives the coordinate back. */
  lemma {:induction false} UnravelRavel(idx: seq<nat>, shape: seq<nat>)
    requires InShape(idx, shape)
    ensures Unravel(Ravel(idx, shape), shape) == idx
  {
    if |shape| > 0 {
      var n := |shape| - 1;
      var q := Ravel(idx[..n], shape[..n]);
      DivModOf(q, shape[n], idx[n]);
      UnravelRavel(idx[..n], shape[..n]);
      assert idx == idx[..n] + [idx[n]];
    }
  }

  /** Ravelling an unravelled cell number gives the cell number back. */
  lemma {:induction false} RavelUnravel(c: nat, shape: seq<nat>)
    requires c < Prod(shape)
    ensures Ravel(Unravel(c, shape), shape) == c
    decreases |shape|
  {
    if |shape| > 0 {
      var n := |shape| - 1;
      UnravelStep(c, Prod(shape[..n]), shape[n]);
      var u := Unravel(c, shape);
      var w := Unravel(c / shape[n], shape[..n]);
      assert u == w + [c % shape[n]];
      assert u[..n] == w;
      RavelUnravel(c / shape[n], shape[..n]);
      assert Ravel(u, shape) == (c / shape[n]) * shape[n] + c % shape[n];
      DivModSplit(c, shape[n]);
    }
  }

  lemma DivModSplit(c: nat, s: nat)
    requires s > 0
    ensures (c / s) * s + c % s == c
  {
  }

  /** Distinct cells have distinct coordinates. */
  lemma UnravelInjective(c: nat, d: nat, shape: seq<nat>)
    requires c < Prod(shape) && d < Prod(shape) && Unravel(c, shape) == Unravel(d, shape)
    ensures c == d
  {
    RavelUnravel(c, shape);
    RavelUnravel(d, shape);
  }
}
