/**
 Index vectors: one position per dimension, the state of the odometer in
 generators.py (`grab`). Position 0 is the most significant.
 */
module IndexVectors {

  /** `v` selects one element of every dimension whose length is given by `lens`. */
  predicate InBounds(v: seq<nat>, lens: seq<nat>)
  {
    |v| == |lens| && forall i :: 0 <= i < |v| ==> v[i] < lens[i]
  }

  /** The all-zeros vector the odometer starts from. */
  function Zeros(n: nat): seq<nat>
  {
    seq(n, _ => 0)
  }

  /** Every position holds the last index of its dimension. */
  predicate IsMax(v: seq<nat>, lens: seq<nat>)
  {
    |v| == |lens| && forall i :: 0 <= i < |v| ==> v[i] + 1 == lens[i]
  }

  /** Strict lexicographic order, position 0 compared first. */
  predicate LexLess(v: seq<nat>, w: seq<nat>)
  {
    |v| == |w| && exists i :: 0 <= i < |v| && v[..i] == w[..i] && v[i] < w[i]
  }

  /** Appending one least-significant position refines the order on the prefixes. */
  lemma LexAppend(a: seq<nat>, b: seq<nat>, x: nat, y: nat)
    requires |a| == |b|
    ensures LexLess(a + [x], b + [y]) <==> LexLess(a, b) || (a == b && x < y)
  {
    var v, w := a + [x], b + [y];
    if LexLess(v, w) {
      var i :| 0 <= i < |v| && v[..i] == w[..i] && v[i] < w[i];
      if i < |a| {
        assert v[..i] == a[..i] && w[..i] == b[..i];
        assert LexLess(a, b);
      } else {
        assert v[..i] == a && w[..i] == b;
      }
    }
    if LexLess(a, b) {
      var i :| 0 <= i < |a| && a[..i] == b[..i] && a[i] < b[i];
      assert v[..i] == a[..i] && w[..i] == b[..i];
      assert v[i] < w[i];
    }
    if a == b && x < y {
      assert v[..|a|] == a && w[..|a|] == b;
      assert v[|a|] < w[|a|];
    }
  }

  lemma LexTransitive(u: seq<nat>, v: seq<nat>, w: seq<nat>)
    requires LexLess(u, v) && LexLess(v, w)
    ensures LexLess(u, w)
  {
    var i :| 0 <= i < |u| && u[..i] == v[..i] && u[i] < v[i];
    var j :| 0 <= j < |v| && v[..j] == w[..j] && v[j] < w[j];
    if i <= j {
      assert v[..j][..i] == v[..i] && w[..j][..i] == w[..i];
      assert u[..i] == w[..i] && u[i] < w[i];
    } else {
      assert u[..i][..j] == u[..j] && v[..i][..j] == v[..j];
      assert u[..j] == w[..j] && u[j] < w[j];
    }
  }

  /** Any two vectors of the same length are equal or ordered one way or the other. */
  lemma {:induction false} LexTotal(v: seq<nat>, w: seq<nat>)
    requires |v| == |w|
    ensures v == w || LexLess(v, w) || LexLess(w, v)
    decreases |v|
  {
    if |v| == 0 {
      assert v == w;
    } else if v[0] != w[0] {
      assert v[..0] == w[..0];
      assert v[0] < w[0] || w[0] < v[0];
    } else {
      LexTotal(v[1..], w[1..]);
      if v[1..] == w[1..] {
        assert v == [v[0]] + v[1..] && w == [w[0]] + w[1..];
      } else if LexLess(v[1..], w[1..]) {
        LexShift(v, w);
      } else {
        LexShift(w, v);
      }
    }
  }

  /** A common first position does not change the order. */
  lemma LexShift(v: seq<nat>, w: seq<nat>)
    requires |v| == |w| > 0 && v[0] == w[0]
    requires LexLess(v[1..], w[1..])
    ensures LexLess(v, w)
  {
    var i :| 0 <= i < |v| - 1 && v[1..][..i] == w[1..][..i] && v[1..][i] < w[1..][i];
    assert v[..i + 1] == [v[0]] + v[1..][..i];
    assert w[..i + 1] == [w[0]] + w[1..][..i];
    assert v[i + 1] < w[i + 1];
  }
}
