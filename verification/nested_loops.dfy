/**
 The reference the generator is measured against: the index vectors that
 nested for loops over the dimensions visit, outermost loop first, and
 their number.
 */
module NestedLoops {
  import opened Optional
  import opened IndexVectors
  import opened Odometer

  /** The number of combinations: the product of the dimension lengths. */
  function Product(lens: seq<nat>): nat
  {
    if |lens| == 0 then 1 else Product(lens[..|lens| - 1]) * lens[|lens| - 1]
  }

  /** The innermost loop: `v` followed by each index of a dimension of length `m`. */
  function Row(v: seq<nat>, m: nat): seq<seq<nat>>
  {
    seq(m, j requires 0 <= j < m => v + [j])
  }

  /** For each vector of the outer loops in turn, run the innermost loop. */
  function Extend(vs: seq<seq<nat>>, m: nat): seq<seq<nat>>
  {
    if |vs| == 0 then [] else Row(vs[0], m) + Extend(vs[1..], m)
  }

  /** Every index vector, in the order nested for loops produce them. */
  function Combinations(lens: seq<nat>): seq<seq<nat>>
  {
    if |lens| == 0 then [[]]
    else Extend(Combinations(lens[..|lens| - 1]), lens[|lens| - 1])
  }

  /** `Step` leads from each vector of P to the next, all of them in bounds. */
  predicate Steps(P: seq<seq<nat>>, lens: seq<nat>)
  {
    && (forall k :: 0 <= k < |P| ==> InBounds(P[k], lens))
    && (forall k :: 0 <= k < |P| - 1 ==> Step(P[k], lens) == Some(P[k + 1]))
  }

  /** Step-chained: starting at P[0], `Step` visits P in order and then stops. */
  predicate Chained(P: seq<seq<nat>>, lens: seq<nat>)
  {
    |P| > 0 && Steps(P, lens) && Step(P[|P| - 1], lens) == None
  }

  lemma {:induction false} ExtendLength(vs: seq<seq<nat>>, m: nat)
    ensures |Extend(vs, m)| == |vs| * m
    decreases |vs|
  {
    if |vs| > 0 {
      ExtendLength(vs[1..], m);
      assert |vs| * m == m + (|vs| - 1) * m;
    }
  }

  /** There are exactly Product(lens) combinations. */
  lemma {:induction false} CombinationsLength(lens: seq<nat>)
    ensures |Combinations(lens)| == Product(lens)
    decreases |lens|
  {
    if |lens| > 0 {
      var n := |lens| - 1;
      CombinationsLength(lens[..n]);
      ExtendLength(Combinations(lens[..n]), lens[n]);
    }
  }

  /** The product is zero exactly when some dimension is empty. */
  lemma {:induction false} ProductZero(lens: seq<nat>)
    ensures Product(lens) == 0 <==> exists i :: 0 <= i < |lens| && lens[i] == 0
    decreases |lens|
  {
    if |lens| > 0 {
      var n := |lens| - 1;
      ProductZero(lens[..n]);
      if exists i :: 0 <= i < n && lens[..n][i] == 0 {
        var i :| 0 <= i < n && lens[..n][i] == 0;
        assert lens[i] == 0;
      }
      if exists i :: 0 <= i < |lens| && lens[i] == 0 {
        var i :| 0 <= i < |lens| && lens[i] == 0;
        if i < n {
          assert lens[..n][i] == 0;
        }
      }
    }
  }

  lemma {:induction false} ExtendInBounds(vs: seq<seq<nat>>, lens: seq<nat>, m: nat)
    requires forall k :: 0 <= k < |vs| ==> InBounds(vs[k], lens)
    ensures forall k :: 0 <= k < |Extend(vs, m)| ==> InBounds(Extend(vs, m)[k], lens + [m])
    decreases |vs|
  {
    if |vs| > 0 {
      ExtendInBounds(vs[1..], lens, m);
      var R, E := Row(vs[0], m), Extend(vs[1..], m);
      forall k | 0 <= k < |R + E|
        ensures InBounds((R + E)[k], lens + [m])
      {
        if k < |R| {
          assert (R + E)[k] == vs[0] + [k];
        } else {
          assert (R + E)[k] == E[k - |R|];
        }
      }
    }
  }

  /** Every combination selects a valid element of every dimension. */
  lemma {:induction false} CombinationsInBounds(lens: seq<nat>)
    ensures forall k :: 0 <= k < |Combinations(lens)| ==> InBounds(Combinations(lens)[k], lens)
    decreases |lens|
  {
    if |lens| > 0 {
      var n := |lens| - 1;
      CombinationsInBounds(lens[..n]);
      ExtendInBounds(Combinations(lens[..n]), lens[..n], lens[n]);
      assert lens[..n] + [lens[n]] == lens;
    }
  }

  lemma {:induction false} ExtendContains(vs: seq<seq<nat>>, a: seq<nat>, x: nat, m: nat)
    requires a in vs && x < m
    ensures a + [x] in Extend(vs, m)
    decreases |vs|
  {
    if vs[0] == a {
      assert Row(a, m)[x] == a + [x];
    } else {
      ExtendContains(vs[1..], a, x, m);
    }
  }

  /** Every in-bounds index vector is one of the combinations. */
  lemma {:induction false} CombinationsComplete(v: seq<nat>, lens: seq<nat>)
    requires InBounds(v, lens)
    ensures v in Combinations(lens)
    decreases |lens|
  {
    if |lens| > 0 {
      var n := |lens| - 1;
      assert InBounds(v[..n], lens[..n]);
      CombinationsComplete(v[..n], lens[..n]);
      ExtendContains(Combinations(lens[..n]), v[..n], v[n], lens[n]);
      assert v[..n] + [v[n]] == v;
    }
  }

  /** Two step runs joined by one step form a single run. */
  lemma StepsConcat(R: seq<seq<nat>>, E: seq<seq<nat>>, lens: seq<nat>)
    requires Steps(R, lens) && Steps(E, lens) && |R| > 0 && |E| > 0
    requires Step(R[|R| - 1], lens) == Some(E[0])
    ensures Steps(R + E, lens)
  {
    var P := R + E;
    forall k | 0 <= k < |P|
      ensures InBounds(P[k], lens)
    {
      if k >= |R| {
        assert P[k] == E[k - |R|];
      }
    }
    forall k | 0 <= k < |P| - 1
      ensures Step(P[k], lens) == Some(P[k + 1])
    {
      if k >= |R| {
        assert P[k] == E[k - |R|] && P[k + 1] == E[k + 1 - |R|];
      } else if k == |R| - 1 {
        assert P[k + 1] == E[0];
      }
    }
  }

  /** The innermost loop is a run of steps; its end carries into the outer loops. */
  lemma RowSteps(v: seq<nat>, lens: seq<nat>, m: nat)
    requires InBounds(v, lens) && m > 0
    ensures Steps(Row(v, m), lens + [m])
    ensures Step(v + [m - 1], lens + [m]) ==
      match Step(v, lens)
      case None => None
      case Some(w) => Some(w + [0])
  {
    var R, L := Row(v, m), lens + [m];
    forall j | 0 <= j < m
      ensures InBounds(R[j], L)
      ensures j + 1 < m ==> Step(R[j], L) == Some(R[j + 1])
    {
      StepAppend(v, j, lens, m);
    }
    StepAppend(v, m - 1, lens, m);
  }

  lemma {:induction false} ExtendChained(vs: seq<seq<nat>>, lens: seq<nat>, m: nat)
    requires Chained(vs, lens) && m > 0
    ensures Chained(Extend(vs, m), lens + [m])
    ensures Extend(vs, m)[0] == vs[0] + [0]
    decreases |vs|
  {
    var L := lens + [m];
    var R, E := Row(vs[0], m), Extend(vs[1..], m);
    assert Extend(vs, m) == R + E;
    RowSteps(vs[0], lens, m);
    assert R[m - 1] == vs[0] + [m - 1];
    if |vs| == 1 {
      assert R + E == R;
    } else {
      assert Chained(vs[1..], lens) by {
        assert forall k :: 0 <= k < |vs| - 1 ==> vs[1..][k] == vs[k + 1];
      }
      ExtendChained(vs[1..], lens, m);
      assert Step(vs[0], lens) == Some(vs[1]);
      StepsConcat(R, E, L);
      assert (R + E)[|R + E| - 1] == E[|E| - 1];
    }
  }

  /**
   Starting from all zeros and repeatedly applying `Step` visits exactly the
   combinations, in order, and stops after the last one, provided no
   dimension is empty.
   */
  lemma {:induction false} CombinationsChained(lens: seq<nat>)
    requires forall i :: 0 <= i < |lens| ==> lens[i] > 0
    ensures Chained(Combinations(lens), lens)
    ensures Combinations(lens)[0] == Zeros(|lens|)
    decreases |lens|
  {
    if |lens| == 0 {
      assert Combinations(lens) == [[]];
      assert Zeros(0) == [];
    } else {
      var n := |lens| - 1;
      CombinationsChained(lens[..n]);
      ExtendChained(Combinations(lens[..n]), lens[..n], lens[n]);
      assert lens[..n] + [lens[n]] == lens;
      assert Zeros(n) + [0] == Zeros(|lens|);
    }
  }

  /** The combinations are strictly increasing in lexicographic order, so none repeats. */
  lemma CombinationsSorted(lens: seq<nat>)
    ensures forall i, j :: 0 <= i < j < |Combinations(lens)| ==>
              LexLess(Combinations(lens)[i], Combinations(lens)[j])
  {
    var P := Combinations(lens);
    if |P| > 0 {
      if exists i :: 0 <= i < |lens| && lens[i] == 0 {
        ProductZero(lens);
        CombinationsLength(lens);
        assert false;
      }
      CombinationsChained(lens);
      forall k | 0 <= k < |P| - 1
        ensures LexLess(P[k], P[k + 1])
      {
        assert Step(P[k], lens) == Some(P[k + 1]);
        StepIncreases(P[k], lens);
      }
      SortedFromSteps(P);
    }
  }

  /** Consecutive lexicographic increases give a strictly increasing sequence. */
  lemma SortedFromSteps(P: seq<seq<nat>>)
    requires forall k :: 0 <= k < |P| - 1 ==> LexLess(P[k], P[k + 1])
    ensures forall i, j :: 0 <= i < j < |P| ==> LexLess(P[i], P[j])
  {
    forall i, j | 0 <= i < j < |P|
      ensures LexLess(P[i], P[j])
    {
      var k := i + 1;
      while k < j
        invariant i < k <= j
        invariant LexLess(P[i], P[k])
      {
        LexTransitive(P[i], P[k], P[k + 1]);
        k := k + 1;
      }
    }
  }
}
