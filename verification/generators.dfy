/**
 `nested_for` of generators.py: filter the dimensions, then walk the
 odometer from all zeros, yielding the selected tuple before every step.
 The lazily yielded stream is modelled as the sequence of all its tuples.
 */
module Generators {
  import opened Optional
  import opened IndexVectors
  import opened Odometer
  import opened NestedLoops
  import opened Filter

  /** The length of every dimension. */
  function Lengths<T>(dims: seq<seq<T>>): seq<nat>
  {
    seq(|dims|, i requires 0 <= i < |dims| => |dims[i]|)
  }

  /** The tuple an index vector selects: position i taken from dimension i. */
  function Grab<T>(dims: seq<seq<T>>, v: seq<nat>): seq<T>
    requires InBounds(v, Lengths(dims))
  {
    seq(|v|, i requires 0 <= i < |v| => dims[i][v[i]])
  }

  /** The tuples selected by a sequence of index vectors, in order. */
  function Tuples<T>(dims: seq<seq<T>>, vs: seq<seq<nat>>): seq<seq<T>>
    requires forall k :: 0 <= k < |vs| ==> InBounds(vs[k], Lengths(dims))
  {
    if |vs| == 0 then []
    else Tuples(dims, vs[..|vs| - 1]) + [Grab(dims, vs[|vs| - 1])]
  }

  lemma {:induction false} TuplesIndex<T>(dims: seq<seq<T>>, vs: seq<seq<nat>>)
    requires forall k :: 0 <= k < |vs| ==> InBounds(vs[k], Lengths(dims))
    ensures |Tuples(dims, vs)| == |vs|
    ensures forall k :: 0 <= k < |vs| ==> Tuples(dims, vs)[k] == Grab(dims, vs[k])
    decreases |vs|
  {
    if |vs| > 0 {
      TuplesIndex(dims, vs[..|vs| - 1]);
    }
  }

  /**
   What `nested_for(*fors, skip=skip)` yields: nothing for zero dimensions,
   otherwise the tuples of all combinations of the filtered dimensions in
   nested-loop order.

   This definition and the lemmas about it take any `skip`, but the
   generator only produces output when `SkipFits(fors, skip)` holds: a
   non-empty skip list past the last dimension raises `IndexError` at
   generators.py line 20. `NestedFor` links the two under that condition.
   */
  function Enumerate<T(==)>(fors: seq<seq<T>>, skip: Option<seq<seq<T>>>): seq<seq<T>>
  {
    var dims := Filtered(fors, skip);
    CombinationsInBounds(Lengths(dims));
    if |dims| == 0 then [] else Tuples(dims, Combinations(Lengths(dims)))
  }

  /**
   The generator as written: snapshot and filter; stop at once for zero
   dimensions or an empty filtered dimension; otherwise yield the tuple of
   the current index vector and increment it until the carry passes
   position 0.
   */
  method NestedFor<T(==)>(fors: seq<seq<T>>, skip: Option<seq<seq<T>>>) returns (out: seq<seq<T>>)
    requires SkipFits(fors, skip)
    ensures out == Enumerate(fors, skip)
  {
    var dims := Snapshot(fors, skip);
    var lens := Lengths(dims);
    CombinationsInBounds(lens);
    if |dims| == 0 || exists i :: 0 <= i < |dims| && |dims[i]| == 0 {
      if |dims| > 0 {
        var i :| 0 <= i < |dims| && |dims[i]| == 0;
        assert lens[i] == 0;
        ProductZero(lens);
        CombinationsLength(lens);
      }
      return [];
    }
    ghost var combos := Combinations(lens);
    CombinationsChained(lens);
    var grab := Zeros(|dims|);
    ghost var k := 0;
    out := [];
    while true
      invariant 0 <= k < |combos| && grab == combos[k]
      invariant out == Tuples(dims, combos[..k])
      decreases |combos| - k
    {
      assert combos[..k + 1][..k] == combos[..k];
      out := out + [Grab(dims, grab)];
      var next, done := Increment(grab, lens);
      assert k < |combos| - 1 ==> Step(combos[k], lens) == Some(combos[k + 1]);
      if done {
        assert combos[..k + 1] == combos;
        return;
      }
      grab, k := next, k + 1;
    }
  }

  /**
   The number of tuples is the product of the filtered lengths, and zero for
   zero dimensions.
   */
  lemma EnumerateCount<T>(fors: seq<seq<T>>, skip: Option<seq<seq<T>>>)
    ensures |Enumerate(fors, skip)| ==
              if |fors| == 0 then 0 else Product(Lengths(Filtered(fors, skip)))
  {
    var dims := Filtered(fors, skip);
    CombinationsInBounds(Lengths(dims));
    TuplesIndex(dims, Combinations(Lengths(dims)));
    CombinationsLength(Lengths(dims));
  }

  /**
   Nothing is yielded exactly when there are no dimensions or some filtered
   dimension is empty.
   */
  lemma EnumerateEmpty<T>(fors: seq<seq<T>>, skip: Option<seq<seq<T>>>)
    ensures Enumerate(fors, skip) == [] <==>
              |fors| == 0 || exists i :: 0 <= i < |fors| && |Filtered(fors, skip)[i]| == 0
  {
    var dims := Filtered(fors, skip);
    var lens := Lengths(dims);
    EnumerateCount(fors, skip);
    ProductZero(lens);
    if exists i :: 0 <= i < |lens| && lens[i] == 0 {
      var i :| 0 <= i < |lens| && lens[i] == 0;
      assert |dims[i]| == 0;
    }
    if exists i :: 0 <= i < |fors| && |dims[i]| == 0 {
      var i :| 0 <= i < |fors| && |dims[i]| == 0;
      assert lens[i] == 0;
    }
  }

  /**
   The k-th tuple is the one the k-th combination selects; each of its
   positions is drawn from the filtered dimension of that position.
   */
  lemma EnumerateSelects<T>(fors: seq<seq<T>>, skip: Option<seq<seq<T>>>, k: nat)
    requires |fors| > 0 && k < |Enumerate(fors, skip)|
    ensures |Enumerate(fors, skip)| == |Combinations(Lengths(Filtered(fors, skip)))|
    ensures var dims := Filtered(fors, skip);
            var v := Combinations(Lengths(dims))[k];
            && InBounds(v, Lengths(dims))
            && |Enumerate(fors, skip)[k]| == |fors|
            && forall i :: 0 <= i < |fors| ==>
                 Enumerate(fors, skip)[k][i] == dims[i][v[i]] && Enumerate(fors, skip)[k][i] in dims[i]
  {
    var dims := Filtered(fors, skip);
    CombinationsInBounds(Lengths(dims));
    TuplesIndex(dims, Combinations(Lengths(dims)));
  }

  /**
   Every tuple whose positions are drawn from the filtered dimensions is
   yielded (for at least one dimension).
   */
  lemma EnumerateComplete<T>(fors: seq<seq<T>>, skip: Option<seq<seq<T>>>, t: seq<T>)
    requires |fors| > 0 && |t| == |fors|
    requires forall i :: 0 <= i < |t| ==> t[i] in Filtered(fors, skip)[i]
    ensures t in Enumerate(fors, skip)
  {
    var dims := Filtered(fors, skip);
    var lens := Lengths(dims);
    var v: seq<nat> := seq(|t|, i requires 0 <= i < |t| => var j :| 0 <= j < |dims[i]| && dims[i][j] == t[i]; j);
    assert InBounds(v, lens);
    CombinationsComplete(v, lens);
    var combos := Combinations(lens);
    var k :| 0 <= k < |combos| && combos[k] == v;
    CombinationsInBounds(lens);
    TuplesIndex(dims, combos);
    assert Grab(dims, v) == t;
    assert Enumerate(fors, skip)[k] == t;
  }
}
