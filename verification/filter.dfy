/**
 Snapshot and filter (generators.py lines 14-25): every occurrence of every
 value in `skip[i]` is removed from dimension `i`, survivors keeping their order.
 */
module Filter {
  import opened Optional

  /** The elements of `xs` that are not in `bad`, in their original order. */
  function Without<T(==)>(xs: seq<T>, bad: seq<T>): seq<T>
  {
    if |xs| == 0 then [] else (if xs[0] in bad then [] else [xs[0]]) + Without(xs[1..], bad)
  }

  /**
   No banned value survives, and every other value keeps its number of
   occurrences.
   */
  lemma {:induction false} WithoutContents<T>(xs: seq<T>, bad: seq<T>)
    ensures forall y :: y in Without(xs, bad) ==> y in xs && y !in bad
    ensures forall y :: y in xs && y !in bad ==> multiset(Without(xs, bad))[y] == multiset(xs)[y]
    decreases |xs|
  {
    if |xs| > 0 {
      WithoutContents(xs[1..], bad);
      assert xs == [xs[0]] + xs[1..];
      var head := if xs[0] in bad then [] else [xs[0]];
      assert Without(xs, bad) == head + Without(xs[1..], bad);
      forall y | y in xs && y !in bad
        ensures multiset(Without(xs, bad))[y] == multiset(xs)[y]
      {
        assert multiset(xs)[y] == multiset([xs[0]])[y] + multiset(xs[1..])[y];
        if y !in xs[1..] {
          assert multiset(xs[1..])[y] == 0;
          assert multiset(Without(xs[1..], bad))[y] == 0;
        }
      }
    }
  }

  /** Filtering distributes over concatenation: survivors keep their relative order. */
  lemma {:induction false} WithoutAppend<T>(a: seq<T>, b: seq<T>, bad: seq<T>)
    ensures Without(a + b, bad) == Without(a, bad) + Without(b, bad)
    decreases |a|
  {
    if |a| > 0 {
      assert (a + b)[1..] == a[1..] + b;
      WithoutAppend(a[1..], b, bad);
    } else {
      assert a + b == b;
    }
  }

  /** Filtering leaves a dimension unchanged exactly when none of its elements is banned. */
  lemma {:induction false} WithoutUnchanged<T>(xs: seq<T>, bad: seq<T>)
    ensures Without(xs, bad) == xs <==> forall y :: y in xs ==> y !in bad
    decreases |xs|
  {
    WithoutContents(xs, bad);
    if |xs| > 0 && forall y :: y in xs ==> y !in bad {
      WithoutUnchanged(xs[1..], bad);
    }
  }

  /** Removing `a` and then `b` is removing everything in `a + b`. */
  lemma {:induction false} WithoutCompose<T>(xs: seq<T>, a: seq<T>, b: seq<T>)
    ensures Without(Without(xs, a), b) == Without(xs, a + b)
    decreases |xs|
  {
    if |xs| > 0 {
      WithoutCompose(xs[1..], a, b);
      var head := if xs[0] in a then [] else [xs[0]];
      WithoutAppend(head, Without(xs[1..], a), b);
      if xs[0] !in a {
        assert Without(head, b) == Without(head[1..], b) + (if xs[0] in b then [] else [xs[0]]) by {
          assert head[1..] == [];
        }
      }
    }
  }

  /** Banning a value present k times shortens the dimension by exactly k. */
  lemma {:induction false} WithoutCount<T>(xs: seq<T>, y: T)
    ensures |Without(xs, [y])| == |xs| - multiset(xs)[y]
    decreases |xs|
  {
    if |xs| > 0 {
      WithoutCount(xs[1..], y);
      assert xs == [xs[0]] + xs[1..];
      assert multiset(xs)[y] == multiset(xs[1..])[y] + (if xs[0] == y then 1 else 0);
    }
  }

  /** The position of the first occurrence of `x`. */
  function FirstIndex<T(==)>(xs: seq<T>, x: T): (i: nat)
    requires x in xs
    ensures i < |xs| && xs[i] == x
    ensures forall j :: 0 <= j < i ==> xs[j] != x
  {
    if xs[0] == x then 0 else FirstIndex(xs[1..], x) + 1
  }

  /**
   Python's `list.remove`: drop the first occurrence of `x`; None stands for
   the `ValueError` raised when `x` does not occur.
   */
  function RemoveFirst<T(==)>(xs: seq<T>, x: T): (r: Option<seq<T>>)
    ensures r.None? <==> x !in xs
    ensures r.Some? ==> |r.value| + 1 == |xs|
    ensures r.Some? ==> multiset(r.value) == multiset(xs) - multiset{x}
    ensures r.Some? ==> Without(r.value, [x]) == Without(xs, [x])
    ensures r.Some? ==> exists i :: 0 <= i < |xs| && xs[i] == x && x !in xs[..i] &&
                                    r.value == xs[..i] + xs[i + 1..]
  {
    if x !in xs then None
    else
      var i := FirstIndex(xs, x);
      RemoveAtCount(xs, i);
      RemoveAtFilter(xs, i);
      assert x !in xs[..i];
      Some(xs[..i] + xs[i + 1..])
  }

  /** Dropping the element at `i` drops one copy of it from the multiset. */
  lemma RemoveAtCount<T>(xs: seq<T>, i: nat)
    requires i < |xs|
    ensures multiset(xs[..i] + xs[i + 1..]) == multiset(xs) - multiset{xs[i]}
  {
    assert xs == xs[..i] + [xs[i]] + xs[i + 1..];
  }

  /** Dropping one occurrence of `x` does not change what a filter for `x` keeps. */
  lemma RemoveAtFilter<T>(xs: seq<T>, i: nat)
    requires i < |xs|
    ensures Without(xs[..i] + xs[i + 1..], [xs[i]]) == Without(xs, [xs[i]])
  {
    var x, pre, post := xs[i], xs[..i], xs[i + 1..];
    var tail := [x] + post;
    assert xs == pre + tail;
    WithoutAppend(pre, tail, [x]);
    WithoutAppend(pre, post, [x]);
    assert tail[1..] == post;
    assert Without(tail, [x]) == Without(post, [x]);
  }

  /**
   The `while True: fors[i].remove(x)` loop, left through the `ValueError`
   handler once no occurrence remains: it removes every occurrence.
   */
  method RemoveEvery<T(==)>(xs: seq<T>, x: T) returns (r: seq<T>)
    ensures r == Without(xs, [x])
  {
    r := xs;
    while true
      invariant Without(r, [x]) == Without(xs, [x])
      decreases |r|
    {
      match RemoveFirst(r, x)
      case None =>
        WithoutUnchanged(r, [x]);
        return;
      case Some(rest) =>
        r := rest;
    }
  }

  /**
   The source indexes `fors[i]` only for an element of `skip[i]`, so skip
   lists beyond the last dimension must be empty (otherwise: `IndexError`).
   */
  predicate SkipFits<T>(fors: seq<seq<T>>, skip: Option<seq<seq<T>>>)
  {
    skip.Some? ==> forall i :: |fors| <= i < |skip.value| ==> |skip.value[i]| == 0
  }

  /** The ban list of dimension `i`: empty when `skip` is absent or too short. */
  function Ban<T>(skip: Option<seq<seq<T>>>, i: nat): seq<T>
  {
    if skip.Some? && i < |skip.value| then skip.value[i] else []
  }

  /** The filtered dimensions, one per input dimension. */
  function Filtered<T(==)>(fors: seq<seq<T>>, skip: Option<seq<seq<T>>>): seq<seq<T>>
  {
    seq(|fors|, i requires 0 <= i < |fors| => Without(fors[i], Ban(skip, i)))
  }

  /**
   Filtering keeps the dimension count; dimensions without a skip entry, and
   all dimensions when `skip` is absent, come through unchanged; in the others
   no banned value survives and every other element keeps its multiplicity.
   */
  lemma FilteredShape<T>(fors: seq<seq<T>>, skip: Option<seq<seq<T>>>)
    ensures |Filtered(fors, skip)| == |fors|
    ensures Filtered(fors, None) == fors
    ensures Filtered(fors, skip) == Filtered(fors, if skip.None? then Some([]) else skip)
    ensures forall i :: 0 <= i < |fors| && (skip.None? || i >= |skip.value|) ==>
              Filtered(fors, skip)[i] == fors[i]
    ensures forall i, y :: 0 <= i < |fors| && y in Filtered(fors, skip)[i] ==>
              y in fors[i] && y !in Ban(skip, i)
    ensures forall i, y :: 0 <= i < |fors| && y in fors[i] && y !in Ban(skip, i) ==>
              multiset(Filtered(fors, skip)[i])[y] == multiset(fors[i])[y]
  {
    forall i | 0 <= i < |fors|
      ensures Without(fors[i], []) == fors[i]
      ensures forall y :: y in Filtered(fors, skip)[i] ==> y in fors[i] && y !in Ban(skip, i)
      ensures forall y :: y in fors[i] && y !in Ban(skip, i) ==>
                multiset(Filtered(fors, skip)[i])[y] == multiset(fors[i])[y]
    {
      WithoutUnchanged(fors[i], []);
      WithoutContents(fors[i], Ban(skip, i));
    }
  }

  /**
   Lines 14-25 as written: an absent `skip` becomes `[]`; for each skip list
   and each value in it that occurs in the dimension, remove every occurrence.
   */
  method Snapshot<T(==)>(fors: seq<seq<T>>, skip: Option<seq<seq<T>>>) returns (dims: seq<seq<T>>)
    requires SkipFits(fors, skip)
    ensures dims == Filtered(fors, skip)
  {
    var bans := if skip.None? then [] else skip.value;
    dims := fors;
    for i := 0 to |bans|
      invariant |dims| == |fors|
      invariant forall j :: 0 <= j < |fors| ==>
                  dims[j] == if j < i then Without(fors[j], bans[j]) else fors[j]
    {
      // a skip list past the last dimension is empty, so it touches nothing
      if i < |fors| {
        var bad := bans[i];
        WithoutUnchanged(fors[i], []);
        for k := 0 to |bad|
          invariant |dims| == |fors|
          invariant dims[i] == Without(fors[i], bad[..k])
          invariant forall j :: 0 <= j < |fors| && j != i ==>
                      dims[j] == if j < i then Without(fors[j], bans[j]) else fors[j]
        {
          var x := bad[k];
          if x in dims[i] {
            var d := RemoveEvery(dims[i], x);
            dims := dims[i := d];
          } else {
            WithoutUnchanged(dims[i], [x]);
          }
          WithoutCompose(fors[i], bad[..k], [x]);
          assert bad[..k] + [x] == bad[..k + 1];
        }
        assert bad[..|bad|] == bad;
      }
    }
    forall j | 0 <= j < |fors|
      ensures dims[j] == Filtered(fors, skip)[j]
    {
      if j >= |bans| {
        WithoutUnchanged(fors[j], []);
      }
    }
  }
}
