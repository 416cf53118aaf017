/** Concrete calls of `nested_for`, with the output they must produce. */
module Scenarios {
  import opened Optional
  import opened IndexVectors
  import opened NestedLoops
  import opened Filter
  import opened Generators

  /** The mixed numbers and characters the examples pass in. */
  datatype Item = Num(n: int) | Chr(c: char)

  /** Banning 'a' from the middle dimension leaves 2 * 2 * 2 tuples, last position fastest. */
  lemma SkipMiddleLetter()
    ensures Enumerate([[Num(1), Num(3)], [Chr('a'), Chr('b'), Chr('c')], [Num(2), Num(4)]],
                      Some([[], [Chr('a')]]))
         == [[Num(1), Chr('b'), Num(2)], [Num(1), Chr('b'), Num(4)],
             [Num(1), Chr('c'), Num(2)], [Num(1), Chr('c'), Num(4)],
             [Num(3), Chr('b'), Num(2)], [Num(3), Chr('b'), Num(4)],
             [Num(3), Chr('c'), Num(2)], [Num(3), Chr('c'), Num(4)]]
  {
    var fors := [[Num(1), Num(3)], [Chr('a'), Chr('b'), Chr('c')], [Num(2), Num(4)]];
    var dims := [[Num(1), Num(3)], [Chr('b'), Chr('c')], [Num(2), Num(4)]];
    BanLetterA();
    EnumerateFiltered(fors, Some([[], [Chr('a')]]), dims);
    assert Lengths(dims) == [2, 2, 2];
    CubeCombinations();
    CubeTuples();
  }

  /** The tuples the eight binary vectors select from the filtered dimensions. */
  lemma CubeTuples()
    ensures Tuples([[Num(1), Num(3)], [Chr('b'), Chr('c')], [Num(2), Num(4)]],
                   [[0, 0, 0], [0, 0, 1], [0, 1, 0], [0, 1, 1], [1, 0, 0], [1, 0, 1], [1, 1, 0], [1, 1, 1]])
         == [[Num(1), Chr('b'), Num(2)], [Num(1), Chr('b'), Num(4)],
             [Num(1), Chr('c'), Num(2)], [Num(1), Chr('c'), Num(4)],
             [Num(3), Chr('b'), Num(2)], [Num(3), Chr('b'), Num(4)],
             [Num(3), Chr('c'), Num(2)], [Num(3), Chr('c'), Num(4)]]
  {
    var dims := [[Num(1), Num(3)], [Chr('b'), Chr('c')], [Num(2), Num(4)]];
    var c3: seq<seq<nat>> := [[0, 0, 0], [0, 0, 1], [0, 1, 0], [0, 1, 1],
                              [1, 0, 0], [1, 0, 1], [1, 1, 0], [1, 1, 1]];
    assert Lengths(dims) == [2, 2, 2];
    TuplesIndex(dims, c3);
    var out := Tuples(dims, c3);
    assert out[0] == Grab(dims, c3[0]) == [Num(1), Chr('b'), Num(2)];
    assert out[1] == Grab(dims, c3[1]) == [Num(1), Chr('b'), Num(4)];
    assert out[2] == Grab(dims, c3[2]) == [Num(1), Chr('c'), Num(2)];
    assert out[3] == Grab(dims, c3[3]) == [Num(1), Chr('c'), Num(4)];
    assert out[4] == Grab(dims, c3[4]) == [Num(3), Chr('b'), Num(2)];
    assert out[5] == Grab(dims, c3[5]) == [Num(3), Chr('b'), Num(4)];
    assert out[6] == Grab(dims, c3[6]) == [Num(3), Chr('c'), Num(2)];
    assert out[7] == Grab(dims, c3[7]) == [Num(3), Chr('c'), Num(4)];
  }

  /** With the filtered dimensions known, the output is their tuples in nested-loop order. */
  lemma EnumerateFiltered<T>(fors: seq<seq<T>>, skip: Option<seq<seq<T>>>, dims: seq<seq<T>>)
    requires Filtered(fors, skip) == dims && |dims| > 0
    ensures forall k :: 0 <= k < |Combinations(Lengths(dims))| ==>
              InBounds(Combinations(Lengths(dims))[k], Lengths(dims))
    ensures Enumerate(fors, skip) == Tuples(dims, Combinations(Lengths(dims)))
  {
    CombinationsInBounds(Lengths(dims));
  }

  /** The ban list of the middle dimension removes 'a' only there. */
  lemma BanLetterA()
    ensures Filtered([[Num(1), Num(3)], [Chr('a'), Chr('b'), Chr('c')], [Num(2), Num(4)]],
                     Some([[], [Chr('a')]]))
         == [[Num(1), Num(3)], [Chr('b'), Chr('c')], [Num(2), Num(4)]]
  {
    var fors := [[Num(1), Num(3)], [Chr('a'), Chr('b'), Chr('c')], [Num(2), Num(4)]];
    var skip := Some([[], [Chr('a')]]);
    FilteredShape(fors, skip);
    assert Without(fors[1], [Chr('a')]) == [Chr('b'), Chr('c')] by {
      assert fors[1][1..] == [Chr('b'), Chr('c')];
      assert [Chr('b'), Chr('c')][1..] == [Chr('c')];
      assert [Chr('c')][1..] == [];
    }
  }

  /** Three binary dimensions: the eight vectors counted in binary. */
  lemma CubeCombinations()
    ensures Combinations([2, 2, 2]) ==
              [[0, 0, 0], [0, 0, 1], [0, 1, 0], [0, 1, 1], [1, 0, 0], [1, 0, 1], [1, 1, 0], [1, 1, 1]]
  {
    var none: seq<seq<nat>> := [];
    var c2: seq<seq<nat>> := [[0, 0], [0, 1], [1, 0], [1, 1]];
    SquareCombinations();
    CombinationsSnoc([2, 2], 2);
    assert [2, 2] + [2] == [2, 2, 2];
    assert c2 == [c2[0]] + ([c2[1]] + ([c2[2]] + ([c2[3]] + none)));
    ExtendCons(c2[0], [c2[1]] + ([c2[2]] + ([c2[3]] + none)), 2);
    ExtendCons(c2[1], [c2[2]] + ([c2[3]] + none), 2);
    ExtendCons(c2[2], [c2[3]] + none, 2);
    ExtendCons(c2[3], none, 2);
    RowTwo(c2[0]);
    RowTwo(c2[1]);
    RowTwo(c2[2]);
    RowTwo(c2[3]);
    assert Combinations([2, 2, 2]) ==
      Row(c2[0], 2) + (Row(c2[1], 2) + (Row(c2[2], 2) + (Row(c2[3], 2) + none)));
    assert c2[0] + [0] == [0, 0, 0] && c2[0] + [1] == [0, 0, 1];
    assert c2[1] + [0] == [0, 1, 0] && c2[1] + [1] == [0, 1, 1];
    assert c2[2] + [0] == [1, 0, 0] && c2[2] + [1] == [1, 0, 1];
    assert c2[3] + [0] == [1, 1, 0] && c2[3] + [1] == [1, 1, 1];
  }

  lemma SquareCombinations()
    ensures Combinations([2, 2]) == [[0, 0], [0, 1], [1, 0], [1, 1]]
  {
    var none: seq<seq<nat>> := [];
    var c1: seq<seq<nat>> := [[0], [1]];
    LineCombinations();
    CombinationsSnoc([2], 2);
    assert [2] + [2] == [2, 2];
    assert c1 == [c1[0]] + ([c1[1]] + none);
    ExtendCons(c1[0], [c1[1]] + none, 2);
    ExtendCons(c1[1], none, 2);
    RowTwo(c1[0]);
    RowTwo(c1[1]);
    assert Combinations([2, 2]) == Row(c1[0], 2) + (Row(c1[1], 2) + none);
    assert c1[0] + [0] == [0, 0] && c1[0] + [1] == [0, 1];
    assert c1[1] + [0] == [1, 0] && c1[1] + [1] == [1, 1];
  }

  lemma LineCombinations()
    ensures Combinations([2]) == [[0], [1]]
  {
    var e: seq<nat> := [];
    var none: seq<seq<nat>> := [];
    CombinationsSnoc(e, 2);
    assert e + [2] == [2];
    assert Combinations(e) == [e] == [e] + none;
    ExtendCons(e, none, 2);
    RowTwo(e);
    assert Combinations([2]) == Row(e, 2) + none;
    assert e + [0] == [0] && e + [1] == [1];
  }

  lemma RowOne(v: seq<nat>)
    ensures Row(v, 1) == [v + [0]]
  {
  }

  lemma RowTwo(v: seq<nat>)
    ensures Row(v, 2) == [v + [0], v + [1]]
  {
  }

  lemma CombinationsSnoc(lens: seq<nat>, m: nat)
    ensures Combinations(lens + [m]) == Extend(Combinations(lens), m)
  {
    assert (lens + [m])[..|lens|] == lens;
  }

  lemma ExtendCons(v: seq<nat>, vs: seq<seq<nat>>, m: nat)
    ensures Extend([v] + vs, m) == Row(v, m) + Extend(vs, m)
  {
    assert ([v] + vs)[1..] == vs;
  }

  /** A dimension emptied by its ban list voids the whole product. */
  lemma FullyBanned()
    ensures Enumerate([[Num(1), Num(2)]], Some([[Num(1), Num(2)]])) == []
  {
    var fors, skip := [[Num(1), Num(2)]], Some([[Num(1), Num(2)]]);
    assert Filtered(fors, skip)[0] == Without(fors[0], [Num(1), Num(2)]);
    assert Without(fors[0], [Num(1), Num(2)]) == [] by {
      assert fors[0][1..] == [Num(2)];
      assert [Num(2)][1..] == [];
    }
    EnumerateEmpty(fors, skip);
  }

  /** Zero dimensions yield nothing, not one empty tuple. */
  lemma NoDimensions()
    ensures Enumerate<Item>([], None) == []
  {
  }

  /** An empty dimension yields nothing even when the others are not empty. */
  lemma EmptyDimension()
    ensures Enumerate([[], [Chr('a'), Chr('b')]], None) == []
  {
    var fors: seq<seq<Item>> := [[], [Chr('a'), Chr('b')]];
    FilteredShape(fors, None);
    EnumerateEmpty(fors, None);
  }

  /** Single-element dimensions yield exactly one tuple. */
  lemma OneEach()
    ensures Enumerate([[Num(1)], [Num(2)], [Num(3)]], None) == [[Num(1), Num(2), Num(3)]]
  {
    var fors := [[Num(1)], [Num(2)], [Num(3)]];
    FilteredShape(fors, None);
    assert Lengths(fors) == [1, 1, 1];
    UnitCombinations();
    CombinationsInBounds([1, 1, 1]);
    TuplesIndex(fors, [[0, 0, 0]]);
    var out := Enumerate(fors, None);
    assert out == Tuples(fors, [[0, 0, 0]]);
    assert out[0] == Grab(fors, [0, 0, 0]) == [Num(1), Num(2), Num(3)];
  }

  /** Three dimensions of length one: the single all-zeros vector. */
  lemma UnitCombinations()
    ensures Combinations([1, 1, 1]) == [[0, 0, 0]]
  {
    var none: seq<seq<nat>> := [];
    var e: seq<nat> := [];
    CombinationsSnoc(e, 1);
    assert e + [1] == [1];
    assert Combinations(e) == [e] + none;
    ExtendCons(e, none, 1);
    assert Combinations([1]) == Row(e, 1) + none;
    RowOne(e);
    assert e + [0] == [0];
    CombinationsSnoc([1], 1);
    assert [1] + [1] == [1, 1];
    ExtendCons([0], none, 1);
    assert [[0]] == [[0]] + none;
    assert Combinations([1, 1]) == Row([0], 1) + none;
    RowOne([0]);
    assert [0] + [0] == [0, 0];
    CombinationsSnoc([1, 1], 1);
    assert [1, 1] + [1] == [1, 1, 1];
    ExtendCons([0, 0], none, 1);
    assert [[0, 0]] == [[0, 0]] + none;
    assert Combinations([1, 1, 1]) == Row([0, 0], 1) + none;
    RowOne([0, 0]);
    assert [0, 0] + [0] == [0, 0, 0];
  }
}
