/**
 The odometer of generators.py: advancing the index vector by one in mixed
 radix, the last position least significant. `Step` is the successor as a
 recursive definition; `Increment` is the carry loop as the source writes it.
 */
module Odometer {
  import opened Optional
  import opened IndexVectors

  /**
   The next index vector, or None once the carry runs past position 0.
   The last position counts up; when it reaches its length it resets to 0
   and the prefix is advanced instead.
   */
  function Step(v: seq<nat>, lens: seq<nat>): (r: Option<seq<nat>>)
    requires InBounds(v, lens)
    ensures r.Some? ==> InBounds(r.value, lens)
    decreases |v|
  {
    if |v| == 0 then None
    else
      var n := |v| - 1;
      if v[n] + 1 < lens[n] then Some(v[..n] + [v[n] + 1])
      else
        match Step(v[..n], lens[..n])
        case None => None
        case Some(w) => Some(w + [0])
  }

  /** `Step` on a vector split into its prefix and its last position. */
  lemma StepAppend(a: seq<nat>, x: nat, lens: seq<nat>, m: nat)
    requires InBounds(a + [x], lens + [m])
    ensures InBounds(a, lens) && x < m
    ensures Step(a + [x], lens + [m]) ==
      if x + 1 < m then Some(a + [x + 1])
      else match Step(a, lens)
        case None => None
        case Some(w) => Some(w + [0])
  {
    assert (a + [x])[..|a|] == a;
    assert (lens + [m])[..|a|] == lens;
    assert forall i :: 0 <= i < |a| ==> (a + [x])[i] == a[i];
    assert (a + [x])[|a|] == x && (lens + [m])[|a|] == m;
  }

  /**
   The carry stops at the last position `i` that is not at its maximum:
   that position goes up by one and everything after it resets to 0.
   */
  lemma {:induction false} StepShape(v: seq<nat>, lens: seq<nat>, i: nat)
    requires InBounds(v, lens)
    requires i < |v| && v[i] + 1 < lens[i]
    requires forall j :: i < j < |v| ==> v[j] + 1 == lens[j]
    ensures Step(v, lens) == Some(v[..i] + [v[i] + 1] + Zeros(|v| - 1 - i))
    decreases |v|
  {
    var n := |v| - 1;
    if i < n {
      assert InBounds(v[..n], lens[..n]);
      StepShape(v[..n], lens[..n], i);
      assert v[..n][..i] == v[..i];
      assert v[n] + 1 == lens[n];
      var prefixNext := v[..i] + [v[i] + 1] + Zeros(n - 1 - i);
      assert Step(v[..n], lens[..n]) == Some(prefixNext);
      assert Step(v, lens) == Some(prefixNext + [0]);
      assert Zeros(n - 1 - i) + [0] == Zeros(n - i);
      assert prefixNext + [0] == v[..i] + [v[i] + 1] + Zeros(n - i);
    } else {
      assert Zeros(0) == [];
      assert Step(v, lens) == Some(v[..n] + [v[n] + 1]);
      assert v[..i] + [v[i] + 1] + Zeros(0) == v[..n] + [v[n] + 1];
    }
  }

  /** Enumeration ends exactly at the all-maximum vector. */
  lemma {:induction false} StepNoneIffMax(v: seq<nat>, lens: seq<nat>)
    requires InBounds(v, lens)
    ensures Step(v, lens).None? <==> IsMax(v, lens)
    decreases |v|
  {
    if |v| > 0 {
      var n := |v| - 1;
      assert InBounds(v[..n], lens[..n]);
      StepNoneIffMax(v[..n], lens[..n]);
      if IsMax(v, lens) {
        assert IsMax(v[..n], lens[..n]);
      } else if v[n] + 1 == lens[n] {
        assert !IsMax(v[..n], lens[..n]);
      }
    }
  }

  /** Each step moves strictly forward in lexicographic order. */
  lemma {:induction false} StepIncreases(v: seq<nat>, lens: seq<nat>)
    requires InBounds(v, lens) && Step(v, lens).Some?
    ensures LexLess(v, Step(v, lens).value)
    decreases |v|
  {
    var n := |v| - 1;
    var a, x := v[..n], v[n];
    assert v == a + [x];
    assert lens == lens[..n] + [lens[n]];
    StepAppend(a, x, lens[..n], lens[n]);
    if x + 1 < lens[n] {
      LexAppend(a, a, x, x + 1);
    } else {
      StepIncreases(a, lens[..n]);
      LexAppend(a, Step(a, lens[..n]).value, x, 0);
    }
  }

  /** No in-bounds vector lies strictly between a vector and its step. */
  lemma {:induction false} StepNothingBetween(v: seq<nat>, u: seq<nat>, lens: seq<nat>)
    requires InBounds(v, lens) && InBounds(u, lens) && Step(v, lens).Some?
    ensures !(LexLess(v, u) && LexLess(u, Step(v, lens).value))
    decreases |v|
  {
    var n := |v| - 1;
    var a, x, c, z, m := v[..n], v[n], u[..n], u[n], lens[n];
    assert v == a + [x] && u == c + [z];
    assert lens == lens[..n] + [m];
    StepAppend(a, x, lens[..n], m);
    StepAppend(c, z, lens[..n], m);
    var w := Step(v, lens).value;
    if LexLess(v, u) && LexLess(u, w) {
      LexAppend(a, c, x, z);
      if x + 1 < m {
        LexAppend(c, a, z, x + 1);
        if LexLess(a, c) && LexLess(c, a) {
          LexTransitive(a, c, a);
        }
        assert false;
      } else {
        var a' := Step(a, lens[..n]).value;
        assert w == a' + [0];
        LexAppend(c, a', z, 0);
        StepNothingBetween(a, c, lens[..n]);
        assert false;
      }
    }
  }

  /** `Step` returns exactly the lexicographic successor among in-bounds vectors. */
  lemma StepIsSuccessor(v: seq<nat>, w: seq<nat>, lens: seq<nat>)
    requires InBounds(v, lens) && Step(v, lens) == Some(w)
    ensures LexLess(v, w)
    ensures forall u :: InBounds(u, lens) && LexLess(v, u) ==> u == w || LexLess(w, u)
  {
    StepIncreases(v, lens);
    forall u | InBounds(u, lens) && LexLess(v, u)
      ensures u == w || LexLess(w, u)
    {
      StepNothingBetween(v, u, lens);
      LexTotal(u, w);
    }
  }

  /** `Step` gives up exactly on the lexicographically greatest in-bounds vector. */
  lemma {:induction false} StepNoneIffLast(v: seq<nat>, lens: seq<nat>)
    requires InBounds(v, lens)
    ensures Step(v, lens).None? <==> forall u :: InBounds(u, lens) ==> !LexLess(v, u)
    decreases |v|
  {
    if Step(v, lens).Some? {
      StepIncreases(v, lens);
    } else if |v| > 0 {
      var n := |v| - 1;
      var a, x, m := v[..n], v[n], lens[n];
      assert v == a + [x];
      assert lens == lens[..n] + [m];
      StepAppend(a, x, lens[..n], m);
      StepNoneIffLast(a, lens[..n]);
      forall u | InBounds(u, lens)
        ensures !LexLess(v, u)
      {
        var c, z := u[..n], u[n];
        assert u == c + [z];
        StepAppend(c, z, lens[..n], m);
        LexAppend(a, c, x, z);
      }
    }
  }

  /**
   The increment of generators.py: bump the last position; while a position
   equals its length, reset it to 0 and bump the one to its left; `done`
   when position 0 overflows, which leaves the vector all zeros.
   */
  method Increment(grab: seq<nat>, lens: seq<nat>) returns (next: seq<nat>, done: bool)
    requires |grab| > 0 && InBounds(grab, lens)
    ensures done <==> Step(grab, lens).None?
    ensures !done ==> Step(grab, lens) == Some(next)
    ensures done ==> next == Zeros(|grab|)
  {
    var toInc := |grab| - 1;
    next := grab[toInc := grab[toInc] + 1];
    while next[toInc] == lens[toInc]
      invariant 0 <= toInc < |grab| == |next|
      invariant next[..toInc] == grab[..toInc]
      invariant next[toInc] == grab[toInc] + 1
      invariant forall j :: toInc < j < |grab| ==> next[j] == 0 && grab[j] + 1 == lens[j]
      decreases toInc
    {
      next := next[toInc := 0];
      toInc := toInc - 1;
      if toInc == -1 {
        assert IsMax(grab, lens);
        StepNoneIffMax(grab, lens);
        return next, true;
      }
      next := next[toInc := next[toInc] + 1];
    }
    StepShape(grab, lens, toInc);
    assert next == grab[..toInc] + [grab[toInc] + 1] + Zeros(|grab| - 1 - toInc);
    done := false;
  }
}
