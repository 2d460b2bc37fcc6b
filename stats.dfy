/** Running maximum, sum and mean of a sequence of temperatures. */
module Stats {

  /** The detectors' update `if val > max: max = val`. */
  function Max(m: real, v: real): real {
    if v > m then v else m
  }

  /** Running maximum over s, started from init, visiting s left to right. */
  function RunningMax(init: real, s: seq<real>): real {
    if s == [] then init else Max(RunningMax(init, s[..|s| - 1]), s[|s| - 1])
  }

  /** The running maximum is max(init, max of s): an upper bound of init and of every
      element, and equal to init or to some element. */
  lemma {:induction false} RunningMaxIsMaximum(init: real, s: seq<real>)
    ensures RunningMax(init, s) >= init
    ensures forall i :: 0 <= i < |s| ==> s[i] <= RunningMax(init, s)
    ensures RunningMax(init, s) == init || RunningMax(init, s) in s
  {
    if s != [] {
      var p := s[..|s| - 1];
      RunningMaxIsMaximum(init, p);
      assert forall i :: 0 <= i < |p| ==> p[i] == s[i];
      assert RunningMax(init, p) in p ==> RunningMax(init, p) in s;
    }
  }

  function Sum(s: seq<real>): real {
    if s == [] then 0.0 else Sum(s[..|s| - 1]) + s[|s| - 1]
  }

  /** Arithmetic mean, as Python's `sum(s) / len(s)`. */
  function Mean(s: seq<real>): real
    requires s != []
  {
    Sum(s) / (|s| as real)
  }

  lemma {:induction false} SumBounds(s: seq<real>, lo: real, hi: real)
    requires forall i :: 0 <= i < |s| ==> lo < s[i] <= hi
    ensures s != [] ==> (|s| as real) * lo < Sum(s)
    ensures Sum(s) <= (|s| as real) * hi
  {
    if s != [] {
      var p := s[..|s| - 1];
      var x := s[|s| - 1];
      assert forall i :: 0 <= i < |p| ==> p[i] == s[i];
      SumBounds(p, lo, hi);
      assert Sum(s) == Sum(p) + x;
      var n := |p| as real;
      assert (|s| as real) == n + 1.0;
      if p == [] {
        assert Sum(p) == 0.0 && n == 0.0;
        assert Sum(s) == x;
      } else {
        assert n * lo < Sum(p) && Sum(p) <= n * hi;
        assert (n + 1.0) * lo == n * lo + lo;
        assert (n + 1.0) * hi == n * hi + hi;
      }
    }
  }

  /** The mean lies strictly above a strict lower bound and at most at an upper bound. */
  lemma MeanBetween(s: seq<real>, lo: real, hi: real)
    requires s != []
    requires forall i :: 0 <= i < |s| ==> lo < s[i] <= hi
    ensures lo < Mean(s) <= hi
  {
    SumBounds(s, lo, hi);
    var n := |s| as real;
    var m := Mean(s);
    assert m * n == Sum(s);
    assert (m - lo) * n > 0.0;
    assert (hi - m) * n >= 0.0;
  }

  /** Extending a set of positions below n by position n (or by nothing) adds one element
      (or none). */
  lemma CardinalityStep(before: set<nat>, after: set<nat>, n: nat, added: bool)
    requires forall i :: i in before ==> i < n
    requires forall i :: i in after <==> i in before || (added && i == n)
    ensures |after| == |before| + (if added then 1 else 0)
  {
    if added {
      assert after == before + {n};
    } else {
      assert after == before;
    }
  }
}
