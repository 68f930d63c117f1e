/**
 The secondary ranking key of a motif: the length of its longest run of
 identical adjacent characters.
 */
module Runs {

  function Max(a: int, b: int): int {
    if a >= b then a else b
  }

  /** `m[a..b]` is a non-empty block of one repeated character. */
  predicate Run(m: string, a: int, b: int) {
    0 <= a < b <= |m| && forall k :: a <= k < b ==> m[k] == m[a]
  }

  /** Length of the longest run that ends just before position `e`. */
  function RunTo(m: string, e: nat): nat
    requires 0 < e <= |m|
  {
    if e == 1 || m[e - 1] != m[e - 2] then 1 else RunTo(m, e - 1) + 1
  }

  /** Length of the longest run ending at or before position `n`. */
  function LongestRunBelow(m: string, n: nat): nat
    requires n <= |m|
  {
    if n == 0 then 0 else Max(LongestRunBelow(m, n - 1), RunTo(m, n))
  }

  /** What the repeat scan returns: the longest run, and 1 for the empty motif. */
  function Repeats(m: string): nat {
    if |m| == 0 then 1 else LongestRunBelow(m, |m|)
  }

  lemma {:induction false} RunToIsMaximal(m: string, e: nat)
    requires 0 < e <= |m|
    ensures Run(m, e - RunTo(m, e), e)
    ensures forall a :: Run(m, a, e) ==> e - a <= RunTo(m, e)
  {
    if e == 1 || m[e - 1] != m[e - 2] {
      forall a | Run(m, a, e) ensures e - a <= 1 {
      }
    } else {
      RunToIsMaximal(m, e - 1);
      forall a | Run(m, a, e) ensures e - a <= RunTo(m, e) {
        if a < e - 1 {
          assert Run(m, a, e - 1);
        }
      }
    }
  }

  lemma {:induction false} LongestRunBelowIsLongest(m: string, n: nat)
    requires 0 < n <= |m|
    ensures exists a, b :: Run(m, a, b) && b <= n && b - a == LongestRunBelow(m, n)
    ensures forall a, b :: Run(m, a, b) && b <= n ==> b - a <= LongestRunBelow(m, n)
  {
    RunToIsMaximal(m, n);
    var e := RunTo(m, n);
    if n == 1 {
      assert Run(m, n - e, n) && n - (n - e) == LongestRunBelow(m, n);
    } else {
      LongestRunBelowIsLongest(m, n - 1);
      if LongestRunBelow(m, n - 1) < e {
        assert Run(m, n - e, n) && n - (n - e) == LongestRunBelow(m, n);
      } else {
        var a, b :| Run(m, a, b) && b <= n - 1 && b - a == LongestRunBelow(m, n - 1);
        assert Run(m, a, b) && b <= n && b - a == LongestRunBelow(m, n);
      }
      forall a, b | Run(m, a, b) && b <= n ensures b - a <= LongestRunBelow(m, n) {
        if b < n {
          assert b <= n - 1;
        }
      }
    }
  }

  /** For a non-empty motif the result is the length of some run, and no run is longer. */
  lemma RepeatsIsLongestRun(m: string)
    requires |m| > 0
    ensures exists a, b :: Run(m, a, b) && b - a == Repeats(m)
    ensures forall a, b :: Run(m, a, b) ==> b - a <= Repeats(m)
  {
    LongestRunBelowIsLongest(m, |m|);
  }

  /** The result is at least 1, and at most |m| for a non-empty motif. */
  lemma RepeatsBounds(m: string)
    ensures 1 <= Repeats(m)
    ensures |m| > 0 ==> Repeats(m) <= |m|
  {
    if |m| > 0 {
      RepeatsIsLongestRun(m);
    }
  }

  /** A non-empty motif scores |m| exactly when all its characters are equal. */
  lemma RepeatsFullIffUniform(m: string)
    requires |m| > 0
    ensures Repeats(m) == |m| <==> forall k :: 0 <= k < |m| ==> m[k] == m[0]
  {
    RepeatsIsLongestRun(m);
    if forall k :: 0 <= k < |m| ==> m[k] == m[0] {
      assert Run(m, 0, |m|);
    }
    if Repeats(m) == |m| {
      var a, b :| Run(m, a, b) && b - a == Repeats(m);
      assert a == 0;
    }
  }
}
