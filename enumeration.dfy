/**
 The universe of motifs: every string of a given length over the four
 nucleotide bases, listed in the order in which MotifFinder's recursive
 generator produces them (the base at an earlier position varies slowest).
 */
module Enumerate {

  /** The nucleotide alphabet, in the order the generator tries the bases. */
  const Bases: string := "ACGT"

  /** Every character of `w` is one of the four bases. */
  predicate OverBases(w: string) {
    forall i :: 0 <= i < |w| ==> w[i] in Bases
  }

  /** No value occurs twice in `s`. */
  predicate Distinct<T(==)>(s: seq<T>) {
    forall i, j :: 0 <= i < j < |s| ==> s[i] != s[j]
  }

  function Pow4(n: nat): (r: nat)
    ensures r >= 1
  {
    if n == 0 then 1 else 4 * Pow4(n - 1)
  }

  /** `p + w` for every `w` of `ms`, in order. */
  function Prefixed(p: string, ms: seq<string>): seq<string> {
    seq(|ms|, k requires 0 <= k < |ms| => p + ms[k])
  }

  /** One block per base of `bs`, in order: that base followed by each string of `ms`. */
  function Grow(bs: string, ms: seq<string>): seq<string>
    decreases |bs|
  {
    if bs == [] then [] else Grow(bs[..|bs| - 1], ms) + Prefixed([bs[|bs| - 1]], ms)
  }

  /** All motifs of length `n`, in generation order. */
  function Motifs(n: nat): seq<string> {
    if n == 0 then [""] else Grow(Bases, Motifs(n - 1))
  }

  /** The table the generator leaves behind: each listed motif mapped to 0. */
  function ZeroTable(keys: seq<string>): map<string, int> {
    map m | m in keys :: 0
  }

  /**
   The table the generator builds from prefix `p` with `n` positions left to
   fill, following its recursion: with none left, `p` itself with count 0;
   otherwise the tables for `p` extended by each base in turn.
   */
  function Generated(p: string, n: nat): map<string, int>
    decreases n, |Bases| + 1
  {
    if n == 0 then map[p := 0] else GeneratedFrom(p, n, |Bases|)
  }

  /** The part of `Generated(p, n)` contributed by the first `k` bases. */
  function GeneratedFrom(p: string, n: nat, k: nat): map<string, int>
    requires 0 < n && k <= |Bases|
    decreases n, k
  {
    if k == 0 then map[] else GeneratedFrom(p, n, k - 1) + Generated(p + [Bases[k - 1]], n - 1)
  }

  lemma {:induction false} GrowLength(bs: string, ms: seq<string>)
    ensures |Grow(bs, ms)| == |bs| * |ms|
    decreases |bs|
  {
    if bs != [] {
      GrowLength(bs[..|bs| - 1], ms);
      assert |bs| * |ms| == (|bs| - 1) * |ms| + |ms|;
    }
  }

  /** A string is in `Grow(bs, ms)` exactly when it is a base of `bs` followed by a string of `ms`. */
  lemma {:induction false} GrowMembers(bs: string, ms: seq<string>, x: string)
    ensures x in Grow(bs, ms) <==> |x| > 0 && x[0] in bs && x[1..] in ms
    decreases |bs|
  {
    if bs != [] {
      var rest, b := bs[..|bs| - 1], bs[|bs| - 1];
      assert bs == rest + [b];
      GrowMembers(rest, ms, x);
      var block := Prefixed([b], ms);
      if |x| > 0 && x[0] == b && x[1..] in ms {
        var k :| 0 <= k < |ms| && ms[k] == x[1..];
        assert x == [b] + ms[k];
        assert block[k] == x;
      }
      if x in block {
        var k :| 0 <= k < |block| && block[k] == x;
        assert x[1..] == ms[k];
      }
    }
  }

  lemma DistinctConcat<T>(a: seq<T>, b: seq<T>)
    requires Distinct(a) && Distinct(b)
    requires forall i, j :: 0 <= i < |a| && 0 <= j < |b| ==> a[i] != b[j]
    ensures Distinct(a + b)
  {
    var c := a + b;
    forall i, j | 0 <= i < j < |c| ensures c[i] != c[j] {
      if j < |a| {
        assert c[i] == a[i] && c[j] == a[j];
      } else if i < |a| {
        assert c[i] == a[i] && c[j] == b[j - |a|];
      } else {
        assert c[i] == b[i - |a|] && c[j] == b[j - |a|];
      }
    }
  }

  lemma {:induction false} GrowDistinct(bs: string, ms: seq<string>)
    requires Distinct(bs) && Distinct(ms)
    ensures Distinct(Grow(bs, ms))
    decreases |bs|
  {
    if bs != [] {
      var rest, b := bs[..|bs| - 1], bs[|bs| - 1];
      assert Distinct(rest);
      assert b !in rest by {
        forall i | 0 <= i < |rest| ensures rest[i] != b {
          assert rest[i] == bs[i];
        }
      }
      GrowDistinct(rest, ms);
      var head, block := Grow(rest, ms), Prefixed([b], ms);
      forall i, j | 0 <= i < j < |block| ensures block[i] != block[j] {
        assert block[i][1..] == ms[i];
        assert block[j][1..] == ms[j];
      }
      forall i, j | 0 <= i < |head| && 0 <= j < |block| ensures head[i] != block[j] {
        GrowMembers(rest, ms, head[i]);
        assert block[j][0] == b;
      }
      DistinctConcat(head, block);
    }
  }

  /** The generator produces 4^n motifs; for n = 0 that is the single empty motif. */
  lemma {:induction false} MotifsCount(n: nat)
    ensures |Motifs(n)| == Pow4(n)
  {
    if n > 0 {
      MotifsCount(n - 1);
      GrowLength(Bases, Motifs(n - 1));
    }
  }

  /** A string is generated exactly when it has length n and uses only A, C, G and T. */
  lemma {:induction false} MotifsExactly(n: nat, w: string)
    ensures w in Motifs(n) <==> |w| == n && OverBases(w)
  {
    if n > 0 {
      GrowMembers(Bases, Motifs(n - 1), w);
      if |w| > 0 {
        MotifsExactly(n - 1, w[1..]);
        assert OverBases(w) <==> w[0] in Bases && OverBases(w[1..]) by {
          if w[0] in Bases && OverBases(w[1..]) {
            forall i | 0 <= i < |w| ensures w[i] in Bases {
              if i > 0 { assert w[i] == w[1..][i - 1]; }
            }
          }
          if OverBases(w) {
            forall i | 0 <= i < |w| - 1 ensures w[1..][i] in Bases {
              assert w[1..][i] == w[i + 1];
            }
          }
        }
      }
    }
  }

  /** No motif is generated twice. */
  lemma {:induction false} MotifsDistinct(n: nat)
    ensures Distinct(Motifs(n))
  {
    if n > 0 {
      MotifsDistinct(n - 1);
      assert Distinct(Bases);
      GrowDistinct(Bases, Motifs(n - 1));
    }
  }

  lemma {:induction false} DistinctCard<T>(s: seq<T>)
    requires Distinct(s)
    ensures |set x | x in s| == |s|
  {
    if s != [] {
      var init, last := s[..|s| - 1], s[|s| - 1];
      assert Distinct(init);
      DistinctCard(init);
      assert (set x | x in s) == (set x | x in init) + {last};
      assert last !in (set x | x in init);
    }
  }

  /** The generated table has exactly 4^n keys, each a length-n string over the bases, each mapped to 0. */
  lemma GeneratedTable(n: nat)
    ensures |ZeroTable(Motifs(n))| == Pow4(n)
    ensures forall w :: w in ZeroTable(Motifs(n)) <==> |w| == n && OverBases(w)
    ensures forall w :: w in ZeroTable(Motifs(n)) ==> ZeroTable(Motifs(n))[w] == 0
  {
    MotifsDistinct(n);
    MotifsCount(n);
    DistinctCard(Motifs(n));
    assert ZeroTable(Motifs(n)).Keys == set x | x in Motifs(n);
    forall w ensures w in ZeroTable(Motifs(n)) <==> |w| == n && OverBases(w) {
      MotifsExactly(n, w);
    }
  }

  /** Prefixing distributes over concatenation and composes. */
  lemma PrefixedGrowStep(p: string, k: nat, ms: seq<string>)
    requires k < |Bases|
    ensures Prefixed(p, Grow(Bases[..k + 1], ms))
         == Prefixed(p, Grow(Bases[..k], ms)) + Prefixed(p + [Bases[k]], ms)
  {
    assert Bases[..k + 1][..k] == Bases[..k];
    var head, block := Grow(Bases[..k], ms), Prefixed([Bases[k]], ms);
    assert Grow(Bases[..k + 1], ms) == head + block;
    var lhs, rhs := Prefixed(p, head + block), Prefixed(p, head) + Prefixed(p + [Bases[k]], ms);
    forall i | 0 <= i < |lhs| ensures lhs[i] == rhs[i] {
      if i >= |head| {
        assert p + ([Bases[k]] + ms[i - |head|]) == (p + [Bases[k]]) + ms[i - |head|];
      }
    }
  }

  /** One more base's block of generated motifs, added to a table. */
  lemma ZeroTableGrowStep(p: string, k: nat, ms: seq<string>)
    requires k < |Bases|
    ensures ZeroTable(Prefixed(p, Grow(Bases[..k], ms))) + ZeroTable(Prefixed(p + [Bases[k]], ms))
         == ZeroTable(Prefixed(p, Grow(Bases[..k + 1], ms)))
  {
    PrefixedGrowStep(p, k, ms);
    var a, b := Prefixed(p, Grow(Bases[..k], ms)), Prefixed(p + [Bases[k]], ms);
    assert ZeroTable(a + b) == ZeroTable(a) + ZeroTable(b);
  }

  /** The generator's table is every motif of length n, behind prefix `p`, with count 0. */
  lemma {:induction false} GeneratedIsZeroTable(p: string, n: nat)
    ensures Generated(p, n) == ZeroTable(Prefixed(p, Motifs(n)))
    decreases n, |Bases| + 1
  {
    if n == 0 {
      assert p + "" == p;
      assert Prefixed(p, [""]) == [p];
    } else {
      GeneratedFromIsZeroTable(p, n, |Bases|);
      assert Bases[..|Bases|] == Bases;
    }
  }

  lemma {:induction false} GeneratedFromIsZeroTable(p: string, n: nat, k: nat)
    requires 0 < n && k <= |Bases|
    ensures GeneratedFrom(p, n, k) == ZeroTable(Prefixed(p, Grow(Bases[..k], Motifs(n - 1))))
    decreases n, k
  {
    var rest := Motifs(n - 1);
    if k == 0 {
      assert Prefixed(p, Grow([], rest)) == [];
    } else {
      GeneratedFromIsZeroTable(p, n, k - 1);
      GeneratedIsZeroTable(p + [Bases[k - 1]], n - 1);
      ZeroTableGrowStep(p, k - 1, rest);
    }
  }

  lemma UnionAssociative(a: map<string, int>, b: map<string, int>, c: map<string, int>)
    ensures (a + b) + c == a + (b + c)
  {
  }

  lemma PrefixedEmpty(ms: seq<string>)
    ensures Prefixed([], ms) == ms
  {
    forall k | 0 <= k < |ms| ensures Prefixed([], ms)[k] == ms[k] {
      assert [] + ms[k] == ms[k];
    }
  }
}
