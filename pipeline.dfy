/**
 What the program's entry point relies on when it counts a corpus and then
 asks for the best motif: whatever order the table's entries come in, a
 motif is found, it has the highest count, and among the motifs with that
 count none has a longer run.
 */
module Pipeline {
  import opened Enumerate
  import opened Runs
  import opened Selection
  import opened Counting

  /** `entries` lists the pairs of `table`, each key once, in some iteration order. */
  predicate Lists(entries: seq<Entry>, table: map<string, int>) {
    && (forall i :: 0 <= i < |entries| ==> entries[i].motif in table && table[entries[i].motif] == entries[i].count)
    && (forall m :: m in table ==> exists i :: 0 <= i < |entries| && entries[i].motif == m)
    && (forall i, j :: 0 <= i < j < |entries| ==> entries[i].motif != entries[j].motif)
  }

  /**
   For a table without negative counts, listed in any order, a motif is
   selected exactly when the table is non-empty, and it is a key of maximal
   count whose run is not beaten by any other key of that count.
   */
  lemma BestOfTable(entries: seq<Entry>, table: map<string, int>)
    requires Lists(entries, table)
    requires forall m :: m in table ==> table[m] >= 0
    ensures BestMotif(entries).Some? <==> table != map[]
    ensures BestMotif(entries).Some? ==>
      var best := BestMotif(entries).value;
      && best in table
      && forall m :: m in table ==>
           table[m] < table[best] || (table[m] == table[best] && Repeats(m) <= Repeats(best))
  {
    BestMotifCharacterized(entries);
    NoneOnlyWhenEmpty(entries);
    if entries == [] {
      assert table == map[];
    } else {
      assert entries[0].motif in table;
      var k: nat :| IsFirstBest(entries, |entries|, k) && BestMotif(entries).value == entries[k].motif;
      forall m | m in table
        ensures table[m] < entries[k].count || (table[m] == entries[k].count && Repeats(m) <= Repeats(entries[k].motif))
      {
        var i :| 0 <= i < |entries| && entries[i].motif == m;
        assert !Above(RankOf(entries[i]), RankOf(entries[k]));
      }
    }
  }

  /**
   After counting any corpus, the selection finds a motif of length s, with
   the highest total count, and no longer run among motifs of equal count.
   */
  lemma CountedBest(entries: seq<Entry>, lines: seq<string>, s: nat)
    requires Lists(entries, CountTable(lines, s))
    ensures BestMotif(entries).Some?
    ensures var best := BestMotif(entries).value;
      && |best| == s && OverBases(best)
      && forall m :: |m| == s && OverBases(m) ==>
           Total(lines, m) < Total(lines, best)
           || (Total(lines, m) == Total(lines, best) && Repeats(m) <= Repeats(best))
  {
    var table := CountTable(lines, s);
    CountTableKeys(lines, s);
    MotifsCount(s);
    assert Motifs(s)[0] in table;
    BestOfTable(entries, table);
  }

  function Uniform(c: char, n: nat): (w: string)
    ensures |w| == n && forall k :: 0 <= k < n ==> w[k] == c
  {
    seq(n, _ => c)
  }

  /**
   On an empty corpus every count is 0, so the tie-break alone decides: the
   selected motif is s copies of a single base.
   */
  lemma EmptyCorpusBest(entries: seq<Entry>, s: nat)
    requires Lists(entries, CountTable([], s))
    ensures BestMotif(entries).Some?
    ensures var best := BestMotif(entries).value;
      |best| == s && forall k :: 0 <= k < s ==> best[k] == best[0]
  {
    CountedBest(entries, [], s);
    var best := BestMotif(entries).value;
    if s > 0 {
      var run := Uniform('A', s);
      assert OverBases(run);
      RepeatsFullIffUniform(run);
      RepeatsBounds(best);
      RepeatsFullIffUniform(best);
    }
  }

  /** The runs of the three motifs of the example below. */
  lemma ExampleRuns()
    ensures Repeats("AAT") == 2 && Repeats("GGC") == 2 && Repeats("TTT") == 3
  {
    var aat, ggc, ttt := "AAT", "GGC", "TTT";
    assert aat[0] == aat[1] != aat[2];
    assert RunTo(aat, 1) == 1 && RunTo(aat, 2) == 2 && RunTo(aat, 3) == 1;
    assert LongestRunBelow(aat, 1) == 1 && LongestRunBelow(aat, 2) == 2;
    assert ggc[0] == ggc[1] != ggc[2];
    assert RunTo(ggc, 1) == 1 && RunTo(ggc, 2) == 2 && RunTo(ggc, 3) == 1;
    assert LongestRunBelow(ggc, 1) == 1 && LongestRunBelow(ggc, 2) == 2;
    assert ttt[0] == ttt[1] == ttt[2];
    assert RunTo(ttt, 1) == 1 && RunTo(ttt, 2) == 2 && RunTo(ttt, 3) == 3;
    assert LongestRunBelow(ttt, 1) == 1 && LongestRunBelow(ttt, 2) == 2;
  }

  /** Two entries tie at the top rank and every other entry ranks below them: the earlier one wins. */
  lemma TiedPairFirstWins(entries: seq<Entry>, a: nat, b: nat, top: Rank)
    requires a < |entries| && b < |entries| && a != b
    requires RankOf(entries[a]) == top == RankOf(entries[b]) && Above(top, Floor)
    requires forall j :: 0 <= j < |entries| && j != a && j != b ==> Above(top, RankOf(entries[j]))
    ensures BestMotif(entries) == Some(entries[if a < b then a else b].motif)
  {
    var first := if a < b then a else b;
    assert IsFirstBest(entries, |entries|, first);
    BestMotifCharacterized(entries);
  }

  /** In the example table, an entry other than the "AAT" and "GGC" ones is the "TTT" entry, of rank (2, 3). */
  lemma ThirdEntryBelow(entries: seq<Entry>, iA: nat, iG: nat, j: nat)
    requires Lists(entries, map["AAT" := 5, "GGC" := 5, "TTT" := 2])
    requires iA < |entries| && entries[iA].motif == "AAT"
    requires iG < |entries| && entries[iG].motif == "GGC"
    requires j < |entries| && j != iA && j != iG
    ensures RankOf(entries[j]) == Rank(2, 3)
  {
    var m := entries[j].motif;
    assert m != "AAT" && m != "GGC";
    ExampleRuns();
  }

  /**
   The table {"AAT": 5, "GGC": 5, "TTT": 2}: "TTT" has the longest run (3)
   but a lower count, so it never wins; "AAT" and "GGC" both have a run of 2
   ("AA", "GG"), so they tie exactly and whichever comes first in the
   iteration order is selected.
   */
  lemma TieBreakExample(entries: seq<Entry>)
    requires Lists(entries, map["AAT" := 5, "GGC" := 5, "TTT" := 2])
    ensures BestMotif(entries) == Some("AAT") || BestMotif(entries) == Some("GGC")
    ensures forall i, j ::
      (0 <= i < |entries| && 0 <= j < |entries| && entries[i].motif == "AAT" && entries[j].motif == "GGC")
      ==> (BestMotif(entries) == Some("AAT") <==> i < j)
  {
    var table := map["AAT" := 5, "GGC" := 5, "TTT" := 2];
    assert "AAT" in table && "GGC" in table;
    var iA :| 0 <= iA < |entries| && entries[iA].motif == "AAT";
    var iG :| 0 <= iG < |entries| && entries[iG].motif == "GGC";
    var top := Rank(5, 2);
    assert RankOf(entries[iA]) == top == RankOf(entries[iG]) by {
      ExampleRuns();
    }
    forall j | 0 <= j < |entries| && j != iA && j != iG
      ensures Above(top, RankOf(entries[j]))
    {
      ThirdEntryBelow(entries, iA, iG, j);
    }
    TiedPairFirstWins(entries, iA, iG, top);
    forall i, j | 0 <= i < |entries| && 0 <= j < |entries| && entries[i].motif == "AAT" && entries[j].motif == "GGC"
      ensures BestMotif(entries) == Some("AAT") <==> i < j
    {
      assert i == iA && j == iG;
    }
  }
}
