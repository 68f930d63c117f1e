/**
 The motif count table of a corpus: every motif of length `s` mapped to its
 total number of occurrences over all lines.
 */
module Counting {
  import opened Enumerate
  import opened Matching

  /** Occurrences of `motif` summed over the lines, first line first. */
  function Total(lines: seq<string>, motif: string): nat {
    if lines == [] then 0
    else Total(lines[..|lines| - 1], motif) + Occurrences(lines[|lines| - 1], motif)
  }

  /** The table the counter returns for a corpus and a motif length. */
  function CountTable(lines: seq<string>, s: nat): map<string, int> {
    map m | m in Motifs(s) :: Total(lines, m)
  }

  /** One corpus line's occurrences added to every count of a table; no key is added or removed. */
  function AddLine(table: map<string, int>, line: string): map<string, int> {
    map m | m in table :: table[m] + Occurrences(line, m)
  }

  /** A table that agrees with `AddLine(before, line)` on every key is that table. */
  lemma AddLineAt(after: map<string, int>, before: map<string, int>, line: string)
    requires after.Keys == before.Keys
    requires forall m :: m in before ==> after[m] == before[m] + Occurrences(line, m)
    ensures after == AddLine(before, line)
  {
  }

  /** The generator's table, built from the empty prefix, is the table of the empty corpus prefix. */
  lemma InitialTable(lines: seq<string>, s: nat)
    ensures map[] + Generated([], s) == CountTable(lines[..0], s)
  {
    GeneratedIsZeroTable([], s);
    PrefixedEmpty(Motifs(s));
    assert lines[..0] == [];
  }

  /** A motif's total over one more line grows by that line's occurrences. */
  lemma TotalStep(lines: seq<string>, i: nat, motif: string)
    requires i < |lines|
    ensures Total(lines[..i + 1], motif) == Total(lines[..i], motif) + Occurrences(lines[i], motif)
  {
    assert lines[..i + 1][..i] == lines[..i];
  }

  /** Counting one more line adds that line's occurrences to each motif's total. */
  lemma CountTableStep(lines: seq<string>, s: nat, i: nat)
    requires i < |lines|
    ensures CountTable(lines[..i + 1], s) == AddLine(CountTable(lines[..i], s), lines[i])
  {
    var after, before := CountTable(lines[..i + 1], s), CountTable(lines[..i], s);
    forall m | m in before
      ensures after[m] == before[m] + Occurrences(lines[i], m)
    {
      TotalStep(lines, i, m);
    }
    AddLineAt(after, before, lines[i]);
  }

  /**
   The table's keys are exactly the 4^s motifs of length s over A, C, G, T
   (motifs that never occur included), and every count is the non-negative total.
   */
  lemma CountTableKeys(lines: seq<string>, s: nat)
    ensures |CountTable(lines, s)| == Pow4(s)
    ensures forall w :: w in CountTable(lines, s) <==> |w| == s && OverBases(w)
    ensures forall w :: w in CountTable(lines, s) ==> CountTable(lines, s)[w] == Total(lines, w) >= 0
  {
    GeneratedTable(s);
    assert CountTable(lines, s).Keys == ZeroTable(Motifs(s)).Keys;
  }

  /** An empty corpus leaves every count at 0. */
  lemma EmptyCorpusTable(s: nat)
    ensures CountTable([], s) == ZeroTable(Motifs(s))
  {
  }

  /** Counting a corpus split in two and adding the tables gives the counts of the whole corpus. */
  lemma {:induction false} TotalSplit(a: seq<string>, b: seq<string>, motif: string)
    ensures Total(a + b, motif) == Total(a, motif) + Total(b, motif)
    decreases |b|
  {
    if b == [] {
      assert a + b == a;
    } else {
      var init, last := b[..|b| - 1], b[|b| - 1];
      assert (a + b)[..|a + b| - 1] == a + init;
      assert (a + b)[|a + b| - 1] == last;
      TotalSplit(a, init, motif);
      assert Total(a + b, motif) == Total(a + init, motif) + Occurrences(last, motif);
      assert Total(b, motif) == Total(init, motif) + Occurrences(last, motif);
    }
  }

  /** A single line contributes exactly its own occurrence count. */
  lemma TotalOfOneLine(line: string, motif: string)
    ensures Total([line], motif) == Occurrences(line, motif)
  {
    assert [line][..0] == [];
  }
}
