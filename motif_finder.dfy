/**
 The motif finder's operations as imperative code: the recursive generator
 that overwrites one shared character buffer and inserts into one shared
 table, the counter that updates table entries in place, the sliding-window
 scan, the best-motif scan and the repeat scan. Each is proved against the
 specification functions of the modules it imports.
 */
module MotifFinder {
  import opened Enumerate
  import opened Matching
  import opened Runs
  import opened Selection
  import opened Counting

  /** The shared motif table that the generator fills and the counter updates. */
  class MotifTable {
    var counts: map<string, int>

    constructor ()
      ensures counts == map[]
    {
      counts := map[];
    }
  }

  /**
   Fills positions `index..s` of `current` with every combination of bases,
   and puts each finished string into the table with count 0. Positions
   before `index` are left as they were, and every write is in bounds.
   */
  method GenerateMotifs(s: nat, current: array<char>, index: nat, motifCounts: MotifTable)
    requires current.Length == s && index <= s
    modifies current, motifCounts
    ensures current[..index] == old(current[..index])
    ensures motifCounts.counts == old(motifCounts.counts) + Generated(old(current[..index]), s - index)
    decreases s - index
  {
    if index == s {
      assert current[..] == current[..index];
      motifCounts.counts := motifCounts.counts[current[..] := 0];
      return;
    }
    ghost var prefix := current[..index];
    ghost var start := motifCounts.counts;
    for k := 0 to |Bases|
      invariant current[..index] == prefix
      invariant motifCounts.counts == start + GeneratedFrom(prefix, s - index, k)
    {
      var base := Bases[k];
      current[index] := base;
      assert current[..index + 1] == prefix + [base];
      GenerateMotifs(s, current, index + 1, motifCounts);
      UnionAssociative(start, GeneratedFrom(prefix, s - index, k), Generated(prefix + [base], s - index - 1));
      assert current[..index] == current[..index + 1][..index];
    }
  }

  /**
   The table for a corpus given as its lines: every motif of length `s`
   with its total occurrence count over all lines.
   */
  method CountMotifs(lines: seq<string>, s: nat) returns (motifCounts: map<string, int>)
    ensures motifCounts == CountTable(lines, s)
  {
    var table := new MotifTable();
    var motifBuilder := new char[s];
    for i := 0 to s
      modifies motifBuilder
    {
      motifBuilder[i] := 'A';
    }
    assert motifBuilder[..0] == [];
    GenerateMotifs(s, motifBuilder, 0, table);
    InitialTable(lines, s);
    for i := 0 to |lines|
      invariant table.counts == CountTable(lines[..i], s)
    {
      CountLine(table, lines[i]);
      CountTableStep(lines, s, i);
    }
    assert lines[..|lines|] == lines;
    motifCounts := table.counts;
  }

  /** Adds each motif's occurrences in `line` to its count, visiting the keys in any order. */
  method CountLine(table: MotifTable, line: string)
    modifies table
    ensures table.counts == AddLine(old(table.counts), line)
  {
    ghost var before := table.counts;
    var remaining := table.counts.Keys;
    while remaining != {}
      invariant remaining <= before.Keys
      invariant table.counts.Keys == before.Keys
      invariant forall m :: m in before ==>
        table.counts[m] == before[m] + (if m in remaining then 0 else Occurrences(line, m))
      decreases remaining
    {
      var motif :| motif in remaining;
      var count := CountOccurrences(line, motif);
      table.counts := table.counts[motif := table.counts[motif] + count];
      remaining := remaining - {motif};
    }
    AddLineAt(table.counts, before, line);
  }

  /** Number of (possibly overlapping) occurrences of `motif` in `sequence`. */
  method CountOccurrences(sequence: string, motif: string) returns (count: int)
    ensures count == Occurrences(sequence, motif)
  {
    count := 0;
    var i := 0;
    while i <= |sequence| - |motif|
      invariant 0 <= i <= Windows(sequence, motif)
      invariant count == MatchesBelow(sequence, motif, i)
      decreases |sequence| - |motif| - i
    {
      if sequence[i..i + |motif|] == motif {
        count := count + 1;
      }
      i := i + 1;
    }
  }

  /** The motif of the first entry, in iteration order, of maximal (count, longest run). */
  method FindBestMotif(entries: seq<Entry>) returns (bestMotif: Option<string>)
    ensures bestMotif == BestMotif(entries)
  {
    bestMotif := None;
    var maxCount := 0;
    var maxRepeats := 0;
    for i := 0 to |entries|
      invariant Rank(maxCount, maxRepeats) == Leader(entries, Champion(entries, i))
      invariant bestMotif == MotifOf(entries, Champion(entries, i))
    {
      var motif := entries[i].motif;
      var count := entries[i].count;
      var repeats := CountConsecutiveRepeats(motif);
      if count > maxCount || (count == maxCount && repeats > maxRepeats) {
        bestMotif := Some(motif);
        maxCount := count;
        maxRepeats := repeats;
      }
    }
  }

  /** Length of the longest run of one repeated character in `motif` (1 when it is empty). */
  method CountConsecutiveRepeats(motif: string) returns (maxRepeats: int)
    ensures maxRepeats == Repeats(motif)
  {
    maxRepeats := 0;
    var currentRepeats := 1;
    var i := 1;
    while i < |motif|
      invariant |motif| == 0 ==> i == 1 && maxRepeats == 0 && currentRepeats == 1
      invariant |motif| > 0 ==> 1 <= i <= |motif| && currentRepeats == RunTo(motif, i)
      invariant |motif| > 0 ==> Max(maxRepeats, currentRepeats) == LongestRunBelow(motif, i)
    {
      if motif[i] == motif[i - 1] {
        currentRepeats := currentRepeats + 1;
      } else {
        maxRepeats := Max(maxRepeats, currentRepeats);
        currentRepeats := 1;
      }
      i := i + 1;
    }
    maxRepeats := Max(maxRepeats, currentRepeats);
  }
}
