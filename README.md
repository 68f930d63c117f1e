# Motif finder, modelled in Dafny

This project models the brute-force motif counter of `Workshops/Workshop_1/MotifFinder.java`.
The counter works in four steps:

- It enumerates every string of length `s` over the bases A, C, G and T by
  overwriting positions of one shared character buffer, and puts each one into
  a table with count 0.
- For each line of a corpus, it adds to every motif of the table the number of
  times that motif occurs in the line. Occurrences may overlap.
- It scans the table for the motif that is largest by (count, longest run of
  one repeated character). The comparisons are strict, so the first maximal
  entry in the table's iteration order wins.
- It computes that run length with a single left-to-right scan.

The code is imperative, and so is the model. Module `MotifFinder` has the
shared table as a class `MotifTable` whose `counts` map the methods update in
place. The shared `StringBuilder` is an `array<char>`. Each Java method is a
Dafny method with the same loops and branches. Each method is proved against a
specification function in one of the other modules:

- `Enumerate`: `Motifs(n)` lists the motifs in generation order, and
  `Generated(p, n)` follows the generator's recursion.
- `Matching`: `Occurrences` counts the matching windows.
- `Runs`: `Repeats` is the longest run.
- `Selection`: `Champion` and `BestMotif` give the scan's choice over an
  explicit entry order.
- `Counting`: `Total` and `CountTable` give the counts after a corpus.

Lemmas in those modules, and in `Pipeline`, prove what the program promises
about these functions.

The corpus file is modelled as a sequence of lines. The table's key-set
iteration inside `countMotifs` visits the keys in an arbitrary order: the
method picks any key not yet visited. The entry-set iteration inside
`findBestMotif` is modelled as an explicit sequence of (motif, count) entries,
each key once, in any order.

A description of this program gives a selection example. It says that in the
table {"AAT": 5, "GGC": 5, "TTT": 2}, "AAT" wins because "GGC" has a run of 1.
The code gives "GGC" a run of 2 ("GG"). So "AAT" and "GGC" tie exactly, and the
iteration order decides. `Pipeline.TieBreakExample` states what the code
actually does.

## Model

| member | source | states |
|---|---|---|
| MotifFinder.MotifTable.constructor | Workshops/Workshop_1/MotifFinder.java:56 | the table starts empty |
| MotifFinder.GenerateMotifs | Workshops/Workshop_1/MotifFinder.java:34-45 | given a buffer of length s and index <= s, every buffer write is in bounds; positions before index are left unchanged; the table gains exactly `Generated(prefix, s - index)`, the recursion's zero-count table |
| MotifFinder.CountMotifs | Workshops/Workshop_1/MotifFinder.java:55-78 | for a corpus of lines and motif size s, the returned table is `CountTable(lines, s)`: every motif of length s mapped to its total over all lines |
| MotifFinder.CountLine | Workshops/Workshop_1/MotifFinder.java:71-74 | visiting the keys in any order and adding each key's occurrences in the line yields `AddLine(old table, line)`; no key is added or removed |
| MotifFinder.CountOccurrences | Workshops/Workshop_1/MotifFinder.java:87-96 | the sliding-window count equals `Occurrences(sequence, motif)` |
| MotifFinder.FindBestMotif | Workshops/Workshop_1/MotifFinder.java:104-123 | the scan with strict comparisons returns `BestMotif(entries)`, the motif of the entry that `Champion` picks, or None |
| MotifFinder.CountConsecutiveRepeats | Workshops/Workshop_1/MotifFinder.java:131-148 | the scan returns `Repeats(motif)`, which is 1 for the empty motif |
| Enumerate.MotifsCount | Workshops/Workshop_1/MotifFinder.java:34-45 | there are exactly 4^n generated motifs; for n = 0 there is one |
| Enumerate.MotifsExactly | Workshops/Workshop_1/MotifFinder.java:34-45 | a string is generated if and only if it has length n and uses only A, C, G, T |
| Enumerate.MotifsDistinct | Workshops/Workshop_1/MotifFinder.java:34-45 | no motif is generated twice |
| Enumerate.GeneratedTable | Workshops/Workshop_1/MotifFinder.java:34-45 | the zero table over the generated motifs has 4^n keys, exactly the length-n strings over the bases, each with count 0 |
| Enumerate.GeneratedIsZeroTable | Workshops/Workshop_1/MotifFinder.java:34-45 | what the recursion from prefix p inserts is p followed by every generated motif, each with count 0 |
| Enumerate.GeneratedFromIsZeroTable | Workshops/Workshop_1/MotifFinder.java:41-44 | after the first k bases of the loop, the inserted keys are p followed by those bases' blocks of motifs, in order, each with count 0 |
| Matching.MatchesBelowCounts | Workshops/Workshop_1/MotifFinder.java:90-94 | the count over the first n windows is the number of matching start positions below n |
| Matching.OccurrencesArePositions | Workshops/Workshop_1/MotifFinder.java:87-95 | the count is the number of positions 0 <= i <= \|seq\| - \|motif\| where the motif occurs; overlapping matches all count |
| Matching.OccurrencesBounds | Workshops/Workshop_1/MotifFinder.java:90-94 | a motif longer than the line occurs 0 times; otherwise the count is at most \|seq\| - \|motif\| + 1 |
| Matching.AllMatchBelow | Workshops/Workshop_1/MotifFinder.java:90-94 | when every one of the first n windows matches, the count over them is n |
| Matching.EmptyMotifEverywhere | Workshops/Workshop_1/MotifFinder.java:90-94 | the empty motif occurs \|seq\| + 1 times |
| Matching.UniformOccurrences | Workshops/Workshop_1/MotifFinder.java:90-94 | k copies of a character occur n - k + 1 times in n copies of it |
| Matching.OverlapExample | Workshops/Workshop_1/MotifFinder.java:90-94 | "AA" occurs twice in "AAA" |
| Runs.RunToIsMaximal | Workshops/Workshop_1/MotifFinder.java:136-142 | the current-run counter after position e is the length of a run ending there, and no run ending there is longer |
| Runs.LongestRunBelowIsLongest | Workshops/Workshop_1/MotifFinder.java:136-145 | the running maximum over the first n positions is the length of some run within them, and no run within them is longer |
| Runs.RepeatsIsLongestRun | Workshops/Workshop_1/MotifFinder.java:131-148 | for a non-empty motif the result is the length of some run of one character, and no run is longer |
| Runs.RepeatsBounds | Workshops/Workshop_1/MotifFinder.java:131-148 | the result is at least 1; for a non-empty motif it is at most \|m\| |
| Runs.RepeatsFullIffUniform | Workshops/Workshop_1/MotifFinder.java:131-148 | a non-empty motif scores \|m\| if and only if all its characters are equal |
| Selection.ChampionStep | Workshops/Workshop_1/MotifFinder.java:116-120 | one step of the scan keeps the first maximal entry, or moves to the new entry when it ranks strictly higher |
| Selection.ChampionIsFirstBest | Workshops/Workshop_1/MotifFinder.java:110-121 | after n entries the scan holds nothing if and only if none ranks above (0, 0); otherwise it holds the first maximal entry |
| Selection.FirstBestUnique | Workshops/Workshop_1/MotifFinder.java:116 | at most one entry is the first maximal one |
| Selection.BestMotifCharacterized | Workshops/Workshop_1/MotifFinder.java:104-123 | the result is null if and only if every count is negative; otherwise it is the motif of the first entry of maximal (count, repeats), and that entry determines it |
| Selection.NoneOnlyWhenEmpty | Workshops/Workshop_1/MotifFinder.java:104-123 | with non-negative counts the result is null if and only if the table is empty |
| Counting.InitialTable | Workshops/Workshop_1/MotifFinder.java:64 | the table the generator leaves is the count table of no lines |
| Counting.TotalStep | Workshops/Workshop_1/MotifFinder.java:72-73 | one more line adds that line's occurrences to a motif's total |
| Counting.CountTableStep | Workshops/Workshop_1/MotifFinder.java:69-75 | counting one more line adds its occurrences to every key's count and keeps the key set |
| Counting.CountTableKeys | Workshops/Workshop_1/MotifFinder.java:64-77 | the returned table has 4^s keys, exactly the length-s strings over the bases; each count is the line total and is non-negative |
| Counting.EmptyCorpusTable | Workshops/Workshop_1/MotifFinder.java:64-77 | an empty corpus leaves every count at 0 |
| Counting.TotalSplit | Workshops/Workshop_1/MotifFinder.java:69-75 | the total over a corpus split in two is the sum of the two parts' totals |
| Counting.TotalOfOneLine | Workshops/Workshop_1/MotifFinder.java:72-73 | a one-line corpus gives that line's occurrence count |
| Pipeline.BestOfTable | Workshops/Workshop_1/MotifFinder.java:104-122 | for a table with non-negative counts listed in any order, a motif is returned if and only if the table is non-empty; it is a key of maximal count, and no key with that count has a longer run |
| Pipeline.CountedBest | Workshops/Workshop_1/MotifFinder.java:17-19 | after counting any corpus, a motif is always found; it has length s and uses only A, C, G, T; no motif of length s has a higher total, or an equal total and a longer run |
| Pipeline.EmptyCorpusBest | Workshops/Workshop_1/MotifFinder.java:104-122 | with an empty corpus the chosen motif is s copies of a single base |
| Pipeline.ExampleRuns | Workshops/Workshop_1/MotifFinder.java:131-148 | "AAT" and "GGC" have run 2 and "TTT" has run 3 |
| Pipeline.TiedPairFirstWins | Workshops/Workshop_1/MotifFinder.java:116-120 | when two entries tie at the top rank and all others rank lower, the earlier of the two is returned |
| Pipeline.TieBreakExample | Workshops/Workshop_1/MotifFinder.java:116-120 | in {"AAT": 5, "GGC": 5, "TTT": 2}, "TTT" never wins; "AAT" is returned exactly when it comes before "GGC" in iteration order, and "GGC" otherwise |

## Left out

- `NucleotideDatabase.java` (corpus generation) is not part of this model. It uses random sampling, floating-point entropy and file output.
- Reading the corpus file (`BufferedReader`, `FileReader`) and the `IOException` it may throw are not modelled. The corpus is an input sequence of lines.
- `main` and its console output are not modelled. `Pipeline.CountedBest` states what `main` relies on when it chains the two calls.
- `HashMap` hashing and its concrete iteration order are not modelled. The table is a `map`. Key-set iteration visits the keys in an arbitrary order. Entry-set iteration is an explicit sequence of entries.
- MotifFinder.GenerateMotifs: the motif size is a `nat`. A negative `s` makes Java's `new StringBuilder(s)` throw, and that path is not modelled.
- MotifFinder.CountMotifs: counts are unbounded integers. Java's 32-bit `int` would wrap past 2^31 - 1 occurrences of one motif, and that overflow is not modelled.
- MotifFinder.CountOccurrences: the count is an unbounded integer. A line long enough to overflow a Java `int` is not modelled.
- MotifFinder.FindBestMotif: counts are unbounded integers, so the comparisons never see a wrapped value.
- Performance (about L · 4^s · s character comparisons) is not modelled. Only termination is proved.
