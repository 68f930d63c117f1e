/**
 Overlap-inclusive occurrence counting of a motif in one corpus line: a
 window as wide as the motif slides over the line one position at a time,
 and every window equal to the motif is one occurrence.
 */
module Matching {

  /** The motif occurs in `text` starting at position `i`. */
  predicate MatchesAt(text: string, motif: string, i: int) {
    0 <= i && i + |motif| <= |text| && text[i..i + |motif|] == motif
  }

  /** How many window positions the scan tries: |text| - |motif| + 1, or none when the motif is longer. */
  function Windows(text: string, motif: string): nat {
    if |motif| <= |text| then |text| - |motif| + 1 else 0
  }

  /** Number of matching window positions below `n`. */
  function MatchesBelow(text: string, motif: string, n: nat): (r: nat)
    ensures r <= n
  {
    if n == 0 then 0
    else MatchesBelow(text, motif, n - 1) + (if MatchesAt(text, motif, n - 1) then 1 else 0)
  }

  /** The count the scan returns. */
  function Occurrences(text: string, motif: string): nat {
    MatchesBelow(text, motif, Windows(text, motif))
  }

  /** The set of start positions at which the motif occurs. */
  ghost function MatchPositions(text: string, motif: string): set<int> {
    set i | 0 <= i <= |text| - |motif| && MatchesAt(text, motif, i)
  }

  /** The matching positions below `n` are those below `n - 1` and, when it matches, `n - 1` itself. */
  lemma PositionsStep(text: string, motif: string, n: nat)
    requires n > 0
    ensures (set i | 0 <= i < n && MatchesAt(text, motif, i))
         == (set i | 0 <= i < n - 1 && MatchesAt(text, motif, i))
          + (if MatchesAt(text, motif, n - 1) then {n - 1} else {})
  {
  }

  lemma {:induction false} MatchesBelowCounts(text: string, motif: string, n: nat)
    ensures MatchesBelow(text, motif, n) == |set i | 0 <= i < n && MatchesAt(text, motif, i)|
  {
    if n > 0 {
      MatchesBelowCounts(text, motif, n - 1);
      PositionsStep(text, motif, n);
      var below := set i | 0 <= i < n - 1 && MatchesAt(text, motif, i);
      var last := if MatchesAt(text, motif, n - 1) then {n - 1} else {};
      assert below !! last;
    }
  }

  /** The count is the number of positions i, 0 <= i <= |text| - |motif|, where the motif occurs; matches may overlap. */
  lemma OccurrencesArePositions(text: string, motif: string)
    ensures Occurrences(text, motif) == |MatchPositions(text, motif)|
  {
    MatchesBelowCounts(text, motif, Windows(text, motif));
    assert MatchPositions(text, motif)
        == set i | 0 <= i < Windows(text, motif) && MatchesAt(text, motif, i);
  }

  /** A motif longer than the line never occurs; otherwise there are at most |text| - |motif| + 1 occurrences. */
  lemma OccurrencesBounds(text: string, motif: string)
    ensures |motif| > |text| ==> Occurrences(text, motif) == 0
    ensures |motif| <= |text| ==> Occurrences(text, motif) <= |text| - |motif| + 1
  {
  }

  lemma {:induction false} AllMatchBelow(text: string, motif: string, n: nat)
    requires forall i :: 0 <= i < n ==> MatchesAt(text, motif, i)
    ensures MatchesBelow(text, motif, n) == n
  {
    if n > 0 {
      AllMatchBelow(text, motif, n - 1);
    }
  }

  /** The empty motif occurs at every one of the |text| + 1 positions. */
  lemma EmptyMotifEverywhere(text: string)
    ensures Occurrences(text, "") == |text| + 1
  {
    forall i | 0 <= i < |text| + 1 ensures MatchesAt(text, "", i) {
      assert text[i..i] == "";
    }
    AllMatchBelow(text, "", |text| + 1);
  }

  /** Counting is overlap-inclusive: k repeats of a character occur n - k + 1 times in n repeats of it. */
  lemma UniformOccurrences(c: char, n: nat, k: nat)
    requires k <= n
    ensures Occurrences(seq(n, _ => c), seq(k, _ => c)) == n - k + 1
  {
    var text, motif := seq(n, _ => c), seq(k, _ => c);
    forall i | 0 <= i < n - k + 1 ensures MatchesAt(text, motif, i) {
      assert text[i..i + k] == motif;
    }
    AllMatchBelow(text, motif, n - k + 1);
  }

  /** "AA" occurs twice in "AAA". */
  lemma OverlapExample()
    ensures Occurrences("AAA", "AA") == 2
  {
    UniformOccurrences('A', 3, 2);
    assert seq(3, _ => 'A') == "AAA";
    assert seq(2, _ => 'A') == "AA";
  }
}
