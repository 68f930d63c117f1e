/**
 Best-motif selection over the entries of a count table, taken in the
 table's iteration order. An entry replaces the current best only when it
 ranks strictly higher by (count, longest run); the scan starts from the
 rank (0, 0) with no motif chosen.
 */
module Selection {
  import opened Runs

  datatype Option<T> = None | Some(value: T)

  /** One (motif, count) pair of the table. */
  datatype Entry = Entry(motif: string, count: int)

  /** The ranking key: the count first, then the longest run. */
  datatype Rank = Rank(count: int, repeats: int)

  /** The rank the scan starts from. */
  const Floor: Rank := Rank(0, 0)

  /** `a` ranks strictly higher than `b`. */
  predicate Above(a: Rank, b: Rank) {
    a.count > b.count || (a.count == b.count && a.repeats > b.repeats)
  }

  function RankOf(e: Entry): Rank {
    Rank(e.count, Repeats(e.motif))
  }

  /** Rank of the current best: that of its entry, or Floor when none is chosen. */
  function Leader(entries: seq<Entry>, c: Option<nat>): Rank
    requires c.Some? ==> c.value < |entries|
  {
    match c
    case None => Floor
    case Some(k) => RankOf(entries[k])
  }

  function MotifOf(entries: seq<Entry>, c: Option<nat>): Option<string>
    requires c.Some? ==> c.value < |entries|
  {
    match c
    case None => None
    case Some(k) => Some(entries[k].motif)
  }

  /** Index of the current best after the scan has looked at the first `n` entries. */
  function Champion(entries: seq<Entry>, n: nat): (c: Option<nat>)
    requires n <= |entries|
    ensures c.Some? ==> c.value < n
  {
    if n == 0 then None
    else
      var c := Champion(entries, n - 1);
      if Above(RankOf(entries[n - 1]), Leader(entries, c)) then Some(n - 1) else c
  }

  /** The motif the whole scan settles on, if any. */
  function BestMotif(entries: seq<Entry>): Option<string> {
    MotifOf(entries, Champion(entries, |entries|))
  }

  /**
   Entry `k` of the first `n` is the first maximal one: it ranks above Floor,
   none of the first `n` ranks above it, and it ranks above every earlier one.
   */
  ghost predicate IsFirstBest(entries: seq<Entry>, n: nat, k: nat)
    requires n <= |entries|
  {
    && k < n
    && Above(RankOf(entries[k]), Floor)
    && (forall j :: 0 <= j < n ==> !Above(RankOf(entries[j]), RankOf(entries[k])))
    && (forall j :: 0 <= j < k ==> Above(RankOf(entries[k]), RankOf(entries[j])))
  }

  /** At most one entry is the first maximal one. */
  lemma FirstBestUnique(entries: seq<Entry>, n: nat, k1: nat, k2: nat)
    requires n <= |entries|
    requires IsFirstBest(entries, n, k1) && IsFirstBest(entries, n, k2)
    ensures k1 == k2
  {
  }

  /** One step of the scan keeps the first maximal entry, or moves it to the new entry when that one ranks higher. */
  lemma ChampionStep(entries: seq<Entry>, n: nat)
    requires 0 < n <= |entries|
    requires Champion(entries, n - 1) == None
        <==> forall j :: 0 <= j < n - 1 ==> !Above(RankOf(entries[j]), Floor)
    requires Champion(entries, n - 1).Some? ==> IsFirstBest(entries, n - 1, Champion(entries, n - 1).value)
    ensures Champion(entries, n) == None
        <==> forall j :: 0 <= j < n ==> !Above(RankOf(entries[j]), Floor)
    ensures Champion(entries, n).Some? ==> IsFirstBest(entries, n, Champion(entries, n).value)
  {
    var c := Champion(entries, n - 1);
    var e := RankOf(entries[n - 1]);
    if Above(e, Leader(entries, c)) {
      assert IsFirstBest(entries, n, n - 1);
    } else if c.Some? {
      assert IsFirstBest(entries, n, c.value);
    }
  }

  /** After `n` entries the scan holds the first maximal one, or nothing when none ranks above Floor. */
  lemma {:induction false} ChampionIsFirstBest(entries: seq<Entry>, n: nat)
    requires n <= |entries|
    ensures Champion(entries, n) == None
        <==> forall j :: 0 <= j < n ==> !Above(RankOf(entries[j]), Floor)
    ensures Champion(entries, n).Some? ==> IsFirstBest(entries, n, Champion(entries, n).value)
  {
    if n > 0 {
      ChampionIsFirstBest(entries, n - 1);
      ChampionStep(entries, n);
    }
  }

  /**
   The scan returns nothing exactly when every count is negative (every run
   length is at least 1, so a count of 0 already beats the starting rank);
   otherwise it returns the motif of the first entry of maximal rank.
   */
  lemma BestMotifCharacterized(entries: seq<Entry>)
    ensures BestMotif(entries) == None <==> forall j :: 0 <= j < |entries| ==> entries[j].count < 0
    ensures BestMotif(entries).Some? ==>
      exists k: nat :: IsFirstBest(entries, |entries|, k) && BestMotif(entries).value == entries[k].motif
    ensures forall k: nat :: IsFirstBest(entries, |entries|, k) ==> BestMotif(entries) == Some(entries[k].motif)
  {
    ChampionIsFirstBest(entries, |entries|);
    forall j | 0 <= j < |entries|
      ensures !Above(RankOf(entries[j]), Floor) <==> entries[j].count < 0
    {
      RepeatsBounds(entries[j].motif);
    }
    forall k: nat | IsFirstBest(entries, |entries|, k)
      ensures BestMotif(entries) == Some(entries[k].motif)
    {
      FirstBestUnique(entries, |entries|, k, Champion(entries, |entries|).value);
    }
  }

  /** With no negative counts the scan returns nothing exactly for an empty table. */
  lemma NoneOnlyWhenEmpty(entries: seq<Entry>)
    requires forall j :: 0 <= j < |entries| ==> entries[j].count >= 0
    ensures BestMotif(entries) == None <==> entries == []
  {
    BestMotifCharacterized(entries);
  }
}
