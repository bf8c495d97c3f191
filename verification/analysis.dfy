/**
 The driver on top of the world: the year loop of run_simulation and the
 flattening of the yearly death ages done by extract_death_ages. Saving the
 records as a table is output only and has no counterpart here.
 */
module Analysis {
  import opened SimConfig
  import opened Worlds

  /** What holds of the world r after the first `year` years of a run that
      started from w: the world is valid and has the same grid, one record per
      year was appended and numbered by its year, cumulative deaths did not fall,
      and from a fresh world nobody is older than the year and every record splits
      its population into original blobs and newborns. */
  predicate Progress(cfg: Config, w: World, r: World, year: nat) {
    && ValidWorld(cfg, r)
    && r.size == w.size && r.grid == w.grid && r.reproduction == w.reproduction
    && |r.trees| == |w.trees|
    && |r.stats| == |w.stats| + year && r.stats[..|w.stats|] == w.stats
    && (forall k :: |w.stats| <= k < |r.stats| ==> r.stats[k].year == k - |w.stats|)
    && LastCumulativeDeaths(w.stats) <= LastCumulativeDeaths(r.stats)
    && (Fresh(w) ==> AgesAtMost(r.blobs, year))
    && (Fresh(w) ==> forall k :: 0 <= k < |r.stats| ==>
          r.stats[k].aliveOriginal + r.stats[k].aliveNewborns == r.stats[k].alive)
  }

  /** One more year keeps the progress of a run, given what World.step promises
      of the world it leaves. */
  lemma ProgressStep(cfg: Config, w: World, r: World, next: World, year: nat)
    requires Progress(cfg, w, r, year)
    requires ValidWorld(cfg, next)
    requires next.size == r.size && next.grid == r.grid && next.reproduction == r.reproduction
    requires |next.trees| == |r.trees|
    requires |next.stats| == |r.stats| + 1 && next.stats[..|r.stats|] == r.stats
    requires next.stats[|r.stats|].year == year
    requires LastCumulativeDeaths(r.stats) <= LastCumulativeDeaths(next.stats)
    requires Fresh(w) ==> AgesAtMost(next.blobs, year + 1)
    requires Fresh(w) ==> next.stats[|r.stats|].aliveOriginal + next.stats[|r.stats|].aliveNewborns
                          == next.stats[|r.stats|].alive
    ensures Progress(cfg, w, next, year + 1)
  {
    assert next.stats[..|w.stats|] == w.stats by {
      assert next.stats[..|w.stats|] == r.stats[..|w.stats|];
    }
    forall k | 0 <= k < |r.stats|
      ensures next.stats[k] == r.stats[k]
    {
      assert next.stats[k] == next.stats[..|r.stats|][k];
    }
  }

  /** One year of World.step keeps the progress of a run. */
  lemma YearProgress(cfg: Config, w: World, r: World, n: nat, draws: YearDraws)
    requires n > 0 && Progress(cfg, w, r, n - 1)
    ensures Progress(cfg, w, WorldStep(cfg, r, n - 1, draws), n)
  {
    var next := WorldStep(cfg, r, n - 1, draws);
    YearHeadCount(cfg, r, n - 1, draws);
    if Fresh(w) {
      YearAgeSplit(cfg, r, n - 1, draws);
    }
    ProgressStep(cfg, w, r, next, n - 1);
  }

  /** The world after the first n years of a run from w: year y is stepped with
      the draws draws(y), in increasing order of y. It has made the progress of n
      years. */
  function Run(cfg: Config, w: World, n: nat, draws: nat -> YearDraws): (r: World)
    requires ValidWorld(cfg, w)
    ensures Progress(cfg, w, r, n)
    decreases n
  {
    if n == 0 then
      assert w.stats[..|w.stats|] == w.stats;
      w
    else
      YearProgress(cfg, w, Run(cfg, w, n - 1, draws), n, draws(n - 1));
      WorldStep(cfg, Run(cfg, w, n - 1, draws), n - 1, draws(n - 1))
  }

  /** run_simulation: steps the world once for each year 0, 1, ..., years - 1 in
      increasing order, year y with the draws draws(y). Every step appends one
      record, so the records written by the run are numbered by their year; from
      a fresh world every record splits its population into original blobs and
      newborns without remainder. */
  method RunSimulation(cfg: Config, w: World, years: nat, draws: nat -> YearDraws) returns (r: World)
    requires ValidWorld(cfg, w)
    ensures r == Run(cfg, w, years, draws)
    ensures ValidWorld(cfg, r)
    ensures r.size == w.size && r.grid == w.grid && r.reproduction == w.reproduction
    ensures |r.trees| == |w.trees|
    ensures |r.stats| == |w.stats| + years && r.stats[..|w.stats|] == w.stats
    ensures forall k :: |w.stats| <= k < |r.stats| ==> r.stats[k].year == k - |w.stats|
    ensures LastCumulativeDeaths(w.stats) <= LastCumulativeDeaths(r.stats)
    ensures Fresh(w) ==> forall k :: 0 <= k < |r.stats| ==>
      r.stats[k].aliveOriginal + r.stats[k].aliveNewborns == r.stats[k].alive
  {
    r := w;
    var year := 0;
    while year < years
      invariant 0 <= year <= years
      invariant r == Run(cfg, w, year, draws)
    {
      r := WorldStep(cfg, r, year, draws(year));
      year := year + 1;
    }
  }

  /** The number of death ages the records list, record by record. */
  function DeathAgeTotal(stats: seq<Stats>): nat
    decreases |stats|
  {
    if |stats| == 0 then 0 else |stats[0].deathAges| + DeathAgeTotal(stats[1..])
  }

  /** extract_death_ages: every record's death ages, in record order. The list is
      as long as all the records' death-age lists together. */
  function ExtractDeathAges(stats: seq<Stats>): (r: seq<nat>)
    ensures |r| == DeathAgeTotal(stats)
    decreases |stats|
  {
    if |stats| == 0 then []
    else
      DeathAgeTotalLast(stats);
      ExtractDeathAges(stats[..|stats| - 1]) + stats[|stats| - 1].deathAges
  }

  /** Counting the death ages from the front or from the back gives the same total. */
  lemma {:induction false} DeathAgeTotalLast(stats: seq<Stats>)
    requires |stats| > 0
    ensures DeathAgeTotal(stats) == DeathAgeTotal(stats[..|stats| - 1]) + |stats[|stats| - 1].deathAges|
    decreases |stats|
  {
    if |stats| > 1 {
      var tail := stats[1..];
      DeathAgeTotalLast(tail);
      assert tail[..|tail| - 1] == stats[..|stats| - 1][1..];
    }
  }

  /** The death ages of the first k records come first. */
  lemma {:induction false} ExtractDeathAgesPrefix(stats: seq<Stats>, k: nat)
    requires k <= |stats|
    ensures ExtractDeathAges(stats[..k]) <= ExtractDeathAges(stats)
    decreases |stats| - k
  {
    if k < |stats| {
      var n := |stats| - 1;
      assert stats[..n][..k] == stats[..k];
      ExtractDeathAgesPrefix(stats[..n], k);
    } else {
      assert stats[..k] == stats;
    }
  }

  /** Record k's death ages appear, in their own order, right after those of the
      records before it. */
  lemma ExtractDeathAgesOrder(stats: seq<Stats>, k: nat)
    requires k < |stats|
    ensures var offset := |ExtractDeathAges(stats[..k])|;
      var all := ExtractDeathAges(stats);
      offset + |stats[k].deathAges| <= |all|
      && all[offset..offset + |stats[k].deathAges|] == stats[k].deathAges
  {
    ExtractDeathAgesPrefix(stats, k + 1);
    assert stats[..k + 1][..k] == stats[..k];
  }

  /** In a consistent ledger the flattened death ages count every death once:
      their number is the last record's cumulative deaths, 0 without records. */
  lemma {:induction false} ExtractDeathAgesCount(stats: seq<Stats>)
    requires StatsConsistent(stats)
    ensures |ExtractDeathAges(stats)| == LastCumulativeDeaths(stats)
    decreases |stats|
  {
    if |stats| > 0 {
      var n := |stats| - 1;
      ConsistentPrefix(stats, n);
      ExtractDeathAgesCount(stats[..n]);
      ConsistentRecord(stats, n);
    }
  }

  /** In a consistent ledger record k's death ages start right after the deaths
      counted by the record before it. */
  lemma ExtractDeathAgesOffset(stats: seq<Stats>, k: nat)
    requires StatsConsistent(stats)
    requires k < |stats|
    ensures var offset := if k == 0 then 0 else stats[k - 1].cumulativeDeaths;
      var all := ExtractDeathAges(stats);
      offset + |stats[k].deathAges| <= |all|
      && all[offset..offset + |stats[k].deathAges|] == stats[k].deathAges
  {
    ExtractDeathAgesOrder(stats, k);
    ConsistentPrefix(stats, k);
    ExtractDeathAgesCount(stats[..k]);
  }

  /** Every record's death ages are all in the flattened list, and the list holds
      nothing else. */
  lemma ExtractDeathAgesContents(stats: seq<Stats>)
    ensures forall k :: 0 <= k < |stats| ==> multiset(stats[k].deathAges) <= multiset(ExtractDeathAges(stats))
    ensures forall x :: x in ExtractDeathAges(stats) ==> exists k :: 0 <= k < |stats| && x in stats[k].deathAges
  {
    var all := ExtractDeathAges(stats);
    forall k | 0 <= k < |stats|
      ensures multiset(stats[k].deathAges) <= multiset(all)
    {
      RecordAgesIncluded(stats, k);
    }
    forall x | x in all
      ensures exists k :: 0 <= k < |stats| && x in stats[k].deathAges
    {
      DeathAgeSource(stats, x);
    }
  }

  /** A flattened death age comes from some record. */
  lemma {:induction false} DeathAgeSource(stats: seq<Stats>, x: nat)
    requires x in ExtractDeathAges(stats)
    ensures exists k :: 0 <= k < |stats| && x in stats[k].deathAges
    decreases |stats|
  {
    var n := |stats| - 1;
    if x in stats[n].deathAges {
    } else {
      DeathAgeSource(stats[..n], x);
      var k :| 0 <= k < n && x in stats[..n][k].deathAges;
      assert stats[..n][k] == stats[k];
    }
  }

  /** Record k's death ages are all in the flattened list, with multiplicity. */
  lemma RecordAgesIncluded(stats: seq<Stats>, k: nat)
    requires k < |stats|
    ensures multiset(stats[k].deathAges) <= multiset(ExtractDeathAges(stats))
  {
    var all := ExtractDeathAges(stats);
    var offset := |ExtractDeathAges(stats[..k])|;
    var ages := stats[k].deathAges;
    ExtractDeathAgesOrder(stats, k);
    assert all[offset..offset + |ages|] == ages;
    SliceIncluded(all, offset, offset + |ages|);
  }

  /** A slice of a list is a sub-multiset of it. */
  lemma SliceIncluded(s: seq<nat>, i: nat, j: nat)
    requires i <= j <= |s|
    ensures multiset(s[i..j]) <= multiset(s)
  {
    assert s == s[..i] + s[i..j] + s[j..];
  }
}
