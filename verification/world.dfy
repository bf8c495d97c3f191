/**
 The world: trees on a square grid, a population of blobs, and one statistics
 record per simulated year.

 A year runs in three phases. Every tree in the tree list attempts to grow an
 apple; every blob steps in list order, each seeing the trees as the blobs before
 it left them; the dead are set aside, the survivors become the population, and
 the reproduction scan appends the children. The record is then computed from
 the final population, which is the survivor list extended in place by the
 newborns, so the alive average and the original/newborn split include the
 children of the year.
 */
module Worlds {
  import opened SimConfig
  import opened Trees
  import opened Blobs
  import opened Reproduction

  /** An average of ages kept as its sum and its count. The program records
      np.mean of the ages, and 0 for an empty list, which is the pair (0, 0). */
  datatype Mean = Mean(sum: nat, count: nat)

  /** One yearly statistics record. */
  datatype Stats = Stats(
    year: int,
    alive: nat,
    aliveOriginal: nat,
    aliveNewborns: nat,
    deadFromStarvation: nat,
    deadFromOldAge: nat,
    cumulativeDeaths: nat,
    bornThisYear: nat,
    cumulativeBirths: nat,
    avgAgeAlive: Mean,
    avgAgeDeadStarvation: Mean,
    avgAgeDeadOldAge: Mean,
    deathAges: seq<nat>)

  datatype World = World(
    size: int,
    grid: Grid,
    trees: seq<bool>,
    blobs: seq<Blob>,
    reproduction: bool,
    stats: seq<Stats>,
    totalBirths: nat)

  /** The random draws of one year: the growth trial of tree t, the direction of
      the k-th blob of the population, the death trial of gene g of that blob,
      and the inheritance choice for gene g of the child of pair (i, j). */
  datatype YearDraws = YearDraws(
    grow: nat -> bool,
    direction: nat -> Direction,
    dies: (nat, nat) -> bool,
    inherit: (nat, nat, nat) -> bool)

  /** The draws of the blob constructor: its cell and its chromosome. */
  datatype Placement = Placement(x: int, y: int, chromosome: seq<bool>)

  // ---------------------------------------------------------------------------
  // Sums and counts over a population

  function Sum(s: seq<nat>): nat
    decreases |s|
  {
    if |s| == 0 then 0 else s[0] + Sum(s[1..])
  }

  lemma {:induction false} SumAppend(a: seq<nat>, b: seq<nat>)
    ensures Sum(a + b) == Sum(a) + Sum(b)
    decreases |a|
  {
    if |a| > 0 {
      assert (a + b)[1..] == a[1..] + b;
      SumAppend(a[1..], b);
    } else {
      assert a + b == b;
    }
  }

  /** The ages of a list of blobs, in list order. */
  function Ages(blobs: seq<Blob>): (r: seq<nat>)
    ensures |r| == |blobs|
    ensures forall k :: 0 <= k < |blobs| ==> r[k] == blobs[k].age
  {
    seq(|blobs|, k requires 0 <= k < |blobs| => blobs[k].age)
  }

  /** np.mean of the ages of a list, 0 when the list is empty: the sum of the
      ages over their number. */
  function MeanOf(blobs: seq<Blob>): (m: Mean)
    ensures m.count == |blobs|
    ensures m.sum == Sum(Ages(blobs))
    ensures m.count == 0 ==> m.sum == 0
  {
    Mean(Sum(Ages(blobs)), |blobs|)
  }

  /** The age sum and count of two lists together are those of the parts added. */
  lemma MeanOfAppend(a: seq<Blob>, b: seq<Blob>)
    ensures MeanOf(a + b).sum == MeanOf(a).sum + MeanOf(b).sum
    ensures MeanOf(a + b).count == MeanOf(a).count + MeanOf(b).count
  {
    assert Ages(a + b) == Ages(a) + Ages(b);
    SumAppend(Ages(a), Ages(b));
  }

  /** The number of blobs of exactly the given age. */
  function CountAge(blobs: seq<Blob>, age: int): (n: nat)
    ensures n <= |blobs|
    decreases |blobs|
  {
    if |blobs| == 0 then 0
    else CountAge(blobs[..|blobs| - 1], age) + (if blobs[|blobs| - 1].age == age then 1 else 0)
  }

  /** The number of blobs younger than the given age. */
  function CountYounger(blobs: seq<Blob>, age: int): (n: nat)
    ensures n <= |blobs|
    decreases |blobs|
  {
    if |blobs| == 0 then 0
    else CountYounger(blobs[..|blobs| - 1], age) + (if blobs[|blobs| - 1].age < age then 1 else 0)
  }

  /** The positions of the blobs of exactly the given age. */
  function OfAge(blobs: seq<Blob>, age: int): set<nat> {
    set k: nat | k < |blobs| && blobs[k].age == age
  }

  /** The positions of the blobs younger than the given age. */
  function YoungerThan(blobs: seq<Blob>, age: int): set<nat> {
    set k: nat | k < |blobs| && blobs[k].age < age
  }

  /** CountAge counts the blobs of exactly that age. */
  lemma {:induction false} CountAgeMembers(blobs: seq<Blob>, age: int)
    ensures CountAge(blobs, age) == |OfAge(blobs, age)|
    decreases |blobs|
  {
    if |blobs| == 0 {
      assert OfAge(blobs, age) == {};
    } else {
      CountAgeMembers(blobs[..|blobs| - 1], age);
      AgeSetsLast(blobs, age);
    }
  }

  /** CountYounger counts the blobs younger than that age. */
  lemma {:induction false} CountYoungerMembers(blobs: seq<Blob>, age: int)
    ensures CountYounger(blobs, age) == |YoungerThan(blobs, age)|
    decreases |blobs|
  {
    if |blobs| == 0 {
      assert YoungerThan(blobs, age) == {};
    } else {
      CountYoungerMembers(blobs[..|blobs| - 1], age);
      AgeSetsLast(blobs, age);
    }
  }

  /** The age sets of a population are those before its last blob, plus the last
      blob when its age qualifies. */
  lemma AgeSetsLast(blobs: seq<Blob>, age: int)
    requires |blobs| > 0
    ensures var n := |blobs| - 1;
      var a := blobs[n].age;
      && n !in OfAge(blobs[..n], age) && n !in YoungerThan(blobs[..n], age)
      && OfAge(blobs, age) == (if a == age then OfAge(blobs[..n], age) + {n} else OfAge(blobs[..n], age))
      && YoungerThan(blobs, age) == (if a < age then YoungerThan(blobs[..n], age) + {n} else YoungerThan(blobs[..n], age))
  {
    var n := |blobs| - 1;
    forall k | 0 <= k < n
      ensures blobs[..n][k] == blobs[k]
    {
    }
  }

  /** Counting the younger blobs of two lists together adds their counts. */
  lemma {:induction false} CountYoungerAppend(a: seq<Blob>, b: seq<Blob>, age: int)
    ensures CountYounger(a + b, age) == CountYounger(a, age) + CountYounger(b, age)
    decreases |b|
  {
    if |b| > 0 {
      assert (a + b)[..|a + b| - 1] == a + b[..|b| - 1];
      CountYoungerAppend(a, b[..|b| - 1], age);
    } else {
      assert a + b == a;
    }
  }

  /** When every blob is younger than the age, all of them count as younger. */
  lemma {:induction false} CountYoungerAll(blobs: seq<Blob>, age: int)
    requires forall k :: 0 <= k < |blobs| ==> blobs[k].age < age
    ensures CountYounger(blobs, age) == |blobs|
    decreases |blobs|
  {
    if |blobs| > 0 {
      CountYoungerAll(blobs[..|blobs| - 1], age);
    }
  }

  /** No blob is older than the bound. */
  predicate AgesAtMost(blobs: seq<Blob>, bound: int) {
    forall k :: 0 <= k < |blobs| ==> blobs[k].age <= bound
  }

  /** When nobody is older than a, every blob is either exactly a or younger. */
  lemma {:induction false} CountAgeSplit(blobs: seq<Blob>, a: int)
    requires AgesAtMost(blobs, a)
    ensures CountAge(blobs, a) + CountYounger(blobs, a) == |blobs|
    decreases |blobs|
  {
    if |blobs| > 0 {
      CountAgeSplit(blobs[..|blobs| - 1], a);
    }
  }

  // ---------------------------------------------------------------------------
  // The gene distribution

  /** The number of blobs whose gene g is ON. */
  function CountGene(blobs: seq<Blob>, g: nat): (n: nat)
    ensures n <= |blobs|
    decreases |blobs|
  {
    if |blobs| == 0 then 0
    else
      var b := blobs[|blobs| - 1];
      CountGene(blobs[..|blobs| - 1], g) + (if g < |b.chromosome| && b.chromosome[g] then 1 else 0)
  }

  /** A gene has count zero exactly when no blob carries it. */
  lemma {:induction false} CountGeneZero(blobs: seq<Blob>, g: nat)
    ensures CountGene(blobs, g) == 0 <==>
      forall k :: 0 <= k < |blobs| ==> !(g < |blobs[k].chromosome| && blobs[k].chromosome[g])
    decreases |blobs|
  {
    if |blobs| > 0 {
      CountGeneZero(blobs[..|blobs| - 1], g);
    }
  }

  /** The positions of the blobs whose gene g is ON. */
  function Carriers(blobs: seq<Blob>, g: nat): set<nat> {
    set k: nat | k < |blobs| && g < |blobs[k].chromosome| && blobs[k].chromosome[g]
  }

  /** A gene's count is the number of blobs that carry it. */
  lemma {:induction false} CountGeneCarriers(blobs: seq<Blob>, g: nat)
    ensures CountGene(blobs, g) == |Carriers(blobs, g)|
    decreases |blobs|
  {
    if |blobs| == 0 {
      assert Carriers(blobs, g) == {};
    } else {
      CountGeneCarriers(blobs[..|blobs| - 1], g);
      CarriersLast(blobs, g);
    }
  }

  /** The carriers of a population are those before its last blob, plus the last
      blob when it carries the gene. */
  lemma CarriersLast(blobs: seq<Blob>, g: nat)
    requires |blobs| > 0
    ensures var n := |blobs| - 1;
      var b := blobs[n];
      var pre := Carriers(blobs[..n], g);
      && n !in pre
      && Carriers(blobs, g) == if g < |b.chromosome| && b.chromosome[g] then pre + {n} else pre
  {
    var n := |blobs| - 1;
    forall k | 0 <= k < n
      ensures blobs[..n][k] == blobs[k]
    {
    }
  }

  /** What get_gene_distribution returns. Over a non-empty population it is one
      count per gene; over the empty population numpy sums an empty array to a
      single scalar zero. */
  datatype GeneDistribution = ScalarZero | PerGene(counts: seq<nat>)

  /** World.get_gene_distribution. */
  function GeneDistributionOf(cfg: Config, blobs: seq<Blob>): (r: GeneDistribution)
    ensures r.ScalarZero? <==> |blobs| == 0
    ensures r.PerGene? ==> |r.counts| == cfg.numGenes
    ensures r.PerGene? ==> forall g :: 0 <= g < cfg.numGenes ==> r.counts[g] <= |blobs|
    ensures r.PerGene? ==> forall g :: 0 <= g < cfg.numGenes ==> r.counts[g] == |Carriers(blobs, g)|
  {
    if |blobs| == 0 then ScalarZero
    else
      var counts := seq(cfg.numGenes, g requires 0 <= g < cfg.numGenes => CountGene(blobs, g));
      forall g | 0 <= g < cfg.numGenes
        ensures counts[g] == |Carriers(blobs, g)|
      {
        CountGeneCarriers(blobs, g);
      }
      PerGene(counts)
  }

  /** Entry g of the distribution is zero exactly when no blob carries gene g. */
  lemma GeneDistributionZero(cfg: Config, blobs: seq<Blob>, g: nat)
    requires ChromosomesSized(cfg, blobs)
    requires |blobs| > 0 && g < cfg.numGenes
    ensures GeneDistributionOf(cfg, blobs).counts[g] == 0 <==>
      forall k :: 0 <= k < |blobs| ==> !blobs[k].chromosome[g]
  {
    CountGeneZero(blobs, g);
  }

  // ---------------------------------------------------------------------------
  // The statistics ledger

  function LastCumulativeDeaths(stats: seq<Stats>): (n: nat)
    ensures |stats| > 0 ==> n == stats[|stats| - 1].cumulativeDeaths
  {
    if |stats| == 0 then 0 else stats[|stats| - 1].cumulativeDeaths
  }

  function LastCumulativeBirths(stats: seq<Stats>): (n: nat)
    ensures |stats| > 0 ==> n == stats[|stats| - 1].cumulativeBirths
  {
    if |stats| == 0 then 0 else stats[|stats| - 1].cumulativeBirths
  }

  /** Record s is consistent with the running totals that precede it: it adds its
      own deaths and births to them, and its death ages and averages count the
      same blobs as its counters. */
  predicate RecordFollows(s: Stats, deathsBefore: nat, birthsBefore: nat) {
    && s.cumulativeDeaths == deathsBefore + s.deadFromStarvation + s.deadFromOldAge
    && s.cumulativeBirths == birthsBefore + s.bornThisYear
    && |s.deathAges| == s.deadFromStarvation + s.deadFromOldAge
    && Sum(s.deathAges) == s.avgAgeDeadStarvation.sum + s.avgAgeDeadOldAge.sum
    && s.avgAgeDeadStarvation.count == s.deadFromStarvation
    && s.avgAgeDeadOldAge.count == s.deadFromOldAge
    && s.avgAgeAlive.count == s.alive
  }

  /** Every record follows the one before it, the first following zero totals. */
  predicate StatsConsistent(stats: seq<Stats>) {
    && (|stats| > 0 ==> RecordFollows(stats[0], 0, 0))
    && forall j, k :: 0 <= j < |stats| && 0 <= k < |stats| && k == j + 1 ==>
         RecordFollows(stats[k], stats[j].cumulativeDeaths, stats[j].cumulativeBirths)
  }

  /** Record k of a consistent ledger follows the totals of the records before it. */
  lemma ConsistentRecord(stats: seq<Stats>, k: nat)
    requires StatsConsistent(stats) && k < |stats|
    ensures RecordFollows(stats[k], LastCumulativeDeaths(stats[..k]), LastCumulativeBirths(stats[..k]))
  {
    if k > 0 {
      assert stats[..k][k - 1] == stats[k - 1];
    }
  }

  /** A prefix of a consistent ledger is consistent. */
  lemma ConsistentPrefix(stats: seq<Stats>, n: nat)
    requires StatsConsistent(stats) && n <= |stats|
    ensures StatsConsistent(stats[..n])
  {
    var p := stats[..n];
    forall j, k | 0 <= j < |p| && 0 <= k < |p| && k == j + 1
      ensures RecordFollows(p[k], p[j].cumulativeDeaths, p[j].cumulativeBirths)
    {
      assert p[j] == stats[j] && p[k] == stats[k];
    }
  }

  /** Appending a record that follows the last one keeps the ledger consistent. */
  lemma StatsConsistentAppend(stats: seq<Stats>, s: Stats)
    requires StatsConsistent(stats)
    requires RecordFollows(s, LastCumulativeDeaths(stats), LastCumulativeBirths(stats))
    ensures StatsConsistent(stats + [s])
  {
    var all := stats + [s];
    forall j, k | 0 <= j < |all| && 0 <= k < |all| && k == j + 1
      ensures RecordFollows(all[k], all[j].cumulativeDeaths, all[j].cumulativeBirths)
    {
      assert all[j] == stats[j];
      if k < |stats| {
        assert all[k] == stats[k];
      }
    }
  }

  /** In a consistent ledger cumulative deaths never decrease. */
  lemma {:induction false} CumulativeDeathsMonotone(stats: seq<Stats>, k1: nat, k2: nat)
    requires StatsConsistent(stats)
    requires k1 <= k2 < |stats|
    ensures stats[k1].cumulativeDeaths <= stats[k2].cumulativeDeaths
    decreases k2 - k1
  {
    if k1 < k2 {
      CumulativeDeathsMonotone(stats, k1, k2 - 1);
      assert RecordFollows(stats[k2], stats[k2 - 1].cumulativeDeaths, stats[k2 - 1].cumulativeBirths);
    }
  }

  // ---------------------------------------------------------------------------
  // World invariant and constructor

  /** A world the program can be in: its grid names trees of the list and lies in
      the world, every blob is on the grid with one bit per gene, the ledger is
      consistent and total births match the last record. */
  predicate ValidWorld(cfg: Config, w: World) {
    && Valid(cfg)
    && GridWellFormed(w.grid, w.trees, w.size)
    && AllWellFormed(cfg, w.blobs, w.size)
    && StatsConsistent(w.stats)
    && w.totalBirths == LastCumulativeBirths(w.stats)
  }

  /** A world as the constructor leaves it: no record yet and every blob newborn. */
  predicate Fresh(w: World) {
    w.stats == [] && w.totalBirths == 0 && AgesAtMost(w.blobs, 0)
  }

  /** World.__init__ with the constructor draws given: blob k is placed and
      equipped by placements[k] with the default energy, and the trees are planted
      at cells, in order, on an empty grid. */
  function NewWorld(cfg: Config, size: int, reproduction: bool,
                    placements: seq<Placement>, cells: seq<Cell>): (w: World)
    requires Valid(cfg)
    requires forall k :: 0 <= k < |placements| ==>
      InBounds((placements[k].x, placements[k].y), size) && |placements[k].chromosome| == cfg.numGenes
    requires forall k :: 0 <= k < |cells| ==> InBounds(cells[k], size)
    ensures ValidWorld(cfg, w) && Fresh(w)
    ensures w.size == size && w.reproduction == reproduction
    ensures |w.blobs| == |placements|
    ensures forall k :: 0 <= k < |placements| ==>
      && w.blobs[k].x == placements[k].x && w.blobs[k].y == placements[k].y
      && w.blobs[k].chromosome == placements[k].chromosome
      && w.blobs[k].energy == DefaultEnergy && w.blobs[k].lastBirthYear == InitialLastBirthYear
    ensures |w.trees| == |cells| && forall t :: 0 <= t < |cells| ==> !w.trees[t]
    ensures forall c :: c in w.grid <==> exists k :: 0 <= k < |cells| && cells[k] == c
  {
    var blobs := seq(|placements|, k requires 0 <= k < |placements| =>
      NewBlob(cfg, size, DefaultEnergy, placements[k].x, placements[k].y, placements[k].chromosome));
    var planted := PlantTrees(size, map[], [], cells);
    forall c | c in planted.grid
      ensures exists k :: 0 <= k < |cells| && cells[k] == c
    {
      assert cells[LastPlantingAt(cells, c)] == c;
    }
    forall k | 0 <= k < |cells|
      ensures cells[k] in planted.grid
    {
      assert LastPlantingAt(cells, cells[k]) >= k;
    }
    World(size, planted.grid, planted.trees, blobs, reproduction, [], 0)
  }

  // ---------------------------------------------------------------------------
  // The blob phase

  /** The tree flags after the blobs have stepped, the stepped blobs, and the
      outcome of each, in population order. */
  datatype Walk = Walk(trees: seq<bool>, stepped: seq<Blob>, outcomes: seq<Outcome>)

  /** The death trials of the k-th blob. */
  function Trials(draws: YearDraws, k: nat): nat -> bool {
    (g: nat) => draws.dies(k, g)
  }

  /** The loop over the population in World.step from blob k on: blob k steps
      with its own draws on the trees as the blobs before it left them, and the
      blobs after it see the trees as it leaves them. */
  function StepBlobs(cfg: Config, size: int, grid: Grid, trees: seq<bool>, blobs: seq<Blob>,
                     k: nat, draws: YearDraws): (r: Walk)
    requires Valid(cfg) && ChromosomesSized(cfg, blobs) && TreeIdsValid(grid, trees)
    ensures |r.trees| == |trees|
    ensures |r.stepped| == |r.outcomes| == if k <= |blobs| then |blobs| - k else 0
    decreases |blobs| - k
  {
    if k >= |blobs| then Walk(trees, [], [])
    else
      var s := Step(cfg, size, blobs[k], grid, trees, draws.direction(k), Trials(draws, k));
      var rest := StepBlobs(cfg, size, grid, s.trees, blobs, k + 1, draws);
      Walk(rest.trees, [s.blob] + rest.stepped, [s.outcome] + rest.outcomes)
  }

  /** Each blob of the phase ages by one, keeps its chromosome, last birth year
      and place on the grid, and starves exactly when its energy ran out. */
  predicate SteppedFrom(cfg: Config, size: int, blobs: seq<Blob>, k: nat, r: Walk) {
    && k <= |blobs|
    && |r.stepped| == |r.outcomes| == |blobs| - k
    && forall m :: 0 <= m < |r.stepped| ==>
         && r.stepped[m].age == blobs[k + m].age + 1
         && r.stepped[m].chromosome == blobs[k + m].chromosome
         && r.stepped[m].lastBirthYear == blobs[k + m].lastBirthYear
         && (OnGrid(blobs[k + m], size) ==> OnGrid(r.stepped[m], size))
         && (r.outcomes[m] == Starvation <==> r.stepped[m].energy <= 0)
  }

  lemma {:induction false} StepBlobsSteps(cfg: Config, size: int, grid: Grid, trees: seq<bool>,
                                          blobs: seq<Blob>, k: nat, draws: YearDraws)
    requires Valid(cfg) && ChromosomesSized(cfg, blobs) && TreeIdsValid(grid, trees)
    requires k <= |blobs|
    ensures SteppedFrom(cfg, size, blobs, k, StepBlobs(cfg, size, grid, trees, blobs, k, draws))
    decreases |blobs| - k
  {
    if k < |blobs| {
      var s := Step(cfg, size, blobs[k], grid, trees, draws.direction(k), Trials(draws, k));
      StepBlobsSteps(cfg, size, grid, s.trees, blobs, k + 1, draws);
      SteppedCons(cfg, size, blobs, k, s, StepBlobs(cfg, size, grid, s.trees, blobs, k + 1, draws));
    }
  }

  /** One step of StepBlobsSteps: blob k's own step in front of the rest. */
  lemma SteppedCons(cfg: Config, size: int, blobs: seq<Blob>, k: nat, s: StepResult, rest: Walk)
    requires k < |blobs|
    requires s.blob.age == blobs[k].age + 1
    requires s.blob.chromosome == blobs[k].chromosome && s.blob.lastBirthYear == blobs[k].lastBirthYear
    requires OnGrid(blobs[k], size) ==> OnGrid(s.blob, size)
    requires s.outcome == Starvation <==> s.blob.energy <= 0
    requires SteppedFrom(cfg, size, blobs, k + 1, rest)
    ensures SteppedFrom(cfg, size, blobs, k, Walk(rest.trees, [s.blob] + rest.stepped, [s.outcome] + rest.outcomes))
  {
    var r := Walk(rest.trees, [s.blob] + rest.stepped, [s.outcome] + rest.outcomes);
    forall m | 1 <= m < |r.stepped|
      ensures r.stepped[m] == rest.stepped[m - 1] && r.outcomes[m] == rest.outcomes[m - 1]
      ensures blobs[k + m] == blobs[(k + 1) + (m - 1)]
    {
    }
  }

  /** The tree flags blob j steps on: the flags as blobs k..j-1 left them. */
  function TreesBefore(cfg: Config, size: int, grid: Grid, trees: seq<bool>, blobs: seq<Blob>,
                       k: nat, j: nat, draws: YearDraws): (r: seq<bool>)
    requires Valid(cfg) && ChromosomesSized(cfg, blobs) && TreeIdsValid(grid, trees)
    requires k <= j <= |blobs|
    ensures |r| == |trees| && TreeIdsValid(grid, r)
    decreases j - k
  {
    if j == k then trees
    else
      var s := Step(cfg, size, blobs[k], grid, trees, draws.direction(k), Trials(draws, k));
      TreesBefore(cfg, size, grid, s.trees, blobs, k + 1, j, draws)
  }

  /** Blob j's own Blobs.Step, with its own direction and death trials, on the
      trees as blobs k..j-1 left them. */
  function StepAt(cfg: Config, size: int, grid: Grid, trees: seq<bool>, blobs: seq<Blob>,
                  k: nat, j: nat, draws: YearDraws): StepResult
    requires Valid(cfg) && ChromosomesSized(cfg, blobs) && TreeIdsValid(grid, trees)
    requires k <= j < |blobs|
  {
    Step(cfg, size, blobs[j], grid, TreesBefore(cfg, size, grid, trees, blobs, k, j, draws),
         draws.direction(j), Trials(draws, j))
  }

  /** Entry m of a walk from blob k is blob k + m's own step. */
  predicate EachStepped(cfg: Config, size: int, grid: Grid, trees: seq<bool>, blobs: seq<Blob>,
                        k: nat, draws: YearDraws, r: Walk)
    requires Valid(cfg) && ChromosomesSized(cfg, blobs) && TreeIdsValid(grid, trees)
  {
    && k <= |blobs|
    && |r.stepped| == |r.outcomes| == |blobs| - k
    && forall m :: 0 <= m < |r.stepped| ==>
         && r.stepped[m] == StepAt(cfg, size, grid, trees, blobs, k, k + m, draws).blob
         && r.outcomes[m] == StepAt(cfg, size, grid, trees, blobs, k, k + m, draws).outcome
  }

  /** The blob phase steps every blob once, in population order: each entry of the
      walk is that blob's step on the trees as the blobs before it left them, and
      the walk ends on the trees as the last blob left them. */
  lemma {:induction false} StepBlobsEach(cfg: Config, size: int, grid: Grid, trees: seq<bool>,
                                         blobs: seq<Blob>, k: nat, draws: YearDraws)
    requires Valid(cfg) && ChromosomesSized(cfg, blobs) && TreeIdsValid(grid, trees)
    requires k <= |blobs|
    ensures var r := StepBlobs(cfg, size, grid, trees, blobs, k, draws);
      && EachStepped(cfg, size, grid, trees, blobs, k, draws, r)
      && r.trees == TreesBefore(cfg, size, grid, trees, blobs, k, |blobs|, draws)
    decreases |blobs| - k
  {
    if k < |blobs| {
      var s := Step(cfg, size, blobs[k], grid, trees, draws.direction(k), Trials(draws, k));
      var rest := StepBlobs(cfg, size, grid, s.trees, blobs, k + 1, draws);
      StepBlobsEach(cfg, size, grid, s.trees, blobs, k + 1, draws);
      EachSteppedCons(cfg, size, grid, trees, blobs, k, draws, s, rest);
      assert TreesBefore(cfg, size, grid, trees, blobs, k, |blobs|, draws)
             == TreesBefore(cfg, size, grid, s.trees, blobs, k + 1, |blobs|, draws);
    }
  }

  /** Seen from blob k, blob j > k steps on the trees blob k left. */
  lemma StepAtShift(cfg: Config, size: int, grid: Grid, trees: seq<bool>, blobs: seq<Blob>,
                    k: nat, j: nat, draws: YearDraws)
    requires Valid(cfg) && ChromosomesSized(cfg, blobs) && TreeIdsValid(grid, trees)
    requires k < j < |blobs|
    ensures var s := Step(cfg, size, blobs[k], grid, trees, draws.direction(k), Trials(draws, k));
      StepAt(cfg, size, grid, trees, blobs, k, j, draws) == StepAt(cfg, size, grid, s.trees, blobs, k + 1, j, draws)
  {
  }

  /** Entry m - 1 of the walk from blob k + 1, on the trees blob k left, is blob
      k + m's step as seen from blob k. */
  lemma RestEntry(cfg: Config, size: int, grid: Grid, trees: seq<bool>, blobs: seq<Blob>,
                  k: nat, draws: YearDraws, rest: Walk, m: nat)
    requires Valid(cfg) && ChromosomesSized(cfg, blobs) && TreeIdsValid(grid, trees)
    requires k < |blobs|
    requires var s := Step(cfg, size, blobs[k], grid, trees, draws.direction(k), Trials(draws, k));
      EachStepped(cfg, size, grid, s.trees, blobs, k + 1, draws, rest)
    requires 1 <= m <= |rest.stepped|
    ensures k + m < |blobs|
    ensures rest.stepped[m - 1] == StepAt(cfg, size, grid, trees, blobs, k, k + m, draws).blob
    ensures rest.outcomes[m - 1] == StepAt(cfg, size, grid, trees, blobs, k, k + m, draws).outcome
  {
    assert (k + 1) + (m - 1) == k + m;
    StepAtShift(cfg, size, grid, trees, blobs, k, k + m, draws);
  }

  /** One step of StepBlobsEach: blob k's own step in front of the rest. */
  lemma EachSteppedCons(cfg: Config, size: int, grid: Grid, trees: seq<bool>, blobs: seq<Blob>,
                        k: nat, draws: YearDraws, s: StepResult, rest: Walk)
    requires Valid(cfg) && ChromosomesSized(cfg, blobs) && TreeIdsValid(grid, trees)
    requires k < |blobs|
    requires s == Step(cfg, size, blobs[k], grid, trees, draws.direction(k), Trials(draws, k))
    requires EachStepped(cfg, size, grid, s.trees, blobs, k + 1, draws, rest)
    ensures EachStepped(cfg, size, grid, trees, blobs, k, draws,
                        Walk(rest.trees, [s.blob] + rest.stepped, [s.outcome] + rest.outcomes))
  {
    var r := Walk(rest.trees, [s.blob] + rest.stepped, [s.outcome] + rest.outcomes);
    forall m | 0 <= m < |r.stepped|
      ensures r.stepped[m] == StepAt(cfg, size, grid, trees, blobs, k, k + m, draws).blob
      ensures r.outcomes[m] == StepAt(cfg, size, grid, trees, blobs, k, k + m, draws).outcome
    {
      if m == 0 {
        assert TreesBefore(cfg, size, grid, trees, blobs, k, k, draws) == trees;
      } else {
        assert r.stepped[m] == rest.stepped[m - 1] && r.outcomes[m] == rest.outcomes[m - 1];
        RestEntry(cfg, size, grid, trees, blobs, k, draws, rest, m);
      }
    }
  }

  /** What the blob phase does to blob j of the year: it moves by its own
      direction, loses the step cost and gains an apple's energy exactly when the
      tree on its new cell was ripe as the blobs before it left the grown trees,
      and dies of old age exactly when it did not starve and some aging gene fired
      at its new age with its own trials. */
  lemma YearSteppedBlob(cfg: Config, w: World, year: int, draws: YearDraws, j: nat)
    requires ValidWorld(cfg, w)
    requires j < |w.blobs|
    ensures var y := Live(cfg, w, year, draws);
      var b := w.blobs[j];
      var before := TreesBefore(cfg, w.size, w.grid, GrowApples(w.trees, draws.grow), w.blobs, 0, j, draws);
      var moved := Move(b, w.size, draws.direction(j));
      && j < |y.walk.stepped| == |y.walk.outcomes|
      && y.walk.stepped[j].x == moved.x && y.walk.stepped[j].y == moved.y
      && y.walk.stepped[j].energy
         == b.energy - cfg.energyLossPerStep
            + (if HasRipeTree(w.grid, before, (moved.x, moved.y)) then AppleEnergy else 0)
      && (y.walk.outcomes[j] == OldAge <==>
            y.walk.stepped[j].energy > 0
            && exists g :: GeneFires(cfg, b.chromosome, y.walk.stepped[j].age, Trials(draws, j), g))
  {
    var grown := GrowApples(w.trees, draws.grow);
    StepBlobsEach(cfg, w.size, w.grid, grown, w.blobs, 0, draws);
    assert 0 + j == j;
    assert Live(cfg, w, year, draws).walk.stepped[j] == StepAt(cfg, w.size, w.grid, grown, w.blobs, 0, j, draws).blob;
  }

  /** The total energy of a list of blobs. */
  function TotalEnergy(blobs: seq<Blob>): int
    decreases |blobs|
  {
    if |blobs| == 0 then 0 else blobs[0].energy + TotalEnergy(blobs[1..])
  }

  /** Food is conserved over the blob phase: the energy of the stepping blobs plus
      the energy of the apples on the trees falls by exactly the step cost of every
      blob, whoever ate which apple. */
  lemma {:induction false} StepBlobsConservesFood(cfg: Config, size: int, grid: Grid, trees: seq<bool>,
                                                  blobs: seq<Blob>, k: nat, draws: YearDraws)
    requires Valid(cfg) && ChromosomesSized(cfg, blobs) && TreeIdsValid(grid, trees)
    requires k <= |blobs|
    ensures var r := StepBlobs(cfg, size, grid, trees, blobs, k, draws);
      TotalEnergy(r.stepped) + AppleEnergy * CountApples(r.trees)
      == TotalEnergy(blobs[k..]) - (|blobs| - k) * cfg.energyLossPerStep + AppleEnergy * CountApples(trees)
    decreases |blobs| - k
  {
    if k < |blobs| {
      var s := Step(cfg, size, blobs[k], grid, trees, draws.direction(k), Trials(draws, k));
      StepBlobsConservesFood(cfg, size, grid, s.trees, blobs, k + 1, draws);
      FoodWalkStep(cfg, size, grid, trees, blobs, k, draws);
    } else {
      assert blobs[k..] == [];
    }
  }

  /** One blob of StepBlobsConservesFood: conservation from blob k on follows from
      conservation from blob k + 1 on, over the trees blob k leaves. */
  lemma FoodWalkStep(cfg: Config, size: int, grid: Grid, trees: seq<bool>, blobs: seq<Blob>, k: nat,
                     draws: YearDraws)
    requires Valid(cfg) && ChromosomesSized(cfg, blobs) && TreeIdsValid(grid, trees)
    requires k < |blobs|
    requires var s := Step(cfg, size, blobs[k], grid, trees, draws.direction(k), Trials(draws, k));
      var rest := StepBlobs(cfg, size, grid, s.trees, blobs, k + 1, draws);
      TotalEnergy(rest.stepped) + AppleEnergy * CountApples(rest.trees)
      == TotalEnergy(blobs[k + 1..]) - (|blobs| - (k + 1)) * cfg.energyLossPerStep + AppleEnergy * CountApples(s.trees)
    ensures var r := StepBlobs(cfg, size, grid, trees, blobs, k, draws);
      TotalEnergy(r.stepped) + AppleEnergy * CountApples(r.trees)
      == TotalEnergy(blobs[k..]) - (|blobs| - k) * cfg.energyLossPerStep + AppleEnergy * CountApples(trees)
  {
    var s := Step(cfg, size, blobs[k], grid, trees, draws.direction(k), Trials(draws, k));
    StepConservesFood(cfg, size, blobs[k], grid, trees, draws.direction(k), Trials(draws, k));
    var rest := StepBlobs(cfg, size, grid, s.trees, blobs, k + 1, draws);
    var r := StepBlobs(cfg, size, grid, trees, blobs, k, draws);
    assert r.stepped == [s.blob] + rest.stepped && r.trees == rest.trees;
    TotalEnergyCons(s.blob, rest.stepped);
    TotalEnergyFrom(blobs, k);
    FoodStep(s.blob.energy, blobs[k].energy, TotalEnergy(r.stepped), TotalEnergy(blobs[k..]),
             TotalEnergy(rest.stepped), TotalEnergy(blobs[k + 1..]), |blobs| - k, |blobs| - (k + 1),
             cfg.energyLossPerStep, CountApples(trees), CountApples(s.trees), CountApples(rest.trees));
  }

  /** The arithmetic of one step of StepBlobsConservesFood: tStepped and tBlobs
      are the energies from blob k on, n the number of blobs from k on. */
  lemma FoodStep(eStepped: int, eBlob: int, tStepped: int, tBlobs: int, restStepped: int, restBlobs: int,
                 n: int, rest: int, loss: int, apples0: nat, apples1: nat, apples2: nat)
    requires rest == n - 1
    requires tStepped == eStepped + restStepped && tBlobs == eBlob + restBlobs
    requires eStepped + AppleEnergy * apples1 == eBlob - loss + AppleEnergy * apples0
    requires restStepped + AppleEnergy * apples2 == restBlobs - rest * loss + AppleEnergy * apples1
    ensures tStepped + AppleEnergy * apples2 == tBlobs - n * loss + AppleEnergy * apples0
  {
    assert n * loss == rest * loss + loss;
  }

  /** The energy of a list is its head's plus its tail's. */
  lemma TotalEnergyCons(x: Blob, xs: seq<Blob>)
    ensures TotalEnergy([x] + xs) == x.energy + TotalEnergy(xs)
  {
    assert ([x] + xs)[1..] == xs;
  }

  /** The energy from blob k on is blob k's plus the energy from k + 1 on. */
  lemma TotalEnergyFrom(blobs: seq<Blob>, k: nat)
    requires k < |blobs|
    ensures TotalEnergy(blobs[k..]) == blobs[k].energy + TotalEnergy(blobs[k + 1..])
  {
    assert blobs[k..][1..] == blobs[k + 1..];
  }

  /** The blobs of one step sorted by outcome, each list in population order. */
  datatype Split = Split(starved: seq<Blob>, aged: seq<Blob>, alive: seq<Blob>)

  /** The stepped blobs whose outcome is o, in population order. */
  function Filter(stepped: seq<Blob>, outcomes: seq<Outcome>, o: Outcome): (r: seq<Blob>)
    requires |stepped| == |outcomes|
    ensures |r| <= |stepped|
    ensures multiset(r) <= multiset(stepped)
    decreases |stepped|
  {
    if |stepped| == 0 then []
    else
      assert stepped == [stepped[0]] + stepped[1..];
      (if outcomes[0] == o then [stepped[0]] else []) + Filter(stepped[1..], outcomes[1..], o)
  }

  /** The three lists World.step fills while it walks the outcomes. Every blob
      lands in exactly one of them. */
  function Partition(stepped: seq<Blob>, outcomes: seq<Outcome>): (r: Split)
    requires |stepped| == |outcomes|
    ensures |r.starved| + |r.aged| + |r.alive| == |stepped|
    decreases |stepped|
  {
    if |stepped| == 0 then Split([], [], [])
    else
      var rest := Partition(stepped[1..], outcomes[1..]);
      match outcomes[0]
      case Starvation => rest.(starved := [stepped[0]] + rest.starved)
      case OldAge => rest.(aged := [stepped[0]] + rest.aged)
      case Alive => rest.(alive := [stepped[0]] + rest.alive)
  }

  /** Each list of the partition is the stepped blobs of its outcome, in
      population order. */
  lemma {:induction false} PartitionFilters(stepped: seq<Blob>, outcomes: seq<Outcome>)
    requires |stepped| == |outcomes|
    ensures var r := Partition(stepped, outcomes);
      && r.starved == Filter(stepped, outcomes, Starvation)
      && r.aged == Filter(stepped, outcomes, OldAge)
      && r.alive == Filter(stepped, outcomes, Alive)
    decreases |stepped|
  {
    if |stepped| > 0 {
      PartitionFilters(stepped[1..], outcomes[1..]);
    }
  }

  /** Together the three lists of the partition hold every stepped blob exactly once. */
  lemma {:induction false} PartitionPermutes(stepped: seq<Blob>, outcomes: seq<Outcome>)
    requires |stepped| == |outcomes|
    ensures var r := Partition(stepped, outcomes);
      multiset(r.starved + r.aged + r.alive) == multiset(stepped)
    decreases |stepped|
  {
    if |stepped| > 0 {
      PartitionPermutes(stepped[1..], outcomes[1..]);
      PermuteStep(stepped[0], Partition(stepped[1..], outcomes[1..]), Partition(stepped, outcomes));
      assert stepped == [stepped[0]] + stepped[1..];
    }
  }

  /** Putting one blob in front of one of the three lists adds it to their union once. */
  lemma PermuteStep(x: Blob, rest: Split, r: Split)
    requires || r == rest.(starved := [x] + rest.starved)
             || r == rest.(aged := [x] + rest.aged)
             || r == rest.(alive := [x] + rest.alive)
    ensures multiset(r.starved + r.aged + r.alive) == multiset([x]) + multiset(rest.starved + rest.aged + rest.alive)
  {
  }

  /** Every blob of the list with the given outcome satisfies p when every
      stepped blob with that outcome does. */
  predicate AllSatisfy(blobs: seq<Blob>, p: Blob -> bool) {
    forall m :: 0 <= m < |blobs| ==> p(blobs[m])
  }

  predicate OutcomeImplies(stepped: seq<Blob>, outcomes: seq<Outcome>, o: Outcome, p: Blob -> bool)
    requires |stepped| == |outcomes|
  {
    forall k :: 0 <= k < |stepped| && outcomes[k] == o ==> p(stepped[k])
  }

  /** A property that every stepped blob with outcome o has holds of the whole
      list Partition puts them in. */
  lemma {:induction false} PartitionKeeps(stepped: seq<Blob>, outcomes: seq<Outcome>, o: Outcome, p: Blob -> bool)
    requires |stepped| == |outcomes|
    requires OutcomeImplies(stepped, outcomes, o, p)
    ensures var r := Partition(stepped, outcomes);
      AllSatisfy(match o case Starvation => r.starved case OldAge => r.aged case Alive => r.alive, p)
    decreases |stepped|
  {
    if |stepped| > 0 {
      assert OutcomeImplies(stepped[1..], outcomes[1..], o, p) by {
        forall k | 0 <= k < |stepped[1..]| && outcomes[1..][k] == o
          ensures p(stepped[1..][k])
        {
          assert outcomes[k + 1] == o;
        }
      }
      PartitionKeeps(stepped[1..], outcomes[1..], o, p);
    }
  }

  /** The age sums of the three lists add up to that of the whole population. */
  lemma {:induction false} PartitionAges(stepped: seq<Blob>, outcomes: seq<Outcome>)
    requires |stepped| == |outcomes|
    ensures var r := Partition(stepped, outcomes);
      Sum(Ages(r.starved)) + Sum(Ages(r.aged)) + Sum(Ages(r.alive)) == Sum(Ages(stepped))
    decreases |stepped|
  {
    if |stepped| > 0 {
      PartitionAges(stepped[1..], outcomes[1..]);
      var rest := Partition(stepped[1..], outcomes[1..]);
      var head := [stepped[0]];
      assert Ages(stepped) == Ages(head) + Ages(stepped[1..]);
      SumAppend(Ages(head), Ages(stepped[1..]));
      match outcomes[0]
      case Starvation =>
        assert Ages(head + rest.starved) == Ages(head) + Ages(rest.starved);
        SumAppend(Ages(head), Ages(rest.starved));
      case OldAge =>
        assert Ages(head + rest.aged) == Ages(head) + Ages(rest.aged);
        SumAppend(Ages(head), Ages(rest.aged));
      case Alive =>
        assert Ages(head + rest.alive) == Ages(head) + Ages(rest.alive);
        SumAppend(Ages(head), Ages(rest.alive));
    }
  }

  /** Stepping changes no chromosome, so every stepped blob is well formed when
      the population was. */
  lemma SteppedWellFormed(cfg: Config, size: int, blobs: seq<Blob>, walk: Walk)
    requires AllWellFormed(cfg, blobs, size)
    requires SteppedFrom(cfg, size, blobs, 0, walk)
    ensures AllWellFormed(cfg, walk.stepped, size)
  {
    forall m | 0 <= m < |walk.stepped|
      ensures WellFormed(cfg, walk.stepped[m], size)
    {
      assert blobs[0 + m] == blobs[m];
    }
  }

  // ---------------------------------------------------------------------------
  // What the reproduction scan keeps

  /** The survivors and the newborns are well formed: the scan only marks last
      birth years, and a child stands on its first parent's cell with a
      chromosome as long as its parents'. */
  lemma PairingWellFormed(cfg: Config, before: seq<Blob>, p: Pairing, year: int, size: int)
    requires AllWellFormed(cfg, before, size)
    requires OnlyMarked(before, p.blobs, year) && ChildrenOf(cfg, before, p)
    ensures AllWellFormed(cfg, p.blobs + p.children, size)
  {
    var pop := p.blobs + p.children;
    forall k | 0 <= k < |pop|
      ensures WellFormed(cfg, pop[k], size)
    {
      if k < |p.blobs| {
        assert SameOrMarked(before[k], p.blobs[k], year);
      } else {
        var m := k - |p.blobs|;
        assert ChildOf(cfg, p.children[m], before[p.parents[m].0], before[p.parents[m].1]);
      }
    }
  }

  /** The newborns add nothing to the age sum, and age bounds of the survivors
      carry over to the whole population. */
  lemma PairingAges(cfg: Config, before: seq<Blob>, p: Pairing, year: int, bound: int)
    requires OnlyMarked(before, p.blobs, year) && ChildrenOf(cfg, before, p)
    ensures Sum(Ages(p.blobs + p.children)) == Sum(Ages(before))
    ensures bound >= 0 && AgesAtMost(before, bound) ==> AgesAtMost(p.blobs + p.children, bound)
  {
    MarkedAges(before, p.blobs, year);
    forall m | 0 <= m < |p.children|
      ensures p.children[m].age == 0
    {
      assert ChildOf(cfg, p.children[m], before[p.parents[m].0], before[p.parents[m].1]);
    }
    NewbornAges(p.children);
    assert Ages(p.blobs + p.children) == Ages(p.blobs) + Ages(p.children);
    SumAppend(Ages(p.blobs), Ages(p.children));
    if bound >= 0 && AgesAtMost(before, bound) {
      forall k | 0 <= k < |p.blobs + p.children|
        ensures (p.blobs + p.children)[k].age <= bound
      {
        if k < |p.blobs| {
          assert Ages(p.blobs)[k] == Ages(before)[k];
        }
      }
    }
  }

  /** A gene no survivor carries is carried by no newborn either. */
  lemma PairingLacksGene(cfg: Config, before: seq<Blob>, p: Pairing, year: int, g: nat)
    requires OnlyMarked(before, p.blobs, year) && ChildrenOf(cfg, before, p)
    requires forall k :: 0 <= k < |before| ==> !(g < |before[k].chromosome| && before[k].chromosome[g])
    ensures CountGene(p.blobs + p.children, g) == 0
  {
    var pop := p.blobs + p.children;
    forall k | 0 <= k < |pop|
      ensures !(g < |pop[k].chromosome| && pop[k].chromosome[g])
    {
      if k < |p.blobs| {
        assert SameOrMarked(before[k], p.blobs[k], year);
      } else {
        var m := k - |p.blobs|;
        var q := p.parents[m];
        assert ChildOf(cfg, p.children[m], before[q.0], before[q.1]);
      }
    }
    CountGeneZero(pop, g);
  }

  // ---------------------------------------------------------------------------
  // One year

  /** What happens in one year before its record is written: the blob phase on the
      grown trees, the outcome lists, and the reproduction scan over the survivors. */
  datatype Year = Year(walk: Walk, split: Split, pairing: Pairing)

  /** The year's phases: apples grow on every listed tree, every blob steps on the
      grown trees, the stepped blobs are split by outcome, and the survivors go
      through the reproduction scan. */
  function Live(cfg: Config, w: World, year: int, draws: YearDraws): (y: Year)
    requires ValidWorld(cfg, w)
    ensures y.walk == StepBlobs(cfg, w.size, w.grid, GrowApples(w.trees, draws.grow), w.blobs, 0, draws)
    ensures |y.walk.trees| == |w.trees|
    ensures SteppedFrom(cfg, w.size, w.blobs, 0, y.walk)
    ensures y.split == Partition(y.walk.stepped, y.walk.outcomes)
    ensures AllWellFormed(cfg, y.walk.stepped, w.size)
    ensures AllWellFormed(cfg, y.split.alive, w.size)
    ensures y.pairing == ReproduceBlobs(cfg, w.reproduction, year, y.split.alive, draws.inherit)
  {
    var grown := GrowApples(w.trees, draws.grow);
    var walk := StepBlobs(cfg, w.size, w.grid, grown, w.blobs, 0, draws);
    StepBlobsSteps(cfg, w.size, w.grid, grown, w.blobs, 0, draws);
    SteppedWellFormed(cfg, w.size, w.blobs, walk);
    var split := Partition(walk.stepped, walk.outcomes);
    var p := (b: Blob) => WellFormed(cfg, b, w.size);
    PartitionKeeps(walk.stepped, walk.outcomes, Alive, p);
    var pairing := ReproduceBlobs(cfg, w.reproduction, year, split.alive, draws.inherit);
    Year(walk, split, pairing)
  }

  /** The population at the end of the year: the survivors, marked by the scan,
      followed by the newborns. */
  function Population(y: Year): seq<Blob> {
    y.pairing.blobs + y.pairing.children
  }

  /** The statistics record of the year: it adds the year's deaths and births to
      the running totals before it, its death ages and averages count the same
      blobs as its counters, and its original and newborn counts count the blobs
      of the end-of-year population aged exactly year + 1 and younger. */
  function Record(w: World, year: int, y: Year): (s: Stats)
    ensures s.year == year
    ensures RecordFollows(s, LastCumulativeDeaths(w.stats), w.totalBirths)
    ensures s.aliveOriginal == |OfAge(Population(y), year + 1)|
    ensures s.aliveNewborns == |YoungerThan(Population(y), year + 1)|
    ensures s.aliveOriginal <= s.alive && s.aliveNewborns <= s.alive
  {
    SumAppend(Ages(y.split.starved), Ages(y.split.aged));
    CountAgeMembers(Population(y), year + 1);
    CountYoungerMembers(Population(y), year + 1);
    var blobs := Population(y);
    var born := |y.pairing.children|;
    var deaths := |y.split.starved| + |y.split.aged|;
    Stats(
      year := year,
      alive := |blobs|,
      aliveOriginal := CountAge(blobs, year + 1),
      aliveNewborns := CountYounger(blobs, year + 1),
      deadFromStarvation := |y.split.starved|,
      deadFromOldAge := |y.split.aged|,
      cumulativeDeaths := LastCumulativeDeaths(w.stats) + deaths,
      bornThisYear := born,
      cumulativeBirths := w.totalBirths + born,
      avgAgeAlive := MeanOf(blobs),
      avgAgeDeadStarvation := MeanOf(y.split.starved),
      avgAgeDeadOldAge := MeanOf(y.split.aged),
      deathAges := Ages(y.split.starved) + Ages(y.split.aged))
  }


  /** World.step with the year's draws given. */
  function WorldStep(cfg: Config, w: World, year: int, draws: YearDraws): (r: World)
    requires ValidWorld(cfg, w)
    ensures ValidWorld(cfg, r)
    ensures |r.stats| == |w.stats| + 1 && r.stats[..|w.stats|] == w.stats
    ensures r.stats[|w.stats|].year == year
    ensures r.size == w.size && r.grid == w.grid && r.reproduction == w.reproduction
    ensures |r.trees| == |w.trees|
    ensures r.blobs == Population(Live(cfg, w, year, draws))
    ensures r.trees == Live(cfg, w, year, draws).walk.trees
    ensures r.stats[|w.stats|] == Record(w, year, Live(cfg, w, year, draws))
  {
    var y := Live(cfg, w, year, draws);
    var s := Record(w, year, y);
    PairingWellFormed(cfg, y.split.alive, y.pairing, year, w.size);
    NextValid(cfg, w, y.walk.trees, Population(y), s);
    assert (w.stats + [s])[..|w.stats|] == w.stats;
    World(w.size, w.grid, y.walk.trees, Population(y), w.reproduction, w.stats + [s],
          w.totalBirths + s.bornThisYear)
  }

  /** A world that appends a record following its last one, keeps the number of
      trees and holds a well formed population is valid again. */
  lemma NextValid(cfg: Config, w: World, trees: seq<bool>, blobs: seq<Blob>, s: Stats)
    requires ValidWorld(cfg, w)
    requires |trees| == |w.trees| && AllWellFormed(cfg, blobs, w.size)
    requires RecordFollows(s, LastCumulativeDeaths(w.stats), LastCumulativeBirths(w.stats))
    ensures ValidWorld(cfg, World(w.size, w.grid, trees, blobs, w.reproduction, w.stats + [s],
                                  w.totalBirths + s.bornThisYear))
  {
    assert GridWellFormed(w.grid, trees, w.size) by {
      assert TreeIdsValid(w.grid, w.trees);
    }
    assert StatsConsistent(w.stats + [s]) by {
      StatsConsistentAppend(w.stats, s);
    }
    assert LastCumulativeBirths(w.stats + [s]) == w.totalBirths + s.bornThisYear;
  }

  // ---------------------------------------------------------------------------
  // What one year promises

  /** The record of a year counts every blob of the year once: each starves, dies
      of old age or survives, the alive count adds the newborns to the survivors,
      and cumulative deaths grow by the year's deaths. */
  lemma YearHeadCount(cfg: Config, w: World, year: int, draws: YearDraws)
    requires ValidWorld(cfg, w)
    ensures var r := WorldStep(cfg, w, year, draws);
      var s := r.stats[|w.stats|];
      && s.deadFromStarvation + s.deadFromOldAge + s.alive == |w.blobs| + s.bornThisYear
      && s.alive == |r.blobs|
      && s.cumulativeDeaths == LastCumulativeDeaths(w.stats) + s.deadFromStarvation + s.deadFromOldAge
      && LastCumulativeDeaths(w.stats) <= LastCumulativeDeaths(r.stats)
  {
    var y := Live(cfg, w, year, draws);
    assert |y.pairing.blobs| == |y.split.alive|;
    assert |y.split.starved| + |y.split.aged| + |y.split.alive| == |y.walk.stepped| == |w.blobs|;
  }

  /** The ages of a list of blobs, one year older. */
  lemma {:induction false} SteppedAges(blobs: seq<Blob>, stepped: seq<Blob>)
    requires |stepped| == |blobs|
    requires forall m :: 0 <= m < |blobs| ==> stepped[m].age == blobs[m].age + 1
    ensures Sum(Ages(stepped)) == Sum(Ages(blobs)) + |blobs|
    decreases |blobs|
  {
    if |blobs| > 0 {
      assert Ages(stepped)[1..] == Ages(stepped[1..]);
      assert Ages(blobs)[1..] == Ages(blobs[1..]);
      SteppedAges(blobs[1..], stepped[1..]);
    }
  }

  /** Newborns add nothing to an age sum. */
  lemma {:induction false} NewbornAges(children: seq<Blob>)
    requires forall m :: 0 <= m < |children| ==> children[m].age == 0
    ensures Sum(Ages(children)) == 0
    decreases |children|
  {
    if |children| > 0 {
      assert Ages(children)[1..] == Ages(children[1..]);
      NewbornAges(children[1..]);
    }
  }

  /** Marking last birth years changes no age. */
  lemma MarkedAges(before: seq<Blob>, after: seq<Blob>, year: int)
    requires OnlyMarked(before, after, year)
    ensures Ages(after) == Ages(before)
  {
    assert forall k :: 0 <= k < |before| ==> SameOrMarked(before[k], after[k], year);
  }

  /** The age sum of the year's end population and of its dead, in terms of the
      population the year began with. */
  lemma LiveAges(cfg: Config, w: World, year: int, draws: YearDraws)
    requires ValidWorld(cfg, w)
    ensures var y := Live(cfg, w, year, draws);
      Sum(Ages(Population(y))) + Sum(Ages(y.split.starved)) + Sum(Ages(y.split.aged))
      == Sum(Ages(w.blobs)) + |w.blobs|
  {
    var y := Live(cfg, w, year, draws);
    PartitionAges(y.walk.stepped, y.walk.outcomes);
    forall m | 0 <= m < |w.blobs|
      ensures y.walk.stepped[m].age == w.blobs[m].age + 1
    {
      assert w.blobs[0 + m] == w.blobs[m];
    }
    SteppedAges(w.blobs, y.walk.stepped);
    PairingAges(cfg, y.split.alive, y.pairing, year, 0);
  }


  /** Nobody escapes the year: every blob alive when it began is one year older at
      its end, dead or alive, so the age sum of the alive population (newborns
      included, who are 0) plus the year's death ages is the age sum before the
      year plus the number of blobs. */
  lemma YearAgeLedger(cfg: Config, w: World, year: int, draws: YearDraws)
    requires ValidWorld(cfg, w)
    ensures var r := WorldStep(cfg, w, year, draws);
      var s := r.stats[|w.stats|];
      s.avgAgeAlive.sum + Sum(s.deathAges) == Sum(Ages(w.blobs)) + |w.blobs|
  {
    var y := Live(cfg, w, year, draws);
    LiveAges(cfg, w, year, draws);
    SumAppend(Ages(y.split.starved), Ages(y.split.aged));
  }

  /** The death ages list the ages of the starved first and of the old-age deaths
      after them, each in population order and each part summing to its own
      average's sum. */
  lemma YearDeathAgesOrder(cfg: Config, w: World, year: int, draws: YearDraws)
    requires ValidWorld(cfg, w)
    ensures var r := WorldStep(cfg, w, year, draws);
      var s := r.stats[|w.stats|];
      var split := Live(cfg, w, year, draws).split;
      && s.deathAges[..s.deadFromStarvation] == Ages(split.starved)
      && s.deathAges[s.deadFromStarvation..] == Ages(split.aged)
      && Sum(s.deathAges[..s.deadFromStarvation]) == s.avgAgeDeadStarvation.sum
      && Sum(s.deathAges[s.deadFromStarvation..]) == s.avgAgeDeadOldAge.sum
  {
    var y := Live(cfg, w, year, draws);
    var s := Record(w, year, y);
    assert s.deathAges[..s.deadFromStarvation] == Ages(y.split.starved);
    assert s.deathAges[s.deadFromStarvation..] == Ages(y.split.aged);
  }

  /** The year's births: none when reproduction is off, the running total grows
      by the year's births, and with a cooldown of at least one year no survivor
      is a parent twice, so at most half the survivors' number of children is born. */
  lemma YearBirths(cfg: Config, w: World, year: int, draws: YearDraws)
    requires ValidWorld(cfg, w)
    ensures var r := WorldStep(cfg, w, year, draws);
      var s := r.stats[|w.stats|];
      && r.totalBirths == w.totalBirths + s.bornThisYear == s.cumulativeBirths
      && (!w.reproduction ==> s.bornThisYear == 0 && r.totalBirths == w.totalBirths)
      && (cfg.reproductionCooldown >= 1 ==> 2 * s.bornThisYear <= s.alive - s.bornThisYear)
  {
    var y := Live(cfg, w, year, draws);
    assert |y.pairing.blobs| == |y.split.alive|;
  }

  /** Who may die of what: the starved are exactly the stepped blobs without
      energy, so old-age deaths and survivors all still have energy. */
  lemma YearCausesOfDeath(cfg: Config, w: World, year: int, draws: YearDraws)
    requires ValidWorld(cfg, w)
    ensures var split := Live(cfg, w, year, draws).split;
      && (forall m :: 0 <= m < |split.starved| ==> split.starved[m].energy <= 0)
      && (forall m :: 0 <= m < |split.aged| ==> split.aged[m].energy > 0)
      && (forall m :: 0 <= m < |split.alive| ==> split.alive[m].energy > 0)
  {
    var y := Live(cfg, w, year, draws);
    var stepped := y.walk.stepped;
    var outcomes := y.walk.outcomes;
    forall k | 0 <= k < |stepped|
      ensures outcomes[k] == Starvation <==> stepped[k].energy <= 0
    {
      assert 0 + k == k;
    }
    var spent := (b: Blob) => b.energy <= 0;
    var fed := (b: Blob) => b.energy > 0;
    PartitionKeeps(stepped, outcomes, Starvation, spent);
    PartitionKeeps(stepped, outcomes, OldAge, fed);
    PartitionKeeps(stepped, outcomes, Alive, fed);
  }

  /** If nobody is older than the year when it begins, nobody is older than the
      year plus one when it ends, and every blob is either exactly that old, an
      original blob, or younger, a newborn. */
  lemma YearAgeSplit(cfg: Config, w: World, year: int, draws: YearDraws)
    requires ValidWorld(cfg, w)
    requires year >= 0 && AgesAtMost(w.blobs, year)
    ensures var r := WorldStep(cfg, w, year, draws);
      var s := r.stats[|w.stats|];
      && AgesAtMost(r.blobs, year + 1)
      && s.aliveOriginal + s.aliveNewborns == s.alive
  {
    var y := Live(cfg, w, year, draws);
    SurvivorsAged(cfg, w, year, draws);
    PairingAges(cfg, y.split.alive, y.pairing, year, year + 1);
    CountAgeSplit(Population(y), year + 1);
  }

  /** Survivors are one year older than they were. */
  lemma SurvivorsAged(cfg: Config, w: World, year: int, draws: YearDraws)
    requires ValidWorld(cfg, w)
    requires AgesAtMost(w.blobs, year)
    ensures AgesAtMost(Live(cfg, w, year, draws).split.alive, year + 1)
  {
    var y := Live(cfg, w, year, draws);
    var stepped := y.walk.stepped;
    forall k | 0 <= k < |stepped|
      ensures stepped[k].age <= year + 1
    {
      assert stepped[k].age == w.blobs[0 + k].age + 1;
    }
    var young := (b: Blob) => b.age <= year + 1;
    PartitionKeeps(stepped, y.walk.outcomes, Alive, young);
    assert AllSatisfy(y.split.alive, young);
  }

  /** There is no mutation: a gene that no blob carries when the year begins is
      carried by no blob when it ends, newborns included. */
  lemma YearGeneExtinct(cfg: Config, w: World, year: int, draws: YearDraws, g: nat)
    requires ValidWorld(cfg, w)
    requires CountGene(w.blobs, g) == 0
    ensures CountGene(WorldStep(cfg, w, year, draws).blobs, g) == 0
  {
    var y := Live(cfg, w, year, draws);
    var stepped := y.walk.stepped;
    CountGeneZero(w.blobs, g);
    var lacks := (b: Blob) => !(g < |b.chromosome| && b.chromosome[g]);
    forall k | 0 <= k < |stepped|
      ensures lacks(stepped[k])
    {
      assert stepped[k].chromosome == w.blobs[0 + k].chromosome;
    }
    PartitionKeeps(stepped, y.walk.outcomes, Alive, lacks);
    PairingLacksGene(cfg, y.split.alive, y.pairing, year, g);
  }

  /** Under the shipped constants, whose cooldown is three years, no survivor is a
      parent twice in a year, so a year never has more births than half its
      survivors. */
  lemma ShippedBirthBound(w: World, year: int, draws: YearDraws)
    requires ValidWorld(Default(), w)
    ensures var y := Live(Default(), w, year, draws);
      && DisjointPairs(y.pairing.parents)
      && EligiblePairs(Default(), y.split.alive, y.pairing.parents, year)
    ensures var r := WorldStep(Default(), w, year, draws);
      var s := r.stats[|w.stats|];
      2 * s.bornThisYear <= s.alive - s.bornThisYear
  {
    YearBirths(Default(), w, year, draws);
  }

  /** The population a year leaves: the survivors, in population order, with the
      parents of the year's children marked with the year and every other survivor
      unchanged, followed by the children of the listed pairs. The trees are those
      the blob phase left on the grown list. */
  lemma YearPopulation(cfg: Config, w: World, year: int, draws: YearDraws)
    requires ValidWorld(cfg, w)
    ensures var y := Live(cfg, w, year, draws);
      var alive := Filter(y.walk.stepped, y.walk.outcomes, Alive);
      var p := y.pairing;
      var r := WorldStep(cfg, w, year, draws);
      && r.blobs == p.blobs + p.children
      && r.trees == StepBlobs(cfg, w.size, w.grid, GrowApples(w.trees, draws.grow), w.blobs, 0, draws).trees
      && OnlyMarked(alive, p.blobs, year)
      && ParentsMarked(p, year)
      && UnmatedKept(alive, p)
      && ChildrenOf(cfg, alive, p)
      && (w.reproduction ==> ScanChoice(cfg, alive, p.parents, 0, 1, year))
      && (!w.reproduction ==> p.blobs == alive && p.children == [])
  {
    var y := Live(cfg, w, year, draws);
    PartitionFilters(y.walk.stepped, y.walk.outcomes);
  }

  /** A blob that parented a child this year is refused by can_reproduce next
      year, whoever it meets, when the cooldown is longer than one year. */
  lemma ParentsRest(cfg: Config, w: World, year: int, draws: YearDraws, m: nat, other: Blob)
    requires ValidWorld(cfg, w) && cfg.reproductionCooldown >= 2
    requires m < |Live(cfg, w, year, draws).pairing.parents|
    ensures var y := Live(cfg, w, year, draws);
      var r := WorldStep(cfg, w, year, draws);
      var q := y.pairing.parents[m];
      && q.0 < |r.blobs| && q.1 < |r.blobs|
      && r.blobs[q.0].lastBirthYear == year && r.blobs[q.1].lastBirthYear == year
      && !CanReproduce(cfg, r.blobs[q.0], other, year + 1)
      && !CanReproduce(cfg, other, r.blobs[q.1], year + 1)
  {
    var y := Live(cfg, w, year, draws);
    var p := y.pairing;
    var q := p.parents[m];
    assert p.blobs[q.0].lastBirthYear == year && p.blobs[q.1].lastBirthYear == year;
    assert (p.blobs + p.children)[q.0] == p.blobs[q.0];
    assert (p.blobs + p.children)[q.1] == p.blobs[q.1];
  }

  /** From year 0 on, every child of the year counts as a newborn of its record. */
  lemma YearNewborns(cfg: Config, w: World, year: int, draws: YearDraws)
    requires ValidWorld(cfg, w) && year >= 0
    ensures var s := WorldStep(cfg, w, year, draws).stats[|w.stats|];
      s.bornThisYear <= s.aliveNewborns
  {
    var y := Live(cfg, w, year, draws);
    var p := y.pairing;
    forall m | 0 <= m < |p.children|
      ensures p.children[m].age < year + 1
    {
      assert ChildOf(cfg, p.children[m], y.split.alive[p.parents[m].0], y.split.alive[p.parents[m].1]);
    }
    CountYoungerAll(p.children, year + 1);
    CountYoungerAppend(p.blobs, p.children, year + 1);
  }
}
