/**
 A blob: a mobile agent with a position, an age, an energy reserve, the year it
 last reproduced and a chromosome of on/off aging genes.

 Each operation that draws randomly in the program takes the draw as an input:
 move takes the chosen direction, step takes the death trial of every gene, and
 reproduce takes, for every gene, whether the child's bit comes from the other
 parent.
 */
module Blobs {
  import opened SimConfig
  import opened Trees

  /** The four unit moves, in the order move chooses from:
      (0, 1), (0, -1), (1, 0), (-1, 0). */
  datatype Direction = North | South | East | West

  function DeltaX(d: Direction): int {
    match d
    case East => 1
    case West => -1
    case _ => 0
  }

  function DeltaY(d: Direction): int {
    match d
    case North => 1
    case South => -1
    case _ => 0
  }

  datatype Blob = Blob(
    x: int,
    y: int,
    age: nat,
    energy: int,
    lastBirthYear: int,
    chromosome: seq<bool>)

  /** What one step of a blob comes to. */
  datatype Outcome = Alive | Starvation | OldAge

  function Abs(v: int): nat {
    if v < 0 then -v else v
  }

  /** Manhattan distance between two blobs. */
  function Distance(a: Blob, b: Blob): nat {
    Abs(a.x - b.x) + Abs(a.y - b.y)
  }

  predicate OnGrid(b: Blob, size: int) {
    InBounds((b.x, b.y), size)
  }

  /** A blob of a world of the given size: on the grid, with one bit per gene. */
  predicate WellFormed(cfg: Config, b: Blob, size: int) {
    OnGrid(b, size) && |b.chromosome| == cfg.numGenes
  }

  predicate AllWellFormed(cfg: Config, blobs: seq<Blob>, size: int) {
    forall k :: 0 <= k < |blobs| ==> WellFormed(cfg, blobs[k], size)
  }

  /** The blob constructor, given its draws: the cell (each coordinate drawn from
      0 to size - 1) and the chromosome (one bit per gene). */
  function NewBlob(cfg: Config, size: int, energy: int, x: int, y: int, chromosome: seq<bool>): (b: Blob)
    requires InBounds((x, y), size)
    requires |chromosome| == cfg.numGenes
    ensures WellFormed(cfg, b, size)
    ensures b.age == 0 && b.energy == energy && b.lastBirthYear == InitialLastBirthYear
  {
    Blob(x, y, 0, energy, InitialLastBirthYear, chromosome)
  }

  /** np.clip(v, lo, hi): raise to lo, then lower to hi. */
  function Clip(v: int, lo: int, hi: int): (r: int)
    ensures lo <= hi ==> lo <= r <= hi
    ensures lo <= v <= hi ==> r == v
  {
    var raised := if v < lo then lo else v;
    if raised > hi then hi else raised
  }

  /** Blob.move: one unit step in direction d, each coordinate clipped to the grid.
      The boundary is sticky: a blob at an edge that draws the outward direction
      stays where it is. */
  function Move(b: Blob, size: int, d: Direction): (r: Blob)
    ensures r == b.(x := r.x, y := r.y)
    ensures OnGrid(b, size) ==> OnGrid(r, size) && Distance(b, r) <= 1
    ensures OnGrid(b, size) && InBounds((b.x + DeltaX(d), b.y + DeltaY(d)), size) ==>
      r.x == b.x + DeltaX(d) && r.y == b.y + DeltaY(d)
    ensures OnGrid(b, size) && !InBounds((b.x + DeltaX(d), b.y + DeltaY(d)), size) ==>
      r.x == b.x && r.y == b.y
  {
    b.(x := Clip(b.x + DeltaX(d), 0, size - 1), y := Clip(b.y + DeltaY(d), 0, size - 1))
  }

  /** A blob and the tree flags after it has eaten. */
  datatype Meal = Meal(blob: Blob, trees: seq<bool>)

  /** Blob.eat: a ripe tree on the blob's own cell loses its apple and the blob
      gains AppleEnergy; otherwise nothing changes. No other tree is touched. */
  function Eat(b: Blob, grid: Grid, trees: seq<bool>): (r: Meal)
    requires TreeIdsValid(grid, trees)
    ensures |r.trees| == |trees|
    ensures r.blob == b.(energy := r.blob.energy)
    ensures HasRipeTree(grid, trees, (b.x, b.y)) ==>
      r.blob.energy == b.energy + AppleEnergy && !r.trees[grid[(b.x, b.y)]]
    ensures !HasRipeTree(grid, trees, (b.x, b.y)) ==> r.blob == b && r.trees == trees
    ensures forall t :: 0 <= t < |trees| && ((b.x, b.y) !in grid || t != grid[(b.x, b.y)]) ==>
      r.trees[t] == trees[t]
  {
    var c := (b.x, b.y);
    if c in grid && trees[grid[c]] then
      Meal(b.(energy := b.energy + AppleEnergy), trees[grid[c] := false])
    else
      Meal(b, trees)
  }

  /** Eating moves food from the trees into the blob: blob energy plus the energy
      of the apples left on the trees is the same before and after. */
  lemma EatConservesFood(b: Blob, grid: Grid, trees: seq<bool>)
    requires TreeIdsValid(grid, trees)
    ensures var r := Eat(b, grid, trees);
      r.blob.energy + AppleEnergy * CountApples(r.trees) == b.energy + AppleEnergy * CountApples(trees)
  {
    var c := (b.x, b.y);
    if c in grid && trees[grid[c]] {
      CountApplesPick(trees, grid[c]);
    }
  }

  /** Gene g can kill at this age: it is one of the aging genes 1..numGenes-1, it
      is ON, the age has reached its threshold, and its death trial fired. */
  predicate GeneFires(cfg: Config, chromosome: seq<bool>, age: int, trial: nat -> bool, g: nat)
    requires Valid(cfg) && |chromosome| == cfg.numGenes
  {
    1 <= g < cfg.numGenes && chromosome[g] && age >= cfg.agingThresholds[g] && trial(g)
  }

  /** The gene whose trial ended the scan, if any. */
  datatype GeneHit = NoHit | Hit(gene: nat)

  /** The aging-gene scan from gene `from` upward: each gene that is ON and past
      its threshold gets its own trial, and the scan stops at the first trial that
      fires. It does not stop at the first eligible gene whose trial fails. */
  function ScanGenes(cfg: Config, chromosome: seq<bool>, age: int, trial: nat -> bool, from: nat): (r: GeneHit)
    requires Valid(cfg) && |chromosome| == cfg.numGenes
    requires from >= 1
    ensures r.Hit? ==> from <= r.gene && GeneFires(cfg, chromosome, age, trial, r.gene)
    ensures r.Hit? ==> forall g :: from <= g < r.gene ==> !GeneFires(cfg, chromosome, age, trial, g)
    ensures r.NoHit? ==> forall g :: from <= g ==> !GeneFires(cfg, chromosome, age, trial, g)
    decreases cfg.numGenes - from
  {
    if from >= cfg.numGenes then NoHit
    else if chromosome[from] && age >= cfg.agingThresholds[from] && trial(from) then Hit(from)
    else ScanGenes(cfg, chromosome, age, trial, from + 1)
  }

  /** A blob after its step, the tree flags after its meal, and the outcome. */
  datatype StepResult = StepResult(blob: Blob, trees: seq<bool>, outcome: Outcome)

  /** Blob.step: move, eat, lose energy, age by one year, then decide. Only the
      tree on the cell the blob moved to can lose its apple. Starvation
      is checked first and wins whatever the chromosome; otherwise the blob dies
      of old age exactly when some aging gene fires at its new age. Gene 0 never
      kills. */
  function Step(cfg: Config, size: int, b: Blob, grid: Grid, trees: seq<bool>,
                d: Direction, trial: nat -> bool): (r: StepResult)
    requires Valid(cfg) && |b.chromosome| == cfg.numGenes
    requires TreeIdsValid(grid, trees)
    ensures |r.trees| == |trees|
    ensures r.blob.age == b.age + 1
    ensures r.blob.chromosome == b.chromosome && r.blob.lastBirthYear == b.lastBirthYear
    ensures r.blob.x == Move(b, size, d).x && r.blob.y == Move(b, size, d).y
    ensures var moved := Move(b, size, d); var c := (moved.x, moved.y);
      HasRipeTree(grid, trees, c) ==> !r.trees[grid[c]]
    ensures var moved := Move(b, size, d); var c := (moved.x, moved.y);
      forall t :: 0 <= t < |trees| && (c !in grid || t != grid[c]) ==> r.trees[t] == trees[t]
    ensures OnGrid(b, size) ==> OnGrid(r.blob, size)
    ensures var moved := Move(b, size, d);
      r.blob.energy == b.energy - cfg.energyLossPerStep
                       + (if HasRipeTree(grid, trees, (moved.x, moved.y)) then AppleEnergy else 0)
    ensures r.outcome == Starvation <==> r.blob.energy <= 0
    ensures r.outcome == OldAge <==>
      r.blob.energy > 0 && exists g :: GeneFires(cfg, b.chromosome, r.blob.age, trial, g)
    ensures r.outcome == Alive <==>
      r.blob.energy > 0 && forall g :: !GeneFires(cfg, b.chromosome, r.blob.age, trial, g)
  {
    var moved := Move(b, size, d);
    var meal := Eat(moved, grid, trees);
    var aged := meal.blob.(energy := meal.blob.energy - cfg.energyLossPerStep, age := meal.blob.age + 1);
    var hit := ScanGenes(cfg, aged.chromosome, aged.age, trial, 1);
    var outcome :=
      if aged.energy <= 0 then Starvation
      else if hit.Hit? then OldAge
      else Alive;
    StepResult(aged, meal.trees, outcome)
  }

  /** A step moves food from the trees into the blob and burns the step's cost:
      blob energy plus the energy of the apples left on the trees falls by exactly
      the energy lost per step. */
  lemma StepConservesFood(cfg: Config, size: int, b: Blob, grid: Grid, trees: seq<bool>,
                          d: Direction, trial: nat -> bool)
    requires Valid(cfg) && |b.chromosome| == cfg.numGenes
    requires TreeIdsValid(grid, trees)
    ensures var r := Step(cfg, size, b, grid, trees, d, trial);
      r.blob.energy + AppleEnergy * CountApples(r.trees)
      == b.energy - cfg.energyLossPerStep + AppleEnergy * CountApples(trees)
  {
    EatConservesFood(Move(b, size, d), grid, trees);
  }

  /** A blob taken on its own may reproduce in a year: it is old enough and past
      the cooldown since its last birth. */
  predicate Ready(cfg: Config, x: Blob, year: int) {
    x.age >= cfg.reproductionMinAge && year >= x.lastBirthYear + cfg.reproductionCooldown
  }

  /** Blob.can_reproduce: both blobs old enough, close enough, and both past the
      cooldown since their last birth. The cooldown is only a minimum spacing. A
      pair may reproduce exactly when each blob is ready on its own and the two
      are within reach. */
  predicate CanReproduce(cfg: Config, a: Blob, b: Blob, year: int): (r: bool)
    ensures r <==> Ready(cfg, a, year) && Ready(cfg, b, year) && Distance(a, b) <= cfg.reproductionMaxDistance
  {
    if a.age >= cfg.reproductionMinAge && b.age >= cfg.reproductionMinAge then
      if Distance(a, b) <= cfg.reproductionMaxDistance then
        year >= a.lastBirthYear + cfg.reproductionCooldown
        && year >= b.lastBirthYear + cfg.reproductionCooldown
      else false
    else false
  }

  /** Whether a pair may reproduce does not depend on which of the two asks. */
  lemma CanReproduceSymmetric(cfg: Config, a: Blob, b: Blob, year: int)
    ensures CanReproduce(cfg, a, b, year) <==> CanReproduce(cfg, b, a, year)
  {
  }

  /** A blob that reproduced this year cannot reproduce again this year when the
      cooldown is at least one year. */
  lemma CooldownBlocksSameYear(cfg: Config, a: Blob, b: Blob, year: int)
    requires cfg.reproductionCooldown >= 1
    requires a.lastBirthYear == year || b.lastBirthYear == year
    ensures !CanReproduce(cfg, a, b, year)
  {
  }

  /** The child of a and b: on a's cell, in the shape of a newly made blob, with
      every chromosome bit copied from one parent or the other at that gene. */
  predicate ChildOf(cfg: Config, child: Blob, a: Blob, b: Blob)
  {
    && child.x == a.x && child.y == a.y
    && child.age == 0 && child.energy == cfg.birthEnergy
    && child.lastBirthYear == InitialLastBirthYear
    && |child.chromosome| == |a.chromosome| == |b.chromosome|
    && forall g :: 0 <= g < |a.chromosome| ==>
         child.chromosome[g] == a.chromosome[g] || child.chromosome[g] == b.chromosome[g]
  }

  /** Blob.reproduce: pick(g) says whether gene g of the child comes from b
      (true) or from a (false). The parents are values and stay unchanged. */
  function Reproduce(cfg: Config, a: Blob, b: Blob, pick: nat -> bool): (child: Blob)
    requires |a.chromosome| == cfg.numGenes && |b.chromosome| == cfg.numGenes
    ensures ChildOf(cfg, child, a, b)
    ensures forall g :: 0 <= g < cfg.numGenes && a.chromosome[g] == b.chromosome[g] ==>
      child.chromosome[g] == a.chromosome[g]
  {
    var genes := seq(|a.chromosome|, g requires 0 <= g < |a.chromosome| =>
      if pick(g) then b.chromosome[g] else a.chromosome[g]);
    Blob(a.x, a.y, 0, cfg.birthEnergy, InitialLastBirthYear, genes)
  }

  /** Every mix of the parents' bits is the child of some inheritance draw. */
  lemma ReproduceReachesEveryMix(cfg: Config, a: Blob, b: Blob, genes: seq<bool>)
    requires |a.chromosome| == cfg.numGenes && |b.chromosome| == cfg.numGenes
    requires |genes| == cfg.numGenes
    requires forall g :: 0 <= g < |genes| ==> genes[g] == a.chromosome[g] || genes[g] == b.chromosome[g]
    ensures exists pick: nat -> bool :: Reproduce(cfg, a, b, pick).chromosome == genes
  {
    var pick := (g: nat) => g < |genes| && genes[g] != a.chromosome[g];
    assert Reproduce(cfg, a, b, pick).chromosome == genes;
  }
}
