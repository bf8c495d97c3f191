/**
 The tunable constants of the aging simulation, gathered into one immutable value
 that is passed to every operation instead of being read from module-level globals.

 Probabilities (apple growth, gene death, inheritance split) do not appear here:
 every random draw of the simulation is an explicit input of the operation that
 makes it. The world size, tree and blob counts and the reproduction switch are
 arguments of the world constructor, as they are in the program.
 */
module SimConfig {

  /** The constants the simulation engine reads. */
  datatype Config = Config(
    energyLossPerStep: int,
    numGenes: nat,
    agingThresholds: seq<int>,
    birthEnergy: int,
    reproductionCooldown: int,
    reproductionMinAge: int,
    reproductionMaxDistance: int)

  /** Every gene has an age threshold. */
  predicate Valid(cfg: Config) {
    |cfg.agingThresholds| == cfg.numGenes
  }

  /** Energy an eaten apple gives. The engine hard-codes this value and never
      reads the configured apple gain. */
  const AppleEnergy: int := 3

  /** Starting energy of a blob made by the world constructor: the default of the
      blob constructor's parameter, not the configured initial energy. */
  const DefaultEnergy: int := 10

  /** The last birth year every new blob starts with. */
  const InitialLastBirthYear: int := -5

  /** The shipped configuration: ten genes whose thresholds grow by ten years per
      gene, one energy lost per step, a three-year cooldown. */
  function Default(): (cfg: Config)
    ensures Valid(cfg)
    ensures cfg.numGenes == 10
    ensures forall g :: 0 <= g < cfg.numGenes ==> cfg.agingThresholds[g] == 10 * g
    ensures cfg.reproductionCooldown >= 1
  {
    Config(
      energyLossPerStep := 1,
      numGenes := 10,
      agingThresholds := seq(10, g => 10 * g),
      birthEnergy := 10,
      reproductionCooldown := 3,
      reproductionMinAge := 15,
      reproductionMaxDistance := 2)
  }
}
