# Aging_Sim in Dafny

This project models the simulation engine of Aging_Sim. Blobs forage on a square grid of
trees that grow apples. They age and die of starvation, or of old age when an aging gene
fires. Blobs that are close and old enough reproduce, and the world writes one statistics
record per year. The engine is `world.py` (Tree, Blob, World). `analysis.py` drives it year
by year and flattens the recorded death ages.

Every random draw is an explicit input, so each operation is a deterministic function:

- the direction a blob moves;
- the growth trial of each tree;
- the death trial of each aging gene;
- the choice of parent for each inherited gene;
- the constructor's cells and chromosomes.

The modules follow the program:

- `SimConfig` (config.dfy): the constants of `config.py`, passed as one `Config` value.
- `Trees` (trees.dfy): the tree list, kept as `has_apple` flags, and the grid.
  - The grid maps each occupied cell to the index of its tree in that list. Eating through
    the grid and growing through the list therefore act on the same tree, as the shared
    Python objects do.
  - Planting over an occupied cell leaves the old tree in the list, unreachable from the grid.
- `Blobs` (blob.dfy): `Blob.__init__`, `move`, `eat`, `step`, `can_reproduce`, `reproduce`.
- `Reproduction` (reproduction.dfy): `World.reproduce_blobs`.
  - The nested `i < j` loop is an index recursion `Scan`.
  - It runs over the population as updated so far, so a parent marked early in the scan is
    refused later, as in the program.
- `Worlds` (world.py's World): the constructor, `get_gene_distribution` and `step`, plus the
  statistics ledger. `grow_apples` is `Trees.GrowApples`, since it only touches the tree list.
  - Averages are kept as integer `(sum, count)` pairs. `(0, 0)` stands for the program's
    0 on an empty list.
  - The alive average and the original/newborn split are taken over the survivors plus the
    year's newborns. In the program `self.blobs` is the survivor list, extended in place by
    the children.
- `Analysis` (analysis.dfy): `run_simulation` as a loop method, shown equal to the recursive
  run `Run`, and `extract_death_ages`.

Some details of the code that the model keeps as written:

- **Gene scan.** In `Blob.step` every gene that is ON and past its threshold gets its own
  trial, in index order, and the scan stops at the first trial that fires (world.py:56-59,
  `Blobs.ScanGenes`).
- **Energy constants.** A new blob's energy is the constructor default 10 (world.py:20),
  and an apple gives a hard-coded 3 (world.py:40). `world.py` never reads `INITIAL_ENERGY`
  or `ENERGY_GAIN_FROM_APPLE`.
- **Empty-population gene distribution.** For an empty population numpy sums an empty
  matrix to a single scalar 0. `Worlds.GeneDistributionOf` returns the variant
  `ScalarZero` there.

## Model

| member | source | states |
|---|---|---|
| SimConfig.Default | config.py:11-22 | The shipped constants: ten genes, gene g's aging threshold is 10·g, and the reproduction cooldown is at least one year. |
| Trees.GrowApple | world.py:11-14 | An apple is never removed, and an empty tree carries an apple afterwards exactly when its trial fired. |
| Trees.GrowApples | world.py:108-111 | Every tree of the list grows with its own draw, including trees no cell names any more. The list keeps its length. |
| Trees.GrowApplesKeepsApples | world.py:108-111 | Growth never removes an apple, so the number of ripe trees cannot fall. |
| Trees.CountApplesPick | world.py:38-39 | Taking the apple of one ripe tree lowers the apple count by exactly one. |
| Trees.PlantTrees | world.py:101-106 | Each planting appends a tree without an apple. A cell is occupied exactly when it was occupied before or some planting targets it, and it names the tree of its last planting. The grid stays inside the world. |
| Trees.PlantedTreeReachable | world.py:101-106 | A planted tree can be reached through the grid if and only if no later planting targets the same cell. |
| Trees.LastPlantingReachable | world.py:101-106 | When no later planting targets its cell, the grid names that planting's tree at the cell. |
| Trees.OverwrittenUnreachable | world.py:101-106 | When a later planting targets the same cell, no cell of the grid names the earlier planting's tree. |
| Blobs.NewBlob | world.py:20-28 | A new blob is on the grid with one bit per gene, age 0, the given energy and last birth year −5. |
| Blobs.Move | world.py:30-34 | Only the position changes, by at most one step, and a blob on the grid stays on it. An inward move is taken exactly; an outward move at the edge leaves the blob where it is. |
| Blobs.Eat | world.py:36-40 | A ripe tree on the blob's own cell loses its apple and the blob gains exactly 3. Otherwise blob and trees are unchanged. No other tree is ever touched. |
| Blobs.EatConservesFood | world.py:36-40 | Blob energy plus 3 per apple left on the trees is the same before and after eating. |
| Blobs.ScanGenes | world.py:56-59 | The scan reports the first gene from 1 on that is ON, past its threshold and whose trial fired. It reports nothing only when no such gene exists; gene 0 is never reported. |
| Blobs.Step | world.py:42-61 | The blob moves by its direction. Only the tree on the cell it moved to can lose its apple: a ripe one does, and every other tree keeps its flag. Age rises by one. Energy falls by the step cost and, when an apple was eaten, also rises by 3. Starvation holds exactly when energy is at most 0, whatever the chromosome. Old age holds exactly when energy is positive and some aging gene fires; alive holds exactly when neither does. |
| Blobs.StepConservesFood | world.py:44-47 | A step lowers blob energy plus the energy of the remaining apples by exactly the step cost. |
| Blobs.CanReproduce | world.py:63-73 | A pair may reproduce exactly when each blob is old enough and past the cooldown since its own last birth, and the two are within the maximum distance. |
| Blobs.CanReproduceSymmetric | world.py:63-73 | Whether a pair may reproduce does not depend on which blob asks. |
| Blobs.CooldownBlocksSameYear | world.py:63-73 | With a cooldown of at least one year, a blob that reproduced this year cannot reproduce again this year. |
| Blobs.Reproduce | world.py:75-86 | The child stands on the first parent's cell with age 0, birth energy and last birth year −5. Each of its bits is one of the parents' bits at that gene, and a bit both parents share is inherited. |
| Blobs.ReproduceReachesEveryMix | world.py:79-81 | Every chromosome mixing the parents' bits gene by gene is the child of some inheritance draw. |
| Reproduction.Scan | world.py:125-134 | The scan keeps the population's size and chromosome lengths, lists one child per pair, and takes only pairs i < j at or after its starting pair, in scan order. |
| Reproduction.MarkParents | world.py:132-134 | Both parents get the current year as last birth year, and every other blob is unchanged. |
| Reproduction.ScanOnlyMarks | world.py:125-134 | The scan changes no blob except by setting its last birth year to the current year. |
| Reproduction.ScanChildren | world.py:127-130 | Every child is a child of its listed parents as they were before the scan. |
| Reproduction.ScanOrdered | world.py:125-126 | The pairs are taken in scan order, so no pair is taken twice. |
| Reproduction.ScanMarksParents | world.py:132-134 | Both parents of every child end the scan with the current year as last birth year. |
| Reproduction.ScanKeepsUnmated | world.py:125-134 | A blob that parented no child ends the scan exactly as it began. |
| Reproduction.ScanEligible | world.py:125-134 | With a cooldown of at least one year, every pair taken could reproduce before the scan began, and no blob is a parent in two pairs. |
| Reproduction.ScanBirthBound | world.py:125-134 | With a cooldown of at least one year, there are at most half as many children as blobs not yet marked this year. |
| Reproduction.ScanMaximal | world.py:125-134 | After the scan, no two blobs that parented nothing could still reproduce. |
| Reproduction.ScanTakesPair | world.py:125-134 | The scan takes pair (a, b) exactly when its two blobs can reproduce as the scan finds them, each marked with the current year if a pair taken earlier in scan order named it. |
| Reproduction.ScanTakes | world.py:125-134 | From its starting pair on, the scan takes exactly the pairs whose blobs can reproduce once the earlier pairs have marked them, and no other pair. |
| Reproduction.ReproduceBlobs | world.py:119-137 | Disabled: no children and nothing changes. Enabled: the pairs satisfy i < j and come in scan order. Every child descends from its parents, parents are marked, other blobs are untouched and no eligible pair is left. A pair is taken exactly when its blobs, marked by the pairs taken before it, can reproduce. With a cooldown ≥ 1 each blob parents at most once and children ≤ ⌊n/2⌋. |
| Worlds.MeanOf | world.py:169-171 | An average is the sum of the ages of its list over the list's length; an empty list gives the pair (0, 0). |
| Worlds.MeanOfAppend | world.py:169-171 | The age sum and count of two lists together are those of the two lists added. |
| Worlds.CountAgeMembers | world.py:181 | The original count is the number of blobs aged exactly year + 1. |
| Worlds.CountYoungerMembers | world.py:182 | The newborn count is the number of blobs younger than year + 1. |
| Worlds.CountYoungerAppend | world.py:182 | The younger count over two lists together is the sum of their counts. |
| Worlds.CountAgeSplit | world.py:181-182 | When nobody is older than year + 1, every blob counts as original or as newborn, exactly once. |
| Worlds.CountGeneZero | world.py:115-116 | A gene's count is zero if and only if no blob carries the gene. |
| Worlds.CountGeneCarriers | world.py:115-116 | A gene's count is the number of blobs whose bit for that gene is ON. |
| Worlds.GeneDistributionOf | world.py:113-117 | An empty population gives the scalar zero. Otherwise there is one count per gene, and entry g is the number of blobs that have gene g ON. |
| Worlds.GeneDistributionZero | world.py:113-117 | Entry g of the distribution is zero if and only if no blob has gene g ON. |
| Worlds.StatsConsistentAppend | world.py:176-201 | Appending a record that adds its own deaths and births to the previous totals keeps the ledger consistent. |
| Worlds.CumulativeDeathsMonotone | world.py:176-178 | In a consistent ledger cumulative deaths never decrease from one record to a later one. |
| Worlds.NewWorld | world.py:91-99 | The constructed world is valid and has no record yet. Blob k is placed by its draws with energy 10 and last birth year −5. There is one empty tree per planting, and a cell is occupied exactly when some planting targets it. |
| Worlds.StepBlobsSteps | world.py:148-149 | Each stepped blob ages by one, keeps its chromosome, last birth year and grid position validity, and starves exactly when its energy ran out. |
| Worlds.StepBlobsEach | world.py:148-149 | Every blob of the population steps once, in order: entry m of the walk is blob k + m's own step, with its own direction and death trials, on the trees as the blobs before it left them. The walk ends on the trees as the last blob left them. |
| Worlds.YearSteppedBlob | world.py:141-149 | Blob j of the year moves by its own direction. It loses the step cost, and gains 3 exactly when the tree on its new cell was still ripe after the blobs before it had eaten. It dies of old age exactly when it did not starve and some aging gene fired at its new age. |
| Worlds.StepBlobsConservesFood | world.py:148-149 | Over the whole blob phase, blob energy plus apple energy falls by exactly the step cost of every blob, whoever ate which apple. |
| Worlds.StepBlobs | world.py:148-149 | The loop keeps the number of trees and yields one stepped blob and one outcome for every blob from position k on. Which step each entry is comes from StepBlobsEach. |
| Worlds.Partition | world.py:148-155 | The three outcome lists together are exactly as long as the stepped population. |
| Worlds.Filter | world.py:148-155 | The blobs of one outcome are a sub-multiset of the stepped population. |
| Worlds.PartitionFilters | world.py:148-155 | Each outcome list is exactly the stepped blobs with that outcome, in population order. |
| Worlds.PartitionPermutes | world.py:148-155 | The three outcome lists together are a permutation of the stepped population: no blob is lost or counted twice. |
| Worlds.PartitionKeeps | world.py:148-155 | A property of every stepped blob with a given outcome holds of the whole list that outcome feeds. |
| Worlds.PartitionAges | world.py:148-155 | The age sums of the three lists add up to that of the stepped population. |
| Worlds.Live | world.py:139-162 | The blob phase runs over the grown tree list and the population in order. The outcome lists are the partition of the stepped blobs, the reproduction scan runs over the survivors, and the survivors are well formed. |
| Worlds.Record | world.py:164-199 | The year's record carries its year and adds its deaths and births to the previous totals. Its death ages and averages count the same blobs as its counters, and its original and newborn counts are the numbers of end-of-year blobs aged exactly year + 1 and younger than year + 1. |
| Worlds.WorldStep | world.py:139-201 | A year leaves a valid world and appends exactly one record, numbered by the year, to the records before it. Size, grid, reproduction switch and number of trees are kept. The new population is the year's survivors, as the scan left them, followed by the newborns. The new trees are those the blob phase left, and the new record is the year's record. |
| Worlds.YearHeadCount | world.py:148-178 | Starved plus old-age deaths plus alive is the population before the year plus the newborns. Alive is the new population's size; cumulative deaths grow by the year's deaths. |
| Worlds.YearAgeLedger | world.py:169-174 | The alive age sum plus the death ages is the age sum before the year plus one per blob: nobody escapes ageing. |
| Worlds.YearDeathAgesOrder | world.py:170-174 | The death ages are the ages of the starved followed by those of the old-age deaths, each in population order, and each part sums to its own average's sum. |
| Worlds.YearBirths | world.py:161-194 | Births are zero when reproduction is off. The running total grows by the year's births, and with a cooldown ≥ 1 births are at most half the survivors. |
| Worlds.YearCausesOfDeath | world.py:148-155 | The starved have no energy left; old-age deaths and survivors all have positive energy. |
| Worlds.YearPopulation | world.py:148-162 | The year's population is the survivors in population order followed by the children of the listed pairs. Both parents of each child carry the year as last birth year, every other survivor is unchanged, and with reproduction on the pairs are exactly the scan's choice. The trees are those left by the blob phase on the grown list. |
| Worlds.ParentsRest | world.py:132-134 | With a cooldown longer than one year, a blob that parented a child this year enters the next year marked with this year, so can_reproduce refuses it next year whoever it meets. |
| Worlds.YearNewborns | world.py:182 | From year 0 on, every child of the year is counted among the record's newborns. |
| Worlds.YearAgeSplit | world.py:180-182 | If nobody is older than the year when it begins, nobody is older than year + 1 at its end. Original plus newborn blobs then equal the alive count. |
| Worlds.ShippedBirthBound | config.py:20 | With the shipped cooldown of three years every pair taken could reproduce before the scan began and no survivor is a parent in two pairs, so a year's births are at most half of its survivors, the alive count without the newborns. |
| Worlds.YearGeneExtinct | world.py:139-162 | A gene no blob carries at the start of a year is carried by no blob at its end, newborns included. |
| Analysis.Run | analysis.py:4-7 | After n years the world is valid, has one new record per year numbered by its year, keeps size, grid and earlier records, has not lowered cumulative deaths, and from a fresh world splits every record into original and newborn blobs. |
| Analysis.YearProgress | world.py:139-201 | One more year of World.step keeps every one of those facts, for n + 1 years. |
| Analysis.RunSimulation | analysis.py:4-7 | The loop's world is the world of `Run` after the given number of years, so it steps the years 0, 1, …, years − 1 in order and appends one record per year, numbered by its year. The world stays valid and cumulative deaths do not fall. From a fresh world every record splits its population into original and newborn blobs without remainder. |
| Analysis.ExtractDeathAges | analysis.py:16-18 | The flattened list is exactly as long as all the records' death-age lists together. |
| Analysis.RecordAgesIncluded | analysis.py:16-18 | Every death age of record k is in the flattened list, as often as the record lists it. |
| Analysis.ExtractDeathAgesContents | analysis.py:16-18 | Every record's death ages are all in the flattened list, with multiplicity, and the list holds no other age. |
| Analysis.DeathAgeSource | analysis.py:16-18 | Each flattened death age comes from some record's death ages. |
| Analysis.ExtractDeathAgesPrefix | analysis.py:16-18 | The death ages of the first k records form a prefix of the flattened list. |
| Analysis.ExtractDeathAgesOrder | analysis.py:16-18 | Record k's death ages appear, in their own order, right after those of the records before it. |
| Analysis.ExtractDeathAgesCount | analysis.py:16-18 | In a consistent ledger the flattened list has as many ages as the last record's cumulative deaths, and 0 without records. |
| Analysis.ExtractDeathAgesOffset | analysis.py:16-18 | In a consistent ledger record k's death ages start right after the deaths counted by the record before it. |

## Left out

- `plotting.py` and `main.py`: charting and top-level wiring, with no engine logic.
- `save_results` (analysis.py:9-14): building a pandas table and writing a CSV file is output only.
- The console `print` at world.py:183: output only.
- Probabilities: apple growth 0.2, gene death 0.02, the 50/50 inheritance split and the uniform choices. The draws are uninterpreted inputs, and no statement is made about likelihoods.
- Floating-point `np.mean` (world.py:169-171): averages are kept as exact integer sums and counts instead of a float division.
- `has_old_age_gene` (world.py:26): set but never read.
- `INITIAL_ENERGY` and `ENERGY_GAIN_FROM_APPLE` (config.py:9-10): `world.py` never reads them.
- `World.get_stats` (world.py:206-208): it only returns the record list, the `stats` field of a world.
- `alive_before` (world.py:143): computed but never used.
- The random cell drawn by the child's constructor (world.py:77): `reproduce` overwrites it with the first parent's cell. The random chromosome is likewise replaced gene by gene.
- Configuration validation: the program checks none of its constants. The model's `Valid(cfg)` only requires one aging threshold per gene, which the program's indexing assumes.
- Trees.GrowApple: the Bernoulli trial `random() < 0.2` is the boolean `draw`, so growth is stated per draw, not in probability.
