/**
 Trees and the grid they stand on.

 The program keeps each tree object twice: once in its grid cell and once in the
 world's list of trees. Here the list is a sequence of has_apple flags and the
 grid maps each occupied cell to the index of its tree in that list, so that
 eating through the grid and growing through the list act on the same flag.
 */
module Trees {

  /** A grid coordinate (x, y). */
  type Cell = (int, int)

  /** Occupied cells, each naming the index of its tree in the tree list. */
  type Grid = map<Cell, nat>

  predicate InBounds(c: Cell, size: int) {
    0 <= c.0 < size && 0 <= c.1 < size
  }

  /** Every tree a cell names exists in the tree list. */
  predicate TreeIdsValid(grid: Grid, trees: seq<bool>) {
    forall c :: c in grid ==> grid[c] < |trees|
  }

  /** The grid of a world of the given size over the given tree list. */
  predicate GridWellFormed(grid: Grid, trees: seq<bool>, size: int) {
    && TreeIdsValid(grid, trees)
    && forall c :: c in grid ==> InBounds(c, size)
  }

  /** Cell c holds a tree that carries an apple. */
  predicate HasRipeTree(grid: Grid, trees: seq<bool>, c: Cell)
    requires TreeIdsValid(grid, trees)
  {
    c in grid && trees[grid[c]]
  }

  /** The number of trees that carry an apple. */
  function CountApples(trees: seq<bool>): (n: nat)
    ensures n <= |trees|
  {
    if |trees| == 0 then 0 else (if trees[0] then 1 else 0) + CountApples(trees[1..])
  }

  /** Taking the apple of one tree lowers the apple count by exactly one. */
  lemma {:induction false} CountApplesPick(trees: seq<bool>, t: nat)
    requires t < |trees| && trees[t]
    ensures CountApples(trees[t := false]) == CountApples(trees) - 1
    decreases |trees|
  {
    if t == 0 {
      assert trees[t := false][1..] == trees[1..];
    } else {
      assert trees[t := false][1..] == trees[1..][t - 1 := false];
      CountApplesPick(trees[1..], t - 1);
    }
  }

  /** If every apple of a is also on b, b has at least as many apples. */
  lemma {:induction false} CountApplesMonotone(a: seq<bool>, b: seq<bool>)
    requires |a| == |b|
    requires forall t :: 0 <= t < |a| && a[t] ==> b[t]
    ensures CountApples(a) <= CountApples(b)
    decreases |a|
  {
    if |a| > 0 {
      assert a[0] ==> b[0];
      forall t | 0 <= t < |a[1..]| && a[1..][t]
        ensures b[1..][t]
      {
        assert a[t + 1];
      }
      CountApplesMonotone(a[1..], b[1..]);
    }
  }

  /** Tree.grow_apples, with its Bernoulli trial given as the boolean draw: an
      empty tree takes the draw, and an apple is never removed. */
  function GrowApple(hasApple: bool, draw: bool): (r: bool)
    ensures hasApple ==> r
    ensures r ==> hasApple || draw
    ensures !hasApple && draw ==> r
  {
    if !hasApple then draw else hasApple
  }

  /** World.grow_apples: every tree in the tree list attempts to grow, tree t
      with draw(t), whether or not a grid cell still names it. */
  function GrowApples(trees: seq<bool>, draw: nat -> bool): (r: seq<bool>)
    ensures |r| == |trees|
    ensures forall t :: 0 <= t < |trees| ==> r[t] == GrowApple(trees[t], draw(t))
  {
    seq(|trees|, t requires 0 <= t < |trees| => GrowApple(trees[t], draw(t)))
  }

  /** Growth never removes an apple, so the apple count cannot fall. */
  lemma GrowApplesKeepsApples(trees: seq<bool>, draw: nat -> bool)
    ensures forall t :: 0 <= t < |trees| && trees[t] ==> GrowApples(trees, draw)[t]
    ensures CountApples(trees) <= CountApples(GrowApples(trees, draw))
  {
    CountApplesMonotone(trees, GrowApples(trees, draw));
  }

  /** The index of the last planting at cell c, or -1 if no planting targets c. */
  function LastPlantingAt(cells: seq<Cell>, c: Cell): (t: int)
    ensures -1 <= t < |cells|
    ensures t >= 0 ==> cells[t] == c
    ensures forall m :: t < m < |cells| ==> cells[m] != c
  {
    if |cells| == 0 then -1
    else if cells[|cells| - 1] == c then |cells| - 1
    else LastPlantingAt(cells[..|cells| - 1], c)
  }

  /** The grid and the tree list after planting. */
  datatype Planting = Planting(grid: Grid, trees: seq<bool>)

  /** World.plant_trees with the random cells given: planting k appends a new tree
      without an apple and writes it into cells[k], replacing whatever tree that
      cell named before. The replaced tree stays in the tree list. */
  function PlantTrees(size: int, grid: Grid, trees: seq<bool>, cells: seq<Cell>): (r: Planting)
    requires GridWellFormed(grid, trees, size)
    requires forall k :: 0 <= k < |cells| ==> InBounds(cells[k], size)
    ensures GridWellFormed(r.grid, r.trees, size)
    ensures r.trees == trees + seq(|cells|, _ => false)
    ensures forall c :: c in r.grid <==> c in grid || LastPlantingAt(cells, c) >= 0
    ensures forall c :: c in r.grid ==>
      r.grid[c] == if LastPlantingAt(cells, c) >= 0 then |trees| + LastPlantingAt(cells, c) else grid[c]
    decreases |cells|
  {
    if |cells| == 0 then Planting(grid, trees)
    else
      var n := |cells| - 1;
      var before := PlantTrees(size, grid, trees, cells[..n]);
      var r := Planting(before.grid[cells[n] := |trees| + n], before.trees + [false]);
      assert r.trees == trees + seq(|cells|, _ => false);
      assert forall c :: LastPlantingAt(cells, c) == (if c == cells[n] then n else LastPlantingAt(cells[..n], c));
      r
  }

  /** A planted tree can be reached through the grid exactly when no later planting
      targets its cell; an overwritten tree is only left in the tree list. */
  lemma PlantedTreeReachable(size: int, grid: Grid, trees: seq<bool>, cells: seq<Cell>, k: nat)
    requires GridWellFormed(grid, trees, size)
    requires forall i :: 0 <= i < |cells| ==> InBounds(cells[i], size)
    requires k < |cells|
    ensures var r := PlantTrees(size, grid, trees, cells);
      (exists c :: c in r.grid && r.grid[c] == |trees| + k)
      <==> (forall m :: k < m < |cells| ==> cells[m] != cells[k])
  {
    if forall m :: k < m < |cells| ==> cells[m] != cells[k] {
      LastPlantingReachable(size, grid, trees, cells, k);
    } else {
      var later :| k < later < |cells| && cells[later] == cells[k];
      OverwrittenUnreachable(size, grid, trees, cells, k, later);
    }
  }

  /** The last planting on a cell is what the grid names there. */
  lemma LastPlantingReachable(size: int, grid: Grid, trees: seq<bool>, cells: seq<Cell>, k: nat)
    requires GridWellFormed(grid, trees, size)
    requires forall i :: 0 <= i < |cells| ==> InBounds(cells[i], size)
    requires k < |cells|
    requires forall m :: k < m < |cells| ==> cells[m] != cells[k]
    ensures var r := PlantTrees(size, grid, trees, cells);
      cells[k] in r.grid && r.grid[cells[k]] == |trees| + k
  {
    var t := LastPlantingAt(cells, cells[k]);
    assert k <= t;
    assert t == k;
  }

  /** A planting that a later one overwrites is named by no cell of the grid. */
  lemma OverwrittenUnreachable(size: int, grid: Grid, trees: seq<bool>, cells: seq<Cell>, k: nat, later: nat)
    requires GridWellFormed(grid, trees, size)
    requires forall i :: 0 <= i < |cells| ==> InBounds(cells[i], size)
    requires k < later < |cells| && cells[later] == cells[k]
    ensures var r := PlantTrees(size, grid, trees, cells);
      forall c :: c in r.grid ==> r.grid[c] != |trees| + k
  {
    var r := PlantTrees(size, grid, trees, cells);
    forall c | c in r.grid
      ensures r.grid[c] != |trees| + k
    {
      if LastPlantingAt(cells, c) == k {
        assert false;
      }
    }
  }
}
