/**
 World.reproduce_blobs: the pairwise reproduction scan.

 The scan visits every index pair (i, j) with i < j in the order i = 0, 1, ...
 and, for each i, j = i + 1, i + 2, .... A pair that can reproduce gets one child
 and both parents' last birth year is set to the current year at once, in the
 population the rest of the scan reads. A blob that reproduced early in the scan
 can therefore be refused for a later pair, and the outcome depends on the order.
 */
module Reproduction {
  import opened SimConfig
  import opened Blobs

  /** The population after the scan, the children in order of birth, and the
      index pair that produced each child. */
  datatype Pairing = Pairing(blobs: seq<Blob>, children: seq<Blob>, parents: seq<(nat, nat)>)

  predicate ChromosomesSized(cfg: Config, blobs: seq<Blob>) {
    forall k :: 0 <= k < |blobs| ==> |blobs[k].chromosome| == cfg.numGenes
  }

  /** b is a, possibly with its last birth year set to year. */
  predicate SameOrMarked(a: Blob, b: Blob, year: int) {
    b == a || b == a.(lastBirthYear := year)
  }

  /** Pair p comes no earlier than pair q in the scan order. */
  predicate NotBefore(p: (nat, nat), q: (nat, nat)) {
    p.0 > q.0 || (p.0 == q.0 && p.1 >= q.1)
  }

  /** Pair p comes strictly before pair q in the scan order. */
  predicate Before(p: (nat, nat), q: (nat, nat)) {
    p.0 < q.0 || (p.0 == q.0 && p.1 < q.1)
  }

  /** Blob k is one of the parents of some child. */
  predicate Mated(parents: seq<(nat, nat)>, k: nat) {
    exists m :: 0 <= m < |parents| && (parents[m].0 == k || parents[m].1 == k)
  }

  /** No blob is a parent in two different pairs. */
  predicate DisjointPairs(parents: seq<(nat, nat)>) {
    forall m1, m2 :: 0 <= m1 < m2 < |parents| ==>
      && parents[m1].0 != parents[m2].0 && parents[m1].0 != parents[m2].1
      && parents[m1].1 != parents[m2].0 && parents[m1].1 != parents[m2].1
  }

  /** Every pair lies in the population, its first index below its second, and
      no earlier in the scan than (i, j). */
  predicate PairsFrom(parents: seq<(nat, nat)>, i: nat, j: nat, n: nat) {
    forall m :: 0 <= m < |parents| ==>
      parents[m].0 < parents[m].1 < n && NotBefore(parents[m], (i, j))
  }

  /** The pairs are listed in scan order, hence each at most once. */
  predicate InScanOrder(parents: seq<(nat, nat)>) {
    forall m1, m2 :: 0 <= m1 < m2 < |parents| ==> Before(parents[m1], parents[m2])
  }

  /** after is before with some last birth years set to year and nothing else changed. */
  predicate OnlyMarked(before: seq<Blob>, after: seq<Blob>, year: int) {
    |after| == |before| && forall k :: 0 <= k < |before| ==> SameOrMarked(before[k], after[k], year)
  }

  /** Each child is a child of its two parents as they were in before. */
  predicate ChildrenOf(cfg: Config, before: seq<Blob>, p: Pairing) {
    && |p.children| == |p.parents|
    && forall m :: 0 <= m < |p.parents| ==>
         p.parents[m].0 < |before| && p.parents[m].1 < |before|
         && ChildOf(cfg, p.children[m], before[p.parents[m].0], before[p.parents[m].1])
  }

  /** Both parents of every child carry year as their last birth year. */
  predicate ParentsMarked(p: Pairing, year: int) {
    forall m :: 0 <= m < |p.parents| ==>
      && p.parents[m].0 < |p.blobs| && p.parents[m].1 < |p.blobs|
      && p.blobs[p.parents[m].0].lastBirthYear == year
      && p.blobs[p.parents[m].1].lastBirthYear == year
  }

  /** Every blob that is no child's parent is as it was in before. */
  predicate UnmatedKept(before: seq<Blob>, p: Pairing) {
    forall k :: 0 <= k < |before| && k < |p.blobs| && !Mated(p.parents, k) ==> p.blobs[k] == before[k]
  }

  /** Both parents of a new child get the current year as last birth year. */
  function MarkParents(blobs: seq<Blob>, i: nat, j: nat, year: int): (r: seq<Blob>)
    requires i < |blobs| && j < |blobs|
    ensures OnlyMarked(blobs, r, year)
    ensures r[i].lastBirthYear == year && r[j].lastBirthYear == year
    ensures forall k :: 0 <= k < |blobs| && k != i && k != j ==> r[k] == blobs[k]
  {
    blobs[i := blobs[i].(lastBirthYear := year)][j := blobs[j].(lastBirthYear := year)]
  }

  /** The nested loop of reproduce_blobs from pair (i, j) on, over the population as
      updated so far. The child of pair (i, j) inherits with the draws
      inherit(i, j, g). */
  function Scan(cfg: Config, year: int, blobs: seq<Blob>, i: nat, j: nat,
                inherit: (nat, nat, nat) -> bool): (r: Pairing)
    requires Valid(cfg) && ChromosomesSized(cfg, blobs)
    requires i < j
    ensures |r.blobs| == |blobs| && |r.children| == |r.parents|
    ensures ChromosomesSized(cfg, r.blobs)
    ensures PairsFrom(r.parents, i, j, |blobs|)
    decreases |blobs| - i, |blobs| - j
  {
    if i >= |blobs| then Pairing(blobs, [], [])
    else if j >= |blobs| then Scan(cfg, year, blobs, i + 1, i + 2, inherit)
    else if CanReproduce(cfg, blobs[i], blobs[j], year) then
      var child := Reproduce(cfg, blobs[i], blobs[j], (g: nat) => inherit(i, j, g));
      var rest := Scan(cfg, year, MarkParents(blobs, i, j, year), i, j + 1, inherit);
      Pairing(rest.blobs, [child] + rest.children, [(i, j)] + rest.parents)
    else
      Scan(cfg, year, blobs, i, j + 1, inherit)
  }

  /** The step of ScanChildren for a pair that reproduces. */
  lemma ChildrenStep(cfg: Config, year: int, blobs: seq<Blob>, marked: seq<Blob>, i: nat, j: nat,
                     child: Blob, rest: Pairing)
    requires i < |blobs| && j < |blobs|
    requires OnlyMarked(blobs, marked, year)
    requires ChildOf(cfg, child, blobs[i], blobs[j])
    requires ChildrenOf(cfg, marked, rest)
    ensures ChildrenOf(cfg, blobs, Pairing(rest.blobs, [child] + rest.children, [(i, j)] + rest.parents))
  {
    var r := Pairing(rest.blobs, [child] + rest.children, [(i, j)] + rest.parents);
    forall m | 0 <= m < |r.parents|
      ensures r.parents[m].0 < |blobs| && r.parents[m].1 < |blobs|
      ensures ChildOf(cfg, r.children[m], blobs[r.parents[m].0], blobs[r.parents[m].1])
    {
      if m > 0 {
        var p := rest.parents[m - 1];
        assert r.children[m] == rest.children[m - 1] && r.parents[m] == p;
        assert SameOrMarked(blobs[p.0], marked[p.0], year);
        assert SameOrMarked(blobs[p.1], marked[p.1], year);
      }
    }
  }

  /** The step of ScanOrdered for a pair that reproduces. */
  lemma OrderedStep(i: nat, j: nat, n: nat, rest: seq<(nat, nat)>)
    requires InScanOrder(rest) && PairsFrom(rest, i, j + 1, n)
    ensures InScanOrder([(i, j)] + rest)
  {
    var r := [(i, j)] + rest;
    forall m1, m2 | 0 <= m1 < m2 < |r|
      ensures Before(r[m1], r[m2])
    {
      assert r[m2] == rest[m2 - 1];
      if m1 > 0 {
        assert r[m1] == rest[m1 - 1];
      }
    }
  }

  /** The step of ScanMarksParents for a pair that reproduces. */
  lemma MarksStep(year: int, marked: seq<Blob>, i: nat, j: nat, child: Blob, rest: Pairing)
    requires i < |marked| && j < |marked|
    requires marked[i].lastBirthYear == year && marked[j].lastBirthYear == year
    requires OnlyMarked(marked, rest.blobs, year)
    requires ParentsMarked(rest, year)
    ensures ParentsMarked(Pairing(rest.blobs, [child] + rest.children, [(i, j)] + rest.parents), year)
  {
    var r := Pairing(rest.blobs, [child] + rest.children, [(i, j)] + rest.parents);
    forall m | 0 <= m < |r.parents|
      ensures r.parents[m].0 < |r.blobs| && r.parents[m].1 < |r.blobs|
      ensures r.blobs[r.parents[m].0].lastBirthYear == year && r.blobs[r.parents[m].1].lastBirthYear == year
    {
      if m == 0 {
        assert SameOrMarked(marked[i], rest.blobs[i], year);
        assert SameOrMarked(marked[j], rest.blobs[j], year);
      } else {
        assert r.parents[m] == rest.parents[m - 1];
      }
    }
  }

  /** The scan changes nothing but last birth years, and those only to year. */
  lemma {:induction false} ScanOnlyMarks(cfg: Config, year: int, blobs: seq<Blob>, i: nat, j: nat,
                                         inherit: (nat, nat, nat) -> bool)
    requires Valid(cfg) && ChromosomesSized(cfg, blobs)
    requires i < j
    ensures OnlyMarked(blobs, Scan(cfg, year, blobs, i, j, inherit).blobs, year)
    decreases |blobs| - i, |blobs| - j
  {
    if i >= |blobs| {
    } else if j >= |blobs| {
      ScanOnlyMarks(cfg, year, blobs, i + 1, i + 2, inherit);
    } else if CanReproduce(cfg, blobs[i], blobs[j], year) {
      var marked := MarkParents(blobs, i, j, year);
      ScanOnlyMarks(cfg, year, marked, i, j + 1, inherit);
      var after := Scan(cfg, year, marked, i, j + 1, inherit).blobs;
      assert Scan(cfg, year, blobs, i, j, inherit).blobs == after;
      forall k | 0 <= k < |blobs|
        ensures SameOrMarked(blobs[k], after[k], year)
      {
        assert SameOrMarked(blobs[k], marked[k], year);
        assert SameOrMarked(marked[k], after[k], year);
      }
    } else {
      ScanOnlyMarks(cfg, year, blobs, i, j + 1, inherit);
    }
  }

  /** Every child is on its first parent's cell, newly made, and carries at each
      gene the bit of one of its two parents. */
  lemma {:induction false} ScanChildren(cfg: Config, year: int, blobs: seq<Blob>, i: nat, j: nat,
                                        inherit: (nat, nat, nat) -> bool)
    requires Valid(cfg) && ChromosomesSized(cfg, blobs)
    requires i < j
    ensures ChildrenOf(cfg, blobs, Scan(cfg, year, blobs, i, j, inherit))
    decreases |blobs| - i, |blobs| - j
  {
    if i >= |blobs| {
    } else if j >= |blobs| {
      ScanChildren(cfg, year, blobs, i + 1, i + 2, inherit);
    } else if CanReproduce(cfg, blobs[i], blobs[j], year) {
      var marked := MarkParents(blobs, i, j, year);
      ScanChildren(cfg, year, marked, i, j + 1, inherit);
      var child := Reproduce(cfg, blobs[i], blobs[j], (g: nat) => inherit(i, j, g));
      var rest := Scan(cfg, year, marked, i, j + 1, inherit);
      ChildrenStep(cfg, year, blobs, marked, i, j, child, rest);
    } else {
      ScanChildren(cfg, year, blobs, i, j + 1, inherit);
    }
  }

  /** The scan meets the pairs in its own order, so no pair is listed twice. */
  lemma {:induction false} ScanOrdered(cfg: Config, year: int, blobs: seq<Blob>, i: nat, j: nat,
                                       inherit: (nat, nat, nat) -> bool)
    requires Valid(cfg) && ChromosomesSized(cfg, blobs)
    requires i < j
    ensures InScanOrder(Scan(cfg, year, blobs, i, j, inherit).parents)
    decreases |blobs| - i, |blobs| - j
  {
    if i >= |blobs| {
    } else if j >= |blobs| {
      ScanOrdered(cfg, year, blobs, i + 1, i + 2, inherit);
    } else if CanReproduce(cfg, blobs[i], blobs[j], year) {
      var marked := MarkParents(blobs, i, j, year);
      ScanOrdered(cfg, year, marked, i, j + 1, inherit);
      var rest := Scan(cfg, year, marked, i, j + 1, inherit);
      OrderedStep(i, j, |blobs|, rest.parents);
    } else {
      ScanOrdered(cfg, year, blobs, i, j + 1, inherit);
    }
  }

  /** Both parents of every child end the scan with the current year as their
      last birth year. */
  lemma {:induction false} ScanMarksParents(cfg: Config, year: int, blobs: seq<Blob>, i: nat, j: nat,
                                            inherit: (nat, nat, nat) -> bool)
    requires Valid(cfg) && ChromosomesSized(cfg, blobs)
    requires i < j
    ensures ParentsMarked(Scan(cfg, year, blobs, i, j, inherit), year)
    decreases |blobs| - i, |blobs| - j
  {
    if i >= |blobs| {
    } else if j >= |blobs| {
      ScanMarksParents(cfg, year, blobs, i + 1, i + 2, inherit);
    } else if CanReproduce(cfg, blobs[i], blobs[j], year) {
      var marked := MarkParents(blobs, i, j, year);
      ScanMarksParents(cfg, year, marked, i, j + 1, inherit);
      ScanOnlyMarks(cfg, year, marked, i, j + 1, inherit);
      var child := Reproduce(cfg, blobs[i], blobs[j], (g: nat) => inherit(i, j, g));
      var rest := Scan(cfg, year, marked, i, j + 1, inherit);
      MarksStep(year, marked, i, j, child, rest);
    } else {
      ScanMarksParents(cfg, year, blobs, i, j + 1, inherit);
    }
  }

  /** A blob that is no child's parent ends the scan exactly as it began. */
  lemma {:induction false} ScanKeepsUnmated(cfg: Config, year: int, blobs: seq<Blob>, i: nat, j: nat,
                                            inherit: (nat, nat, nat) -> bool)
    requires Valid(cfg) && ChromosomesSized(cfg, blobs)
    requires i < j
    ensures UnmatedKept(blobs, Scan(cfg, year, blobs, i, j, inherit))
    decreases |blobs| - i, |blobs| - j
  {
    if i >= |blobs| {
    } else if j >= |blobs| {
      ScanKeepsUnmated(cfg, year, blobs, i + 1, i + 2, inherit);
    } else if CanReproduce(cfg, blobs[i], blobs[j], year) {
      var marked := MarkParents(blobs, i, j, year);
      ScanKeepsUnmated(cfg, year, marked, i, j + 1, inherit);
      var rest := Scan(cfg, year, marked, i, j + 1, inherit);
      var r := Scan(cfg, year, blobs, i, j, inherit);
      assert r.blobs == rest.blobs && r.parents == [(i, j)] + rest.parents;
      forall k | 0 <= k < |blobs| && !Mated(r.parents, k)
        ensures r.blobs[k] == blobs[k]
      {
        assert r.parents[0] == (i, j);
        assert k != i && k != j;
        forall m | 0 <= m < |rest.parents|
          ensures rest.parents[m].0 != k && rest.parents[m].1 != k
        {
          assert r.parents[m + 1] == rest.parents[m];
        }
      }
    } else {
      ScanKeepsUnmated(cfg, year, blobs, i, j + 1, inherit);
    }
  }

  /** Every listed pair could reproduce in the population as it was before the scan. */
  predicate EligiblePairs(cfg: Config, before: seq<Blob>, parents: seq<(nat, nat)>, year: int) {
    forall m :: 0 <= m < |parents| ==>
      parents[m].0 < |before| && parents[m].1 < |before|
      && CanReproduce(cfg, before[parents[m].0], before[parents[m].1], year)
  }

  /** With a cooldown of at least one year, every pair the scan takes could already
      reproduce before the scan began, and no blob is a parent twice in one year. */
  lemma {:induction false} ScanEligible(cfg: Config, year: int, blobs: seq<Blob>, i: nat, j: nat,
                                        inherit: (nat, nat, nat) -> bool)
    requires Valid(cfg) && ChromosomesSized(cfg, blobs)
    requires i < j
    requires cfg.reproductionCooldown >= 1
    ensures EligiblePairs(cfg, blobs, Scan(cfg, year, blobs, i, j, inherit).parents, year)
    ensures DisjointPairs(Scan(cfg, year, blobs, i, j, inherit).parents)
    decreases |blobs| - i, |blobs| - j
  {
    if i >= |blobs| {
    } else if j >= |blobs| {
      ScanEligible(cfg, year, blobs, i + 1, i + 2, inherit);
    } else if CanReproduce(cfg, blobs[i], blobs[j], year) {
      var marked := MarkParents(blobs, i, j, year);
      ScanEligible(cfg, year, marked, i, j + 1, inherit);
      var rest := Scan(cfg, year, marked, i, j + 1, inherit).parents;
      assert Scan(cfg, year, blobs, i, j, inherit).parents == [(i, j)] + rest;
      EligibleStep(cfg, year, blobs, marked, i, j, rest);
    } else {
      ScanEligible(cfg, year, blobs, i, j + 1, inherit);
    }
  }

  /** The step of ScanEligible for a pair that reproduces: what holds of the rest
      of the scan over the marked population holds of the whole scan. */
  lemma EligibleStep(cfg: Config, year: int, blobs: seq<Blob>, marked: seq<Blob>, i: nat, j: nat,
                     rest: seq<(nat, nat)>)
    requires cfg.reproductionCooldown >= 1
    requires i < j < |blobs| && CanReproduce(cfg, blobs[i], blobs[j], year)
    requires marked == MarkParents(blobs, i, j, year)
    requires EligiblePairs(cfg, marked, rest, year) && DisjointPairs(rest)
    ensures EligiblePairs(cfg, blobs, [(i, j)] + rest, year)
    ensures DisjointPairs([(i, j)] + rest)
  {
    var r := [(i, j)] + rest;
    forall m | 0 <= m < |rest|
      ensures rest[m].0 != i && rest[m].0 != j && rest[m].1 != i && rest[m].1 != j
      ensures CanReproduce(cfg, blobs[rest[m].0], blobs[rest[m].1], year)
    {
      var p := rest[m];
      assert CanReproduce(cfg, marked[p.0], marked[p.1], year);
      assert marked[p.0].lastBirthYear != year && marked[p.1].lastBirthYear != year;
      assert p.0 != i && p.0 != j && p.1 != i && p.1 != j;
      assert marked[p.0] == blobs[p.0] && marked[p.1] == blobs[p.1];
    }
    forall m | 0 <= m < |r|
      ensures CanReproduce(cfg, blobs[r[m].0], blobs[r[m].1], year)
    {
      if m > 0 {
        assert r[m] == rest[m - 1];
      }
    }
    forall m1, m2 | 0 <= m1 < m2 < |r|
      ensures && r[m1].0 != r[m2].0 && r[m1].0 != r[m2].1
              && r[m1].1 != r[m2].0 && r[m1].1 != r[m2].1
    {
      assert r[m2] == rest[m2 - 1];
      if m1 > 0 {
        assert r[m1] == rest[m1 - 1];
      }
    }
  }

  /** The number of blobs whose last birth year is not year. */
  function CountFresh(blobs: seq<Blob>, year: int): (n: nat)
    ensures n <= |blobs|
  {
    if |blobs| == 0 then 0
    else (if blobs[0].lastBirthYear != year then 1 else 0) + CountFresh(blobs[1..], year)
  }

  /** Replacing one blob changes the fresh count by the difference of the two. */
  lemma {:induction false} CountFreshUpdate(blobs: seq<Blob>, k: nat, b: Blob, year: int)
    requires k < |blobs|
    ensures CountFresh(blobs[k := b], year)
         == CountFresh(blobs, year)
            - (if blobs[k].lastBirthYear != year then 1 else 0)
            + (if b.lastBirthYear != year then 1 else 0)
    decreases |blobs|
  {
    if k == 0 {
      assert blobs[k := b][1..] == blobs[1..];
    } else {
      assert blobs[k := b][1..] == blobs[1..][k - 1 := b];
      CountFreshUpdate(blobs[1..], k - 1, b, year);
    }
  }

  /** Marking two distinct fresh blobs as parents removes two from the fresh count. */
  lemma MarkParentsCountFresh(blobs: seq<Blob>, i: nat, j: nat, year: int)
    requires i < |blobs| && j < |blobs| && i != j
    requires blobs[i].lastBirthYear != year && blobs[j].lastBirthYear != year
    ensures CountFresh(MarkParents(blobs, i, j, year), year) == CountFresh(blobs, year) - 2
  {
    var once := blobs[i := blobs[i].(lastBirthYear := year)];
    CountFreshUpdate(blobs, i, blobs[i].(lastBirthYear := year), year);
    CountFreshUpdate(once, j, blobs[j].(lastBirthYear := year), year);
  }

  /** With a cooldown of at least one year, each child uses up two blobs that had
      not reproduced this year, so there are at most half as many children. */
  lemma {:induction false} ScanBirthBound(cfg: Config, year: int, blobs: seq<Blob>, i: nat, j: nat,
                                          inherit: (nat, nat, nat) -> bool)
    requires Valid(cfg) && ChromosomesSized(cfg, blobs)
    requires i < j
    requires cfg.reproductionCooldown >= 1
    ensures 2 * |Scan(cfg, year, blobs, i, j, inherit).children| <= CountFresh(blobs, year)
    decreases |blobs| - i, |blobs| - j
  {
    if i >= |blobs| {
    } else if j >= |blobs| {
      ScanBirthBound(cfg, year, blobs, i + 1, i + 2, inherit);
    } else if CanReproduce(cfg, blobs[i], blobs[j], year) {
      MarkParentsCountFresh(blobs, i, j, year);
      ScanBirthBound(cfg, year, MarkParents(blobs, i, j, year), i, j + 1, inherit);
    } else {
      ScanBirthBound(cfg, year, blobs, i, j + 1, inherit);
    }
  }

  /** From pair (i, j) on, two blobs that are nobody's parent fail can_reproduce. */
  predicate MaximalFrom(cfg: Config, p: Pairing, i: nat, j: nat, year: int) {
    forall a, b :: 0 <= a < b < |p.blobs| && NotBefore((a, b), (i, j))
                   && !Mated(p.parents, a) && !Mated(p.parents, b) ==>
      !CanReproduce(cfg, p.blobs[a], p.blobs[b], year)
  }

  /** A pair that cannot reproduce is passed over. */
  lemma ScanSkip(cfg: Config, year: int, blobs: seq<Blob>, i: nat, j: nat, inherit: (nat, nat, nat) -> bool)
    requires Valid(cfg) && ChromosomesSized(cfg, blobs)
    requires i < j < |blobs| && !CanReproduce(cfg, blobs[i], blobs[j], year)
    ensures Scan(cfg, year, blobs, i, j, inherit) == Scan(cfg, year, blobs, i, j + 1, inherit)
  {
  }

  /** Pair (a, b) is one of the listed pairs. */
  predicate Taken(parents: seq<(nat, nat)>, a: nat, b: nat) {
    exists m :: 0 <= m < |parents| && parents[m] == (a, b)
  }

  /** Blob k is a parent in some pair listed before pair q in the scan order. */
  predicate MarkedBefore(parents: seq<(nat, nat)>, k: nat, q: (nat, nat)) {
    exists m :: 0 <= m < |parents| && Before(parents[m], q) && (parents[m].0 == k || parents[m].1 == k)
  }

  /** Blob k as the scan finds it when it reaches pair q: its last birth year is
      the current year once it has parented a pair taken before q. */
  function AsScanned(blobs: seq<Blob>, parents: seq<(nat, nat)>, k: nat, q: (nat, nat), year: int): Blob
    requires k < |blobs|
  {
    if MarkedBefore(parents, k, q) then blobs[k].(lastBirthYear := year) else blobs[k]
  }

  /** The scan takes pair (a, b) exactly when its two blobs, as the scan finds
      them, can reproduce. */
  predicate ChosenIff(cfg: Config, blobs: seq<Blob>, parents: seq<(nat, nat)>, a: nat, b: nat, year: int)
    requires a < |blobs| && b < |blobs|
  {
    Taken(parents, a, b) <==>
      CanReproduce(cfg, AsScanned(blobs, parents, a, (a, b), year), AsScanned(blobs, parents, b, (a, b), year), year)
  }

  /** From pair (i, j) on, the scan takes exactly the pairs whose two blobs can
      reproduce as the scan finds them, after the marks of the pairs taken before. */
  predicate ScanChoice(cfg: Config, blobs: seq<Blob>, parents: seq<(nat, nat)>, i: nat, j: nat, year: int) {
    forall a, b :: 0 <= a < b < |blobs| && NotBefore((a, b), (i, j)) ==> ChosenIff(cfg, blobs, parents, a, b, year)
  }

  /** No pair of a list in scan order from (i, j + 1) on is (i, j) or comes before
      it, so neither blob of (i, j) is marked when the scan reaches it. */
  lemma FirstPairUnmarked(blobs: seq<Blob>, i: nat, j: nat, rest: seq<(nat, nat)>, year: int)
    requires i < j < |blobs|
    requires PairsFrom(rest, i, j + 1, |blobs|)
    ensures !Taken(rest, i, j)
    ensures AsScanned(blobs, rest, i, (i, j), year) == blobs[i]
    ensures AsScanned(blobs, rest, j, (i, j), year) == blobs[j]
  {
  }

  /** A pair taken at (i, j) is taken with both blobs as they were. */
  lemma FirstPairTaken(blobs: seq<Blob>, i: nat, j: nat, rest: seq<(nat, nat)>, year: int)
    requires i < j < |blobs|
    requires PairsFrom(rest, i, j + 1, |blobs|)
    ensures Taken([(i, j)] + rest, i, j)
    ensures AsScanned(blobs, [(i, j)] + rest, i, (i, j), year) == blobs[i]
    ensures AsScanned(blobs, [(i, j)] + rest, j, (i, j), year) == blobs[j]
  {
    var r := [(i, j)] + rest;
    assert r[0] == (i, j);
    forall m | 0 <= m < |r|
      ensures !Before(r[m], (i, j))
    {
      if m > 0 {
        assert r[m] == rest[m - 1];
      }
    }
  }

  /** A pair after the one taken at (i, j) is chosen as the rest of the scan,
      over the population with (i, j) marked, chooses it. */
  lemma LaterPairChoice(cfg: Config, year: int, blobs: seq<Blob>, marked: seq<Blob>, i: nat, j: nat,
                        rest: seq<(nat, nat)>, a: nat, b: nat)
    requires i < j < |blobs| && 0 <= a < b < |blobs|
    requires NotBefore((a, b), (i, j + 1))
    requires marked == MarkParents(blobs, i, j, year)
    requires ChosenIff(cfg, marked, rest, a, b, year)
    ensures ChosenIff(cfg, blobs, [(i, j)] + rest, a, b, year)
  {
    TakenCons(rest, i, j, a, b);
    SeenAfterMark(blobs, marked, i, j, rest, a, (a, b), year);
    SeenAfterMark(blobs, marked, i, j, rest, b, (a, b), year);
  }

  /** A pair other than (i, j) is taken by the whole scan exactly when the rest takes it. */
  lemma TakenCons(rest: seq<(nat, nat)>, i: nat, j: nat, a: nat, b: nat)
    requires (a, b) != (i, j)
    ensures Taken([(i, j)] + rest, a, b) <==> Taken(rest, a, b)
  {
    var r := [(i, j)] + rest;
    if Taken(r, a, b) {
      var m :| 0 <= m < |r| && r[m] == (a, b);
      assert m > 0 && rest[m - 1] == (a, b);
    }
    if Taken(rest, a, b) {
      var m :| 0 <= m < |rest| && rest[m] == (a, b);
      assert r[m + 1] == (a, b);
    }
  }

  /** A blob seen by the whole scan at a pair after (i, j) is the blob the rest of
      the scan, over the population with (i, j) marked, sees there. */
  lemma SeenAfterMark(blobs: seq<Blob>, marked: seq<Blob>, i: nat, j: nat, rest: seq<(nat, nat)>,
                      k: nat, q: (nat, nat), year: int)
    requires i < j < |blobs| && k < |blobs|
    requires marked == MarkParents(blobs, i, j, year)
    requires Before((i, j), q)
    ensures AsScanned(blobs, [(i, j)] + rest, k, q, year) == AsScanned(marked, rest, k, q, year)
  {
    var r := [(i, j)] + rest;
    if k == i || k == j {
      assert MarkedBefore(r, k, q) by {
        assert r[0] == (i, j);
      }
    } else {
      assert marked[k] == blobs[k];
      assert MarkedBefore(r, k, q) <==> MarkedBefore(rest, k, q) by {
        if MarkedBefore(r, k, q) {
          var m :| 0 <= m < |r| && Before(r[m], q) && (r[m].0 == k || r[m].1 == k);
          assert m > 0 && r[m] == rest[m - 1];
        }
        if MarkedBefore(rest, k, q) {
          var m :| 0 <= m < |rest| && Before(rest[m], q) && (rest[m].0 == k || rest[m].1 == k);
          assert r[m + 1] == rest[m];
        }
      }
    }
  }

  /** The scan's choice for one pair (a, b) at or after (i, j): it is taken exactly
      when its two blobs, as marked by the pairs taken before it, can reproduce. */
  lemma {:induction false} ScanTakesPair(cfg: Config, year: int, blobs: seq<Blob>, i: nat, j: nat,
                                         inherit: (nat, nat, nat) -> bool, a: nat, b: nat)
    requires Valid(cfg) && ChromosomesSized(cfg, blobs)
    requires i < j
    requires a < b < |blobs| && NotBefore((a, b), (i, j))
    ensures ChosenIff(cfg, blobs, Scan(cfg, year, blobs, i, j, inherit).parents, a, b, year)
    decreases |blobs| - i, |blobs| - j
  {
    if j >= |blobs| {
      ScanTakesPair(cfg, year, blobs, i + 1, i + 2, inherit, a, b);
      assert Scan(cfg, year, blobs, i, j, inherit) == Scan(cfg, year, blobs, i + 1, i + 2, inherit);
    } else if CanReproduce(cfg, blobs[i], blobs[j], year) {
      var marked := MarkParents(blobs, i, j, year);
      var rest := Scan(cfg, year, marked, i, j + 1, inherit);
      assert Scan(cfg, year, blobs, i, j, inherit).parents == [(i, j)] + rest.parents;
      if (a, b) == (i, j) {
        FirstPairTaken(blobs, i, j, rest.parents, year);
      } else {
        ScanTakesPair(cfg, year, marked, i, j + 1, inherit, a, b);
        LaterPairChoice(cfg, year, blobs, marked, i, j, rest.parents, a, b);
      }
    } else {
      ScanSkip(cfg, year, blobs, i, j, inherit);
      var rest := Scan(cfg, year, blobs, i, j + 1, inherit);
      if (a, b) == (i, j) {
        FirstPairUnmarked(blobs, i, j, rest.parents, year);
      } else {
        ScanTakesPair(cfg, year, blobs, i, j + 1, inherit, a, b);
      }
    }
  }

  /** The whole scan from (i, j) takes exactly the pairs that can reproduce when it
      reaches them. */
  lemma ScanTakes(cfg: Config, year: int, blobs: seq<Blob>, i: nat, j: nat, inherit: (nat, nat, nat) -> bool)
    requires Valid(cfg) && ChromosomesSized(cfg, blobs)
    requires i < j
    ensures ScanChoice(cfg, blobs, Scan(cfg, year, blobs, i, j, inherit).parents, i, j, year)
  {
    forall a, b | 0 <= a < b < |blobs| && NotBefore((a, b), (i, j))
      ensures ChosenIff(cfg, blobs, Scan(cfg, year, blobs, i, j, inherit).parents, a, b, year)
    {
      ScanTakesPair(cfg, year, blobs, i, j, inherit, a, b);
    }
  }

  /** The scan leaves no pair behind that could still reproduce: two blobs that
      are nobody's parent fail can_reproduce at the end of the scan. */
  lemma ScanMaximal(cfg: Config, year: int, blobs: seq<Blob>, i: nat, j: nat,
                    inherit: (nat, nat, nat) -> bool)
    requires Valid(cfg) && ChromosomesSized(cfg, blobs)
    requires i < j
    ensures MaximalFrom(cfg, Scan(cfg, year, blobs, i, j, inherit), i, j, year)
  {
    var r := Scan(cfg, year, blobs, i, j, inherit);
    ScanKeepsUnmated(cfg, year, blobs, i, j, inherit);
    forall a, b | 0 <= a < b < |r.blobs| && NotBefore((a, b), (i, j))
                  && !Mated(r.parents, a) && !Mated(r.parents, b)
      ensures !CanReproduce(cfg, r.blobs[a], r.blobs[b], year)
    {
      ScanTakesPair(cfg, year, blobs, i, j, inherit, a, b);
      UnmatedUnseen(blobs, r.parents, a, (a, b), year);
      UnmatedUnseen(blobs, r.parents, b, (a, b), year);
      assert !Taken(r.parents, a, b);
    }
  }

  /** A blob that is nobody's parent is never marked during the scan. */
  lemma UnmatedUnseen(blobs: seq<Blob>, parents: seq<(nat, nat)>, k: nat, q: (nat, nat), year: int)
    requires k < |blobs| && !Mated(parents, k)
    ensures AsScanned(blobs, parents, k, q, year) == blobs[k]
  {
  }

  /** World.reproduce_blobs: nothing when reproduction is disabled, else the full
      scan from the pair (0, 1). A blob is never paired with itself, pairs come in
      scan order, every child descends from its listed parents, both parents of a
      child end with this year as their last birth year, and no two blobs left
      unpaired could still reproduce. Which pairs are taken is fixed by the scan
      order: a pair is taken exactly when its two blobs, marked by the pairs taken
      before it, can reproduce. With a cooldown of at least one year every
      pair was eligible, no blob is a parent twice, and there are at most half as
      many children as blobs. */
  function ReproduceBlobs(cfg: Config, enabled: bool, year: int, blobs: seq<Blob>,
                          inherit: (nat, nat, nat) -> bool): (r: Pairing)
    requires Valid(cfg) && ChromosomesSized(cfg, blobs)
    ensures !enabled ==> r.blobs == blobs && r.children == [] && r.parents == []
    ensures |r.blobs| == |blobs| && |r.children| == |r.parents|
    ensures ChromosomesSized(cfg, r.blobs)
    ensures OnlyMarked(blobs, r.blobs, year)
    ensures forall m :: 0 <= m < |r.parents| ==> r.parents[m].0 < r.parents[m].1 < |blobs|
    ensures InScanOrder(r.parents)
    ensures ChildrenOf(cfg, blobs, r)
    ensures ParentsMarked(r, year)
    ensures UnmatedKept(blobs, r)
    ensures enabled ==> MaximalFrom(cfg, r, 0, 1, year)
    ensures enabled ==> ScanChoice(cfg, blobs, r.parents, 0, 1, year)
    ensures cfg.reproductionCooldown >= 1 ==>
      EligiblePairs(cfg, blobs, r.parents, year) && DisjointPairs(r.parents)
      && 2 * |r.children| <= |blobs|
  {
    if !enabled then Pairing(blobs, [], [])
    else
      ScanOnlyMarks(cfg, year, blobs, 0, 1, inherit);
      ScanChildren(cfg, year, blobs, 0, 1, inherit);
      ScanOrdered(cfg, year, blobs, 0, 1, inherit);
      ScanMarksParents(cfg, year, blobs, 0, 1, inherit);
      ScanKeepsUnmated(cfg, year, blobs, 0, 1, inherit);
      ScanMaximal(cfg, year, blobs, 0, 1, inherit);
      ScanTakes(cfg, year, blobs, 0, 1, inherit);
      if cfg.reproductionCooldown >= 1 then
        ScanEligible(cfg, year, blobs, 0, 1, inherit);
        ScanBirthBound(cfg, year, blobs, 0, 1, inherit);
        Scan(cfg, year, blobs, 0, 1, inherit)
      else
        Scan(cfg, year, blobs, 0, 1, inherit)
  }
}
