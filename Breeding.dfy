/**
 * The production contract of breeding sources: SelectionMethod.cs, RuleCrossoverPipeline.cs and
 * MuPlusLambdaBreeder.cs. Individuals are objects, because who owns an individual is the point:
 * a selection method hands out the population's own individuals, a pipeline clones or does not
 * clone them, and a breeder appends clones. The choices of subclasses and of the random number
 * generator (which index to select, whether to cross over, how to split a rule set) are
 * oracle parameters.
 */
module Breeding {
  import opened Wrappers
  import ParameterValues

  /** A rule of a rule set. Rules are only moved between rule sets here, never looked into. */
  type Rule = nat

  /** A RuleSet: its rules and the [minSize, maxSize] bounds of its constraints. */
  datatype RuleSet = RuleSet(rules: seq<Rule>, minSize: int, maxSize: int)

  /** What the breeding code reads and writes of an individual: the Evaluated flag and, for a
      rule individual, its rule sets. */
  class Individual {
    var evaluated: bool
    var rulesets: seq<RuleSet>

    constructor (evaluated: bool, rulesets: seq<RuleSet>)
      ensures this.evaluated == evaluated && this.rulesets == rulesets
    {
      this.evaluated := evaluated;
      this.rulesets := rulesets;
    }

    /** A deep copy: a new object with the same state. */
    method Clone() returns (c: Individual)
      ensures fresh(c)
      ensures c.evaluated == evaluated && c.rulesets == rulesets
    {
      c := new Individual(evaluated, rulesets);
    }
  }

  /** `c` has the state of `o`, as a clone of `o` has. */
  ghost predicate Copies(c: Individual, o: Individual)
    reads c, o
  {
    c.evaluated == o.evaluated && c.rulesets == o.rulesets
  }

  /** `after` is `before` followed by copies of `originals`, in order. */
  ghost predicate CopiesAppended(before: seq<Individual>, after: seq<Individual>, originals: seq<Individual>)
    reads after, originals
  {
    |before| <= |after| && after[..|before|] == before && CopiesOf(after[|before|..], originals)
  }

  /** Each of `cs` has the state of the individual at the same position of `os`. */
  ghost predicate CopiesOf(cs: seq<Individual>, os: seq<Individual>)
    reads cs, os
  {
    |cs| == |os| && forall k :: 0 <= k < |cs| ==> Copies(cs[k], os[k])
  }

  /** A caller-owned IList<Individual>. */
  class IndividualList {
    var items: seq<Individual>

    constructor ()
      ensures items == []
    {
      items := [];
    }

    method Add(i: Individual)
      modifies this
      ensures items == old(items) + [i]
    {
      items := items + [i];
    }

    method Set(k: nat, i: Individual)
      requires k < |items|
      modifies this
      ensures items == old(items)[k := i]
    {
      items := items[k := i];
    }

    /** Replaces every individual from position `start` on by a clone of itself. */
    method CloneFrom(start: nat)
      requires start <= |items|
      modifies this
      ensures |items| == old(|items|) && items[..start] == old(items[..start])
      ensures forall k :: start <= k < |items| ==> fresh(items[k]) && Copies(items[k], old(items[k]))
    {
      var q := start;
      while q < |items|
        invariant start <= q <= |items| == old(|items|)
        invariant items[..start] == old(items[..start])
        invariant forall k :: start <= k < q ==> fresh(items[k]) && Copies(items[k], old(items[k]))
        invariant forall k :: q <= k < |items| ==> items[k] == old(items[k])
      {
        var c := items[q].Clone();
        items := items[q := c];
        q := q + 1;
      }
    }

    method Clear()
      modifies this
      ensures items == []
    {
      items := [];
    }
  }

  function NonNegative(n: int): nat {
    if n < 0 then 0 else n
  }

  /** How many individuals a produce call makes: the source's typical count, raised to `min`
      and then lowered to `max`. */
  function ProduceCount(typical: int, min: int, max: int): (n: int)
    ensures n <= max
    ensures min <= max ==> min <= n
    ensures min <= typical <= max ==> n == typical
    ensures typical < min <= max ==> n == min
    ensures max < typical && min <= max ==> n == max
    ensures 0 <= typical && 0 <= max ==> 0 <= n
  {
    var n := if typical < min then min else typical;
    if n > max then max else n
  }

  /** The individuals at the selected indices of the population. */
  function Picked(pool: seq<Individual>, picks: seq<nat>): (r: seq<Individual>)
    requires forall q :: 0 <= q < |picks| ==> picks[q] < |pool|
    ensures |r| == |picks|
    ensures forall q :: 0 <= q < |picks| ==> r[q] == pool[picks[q]]
  {
    seq(|picks|, q requires 0 <= q < |picks| => pool[picks[q]])
  }

  /** The parent-bag array after slots start.. have received a bag holding the index chosen
      for them. */
  function BagsAfter(bags: seq<seq<nat>>, start: nat, chosen: seq<nat>): (r: seq<seq<nat>>)
    ensures |r| == |bags|
    ensures forall k :: 0 <= k < |bags| && !(start <= k < start + |chosen|) ==> r[k] == bags[k]
    ensures forall q :: 0 <= q < |chosen| && start + q < |bags| ==> r[start + q] == [chosen[q]]
  {
    seq(|bags|, k requires 0 <= k < |bags| =>
      if start <= k < start + |chosen| then [chosen[k - start]] else bags[k])
  }

  // ---------------------------------------------------------------------------------------
  // SelectionMethod.cs

  /** A selection method. Which index its Produce(subpop, state, thread) returns is up to the
      subclass; the indices it would return are the `picks` oracle. A parent-bag array stands
      for the "parents" entry of the misc dictionary (null when there is none). */
  class SelectionMethod {
    constructor ()
    {
    }

    function TypicalIndsProduced(): int {
      1
    }

    method Produces() returns (b: bool)
      ensures b
    {
      b := true;
    }

    method PreparePipeline()
    {
    }

    method PrepareToProduce()
    {
    }

    method FinishProducing()
    {
    }

    /** Appends the selected individuals themselves (no copies) and records each selected index
        in its slot of the parent-bag array. */
    method ProduceWithoutCloning(min: int, max: int, inds: IndividualList, pool: seq<Individual>,
                                 picks: seq<nat>, parentBags: array?<seq<nat>>) returns (n: int)
      requires NonNegative(ProduceCount(TypicalIndsProduced(), min, max)) <= |picks|
      requires forall q :: 0 <= q < |picks| ==> picks[q] < |pool|
      requires parentBags != null ==>
        |inds.items| + NonNegative(ProduceCount(TypicalIndsProduced(), min, max)) <= parentBags.Length
      modifies inds, parentBags
      ensures n == ProduceCount(TypicalIndsProduced(), min, max)
      ensures inds.items == old(inds.items) + Picked(pool, picks[..NonNegative(n)])
      ensures parentBags != null ==>
        parentBags[..] == BagsAfter(old(parentBags[..]), old(|inds.items|), picks[..NonNegative(n)])
    {
      var start := |inds.items|;
      n := 1;
      if n < min {
        n := min;
      }
      if n > max {
        n := max;
      }
      var q := 0;
      while q < n
        invariant 0 <= q <= NonNegative(n)
        invariant inds.items == old(inds.items) + Picked(pool, picks[..q])
        invariant parentBags != null ==>
          parentBags[..] == BagsAfter(old(parentBags[..]), start, picks[..q])
      {
        var index := picks[q];
        inds.Add(pool[index]);
        assert picks[..q + 1] == picks[..q] + [index];
        if parentBags != null {
          parentBags[start + q] := [index];
          assert parentBags[..] == BagsAfter(old(parentBags[..]), start, picks[..q + 1]);
        }
        q := q + 1;
      }
    }

    /** ProduceWithoutCloning, then every appended slot replaced by a clone of its individual. */
    method Produce(min: int, max: int, inds: IndividualList, pool: seq<Individual>,
                   picks: seq<nat>, parentBags: array?<seq<nat>>) returns (n: int)
      requires NonNegative(ProduceCount(TypicalIndsProduced(), min, max)) <= |picks|
      requires forall q :: 0 <= q < |picks| ==> picks[q] < |pool|
      requires parentBags != null ==>
        |inds.items| + NonNegative(ProduceCount(TypicalIndsProduced(), min, max)) <= parentBags.Length
      modifies inds, parentBags
      ensures n == ProduceCount(TypicalIndsProduced(), min, max)
      ensures CopiesAppended(old(inds.items), inds.items, Picked(pool, picks[..NonNegative(n)]))
      ensures forall k :: old(|inds.items|) <= k < |inds.items| ==> fresh(inds.items[k])
      ensures parentBags != null ==>
        parentBags[..] == BagsAfter(old(parentBags[..]), old(|inds.items|), picks[..NonNegative(n)])
    {
      var start := |inds.items|;
      n := ProduceWithoutCloning(min, max, inds, pool, picks, parentBags);
      ghost var chosen := Picked(pool, picks[..NonNegative(n)]);
      inds.CloneFrom(start);
      assert forall k :: 0 <= k < |chosen| ==> inds.items[start..][k] == inds.items[start + k];
    }
  }

  // ---------------------------------------------------------------------------------------
  // MuPlusLambdaBreeder.cs

  class Subpopulation {
    var individuals: seq<Individual>

    constructor (individuals: seq<Individual>)
      ensures this.individuals == individuals
    {
      this.individuals := individuals;
    }
  }

  class Population {
    var subpops: seq<Subpopulation>

    constructor (subpops: seq<Subpopulation>)
      ensures this.subpops == subpops
    {
      this.subpops := subpops;
    }
  }

  /** The (mu + lambda) breeder: after breeding, the mu parents of each subpopulation join the
      new one. `mu` is the per-subpopulation mu that the (mu, lambda) setup reads. */
  class MuPlusLambdaBreeder {
    var maximumMuLambdaDivisor: int
    var mu: seq<int>

    constructor (mu: seq<int>)
      ensures maximumMuLambdaDivisor == 1 && this.mu == mu
    {
      maximumMuLambdaDivisor := 1;
      this.mu := mu;
    }

    /** Appends to each subpopulation x of `newpop` clones of the first mu[x] individuals of
        subpopulation x of `oldpop`, and returns `newpop`; `clones[x]` are the individuals
        appended to subpopulation x. */
    method PostProcess(newpop: Population, oldpop: Population) returns (r: Population, ghost clones: seq<seq<Individual>>)
      requires |newpop.subpops| <= |mu| && |newpop.subpops| <= |oldpop.subpops|
      requires forall x :: 0 <= x < |newpop.subpops| ==> mu[x] <= |oldpop.subpops[x].individuals|
      requires forall x, y :: 0 <= x < y < |newpop.subpops| ==> newpop.subpops[x] != newpop.subpops[y]
      requires forall x, y :: 0 <= x < |newpop.subpops| && 0 <= y < |newpop.subpops| ==> newpop.subpops[x] != oldpop.subpops[y]
      modifies newpop.subpops
      ensures r == newpop
      ensures |clones| == |newpop.subpops|
      ensures forall x :: 0 <= x < |newpop.subpops| ==>
        newpop.subpops[x].individuals == old(newpop.subpops[x].individuals) + clones[x]
      ensures forall x :: 0 <= x < |newpop.subpops| ==>
        CopiesOf(clones[x], old(oldpop.subpops[x].individuals)[..NonNegative(mu[x])])
      ensures forall x, k :: 0 <= x < |clones| && 0 <= k < |clones[x]| ==> fresh(clones[x][k])
    {
      ghost var before := Members(newpop.subpops);
      ghost var chosen := Leading(oldpop.subpops, mu, |newpop.subpops|);
      var subs := newpop.subpops;
      clones := [];
      var x := 0;
      while x < |subs|
        invariant 0 <= x <= |subs| && |clones| == x
        invariant forall z :: 0 <= z < x ==> subs[z].individuals == before[z] + clones[z]
        invariant forall z :: 0 <= z < x ==> CopiesOf(clones[z], chosen[z])
        invariant forall z, k :: 0 <= z < x && 0 <= k < |clones[z]| ==> fresh(clones[z][k])
        invariant forall z :: x <= z < |subs| ==> subs[z].individuals == before[z]
      {
        ghost var added := AppendClones(subs[x], oldpop.subpops[x], mu[x]);
        ghost var prev := clones;
        clones := clones + [added];
        forall z | 0 <= z <= x
          ensures subs[z].individuals == before[z] + clones[z] && CopiesOf(clones[z], chosen[z])
        {
          if z < x {
            assert clones[z] == prev[z];
          }
        }
        x := x + 1;
      }
      r := newpop;
    }
  }

  /** The individuals of each subpopulation. */
  ghost function Members(subs: seq<Subpopulation>): (r: seq<seq<Individual>>)
    reads subs
    ensures |r| == |subs| && forall z :: 0 <= z < |subs| ==> r[z] == subs[z].individuals
  {
    seq(|subs|, z requires 0 <= z < |subs| reads subs => subs[z].individuals)
  }

  /** The first counts[z] individuals of each of the first n subpopulations. */
  ghost function Leading(subs: seq<Subpopulation>, counts: seq<int>, n: nat): (r: seq<seq<Individual>>)
    requires n <= |subs| && n <= |counts|
    requires forall z :: 0 <= z < n ==> counts[z] <= |subs[z].individuals|
    reads subs
    ensures |r| == n && forall z :: 0 <= z < n ==> r[z] == subs[z].individuals[..NonNegative(counts[z])]
  {
    seq(n, z requires 0 <= z < n && counts[z] <= |subs[z].individuals| reads subs =>
      subs[z].individuals[..NonNegative(counts[z])])
  }

  /** The inner loop of MuPlusLambdaBreeder.PostProcess: appends to `sub` clones of the first
      `count` individuals of `parents` (which may be `sub` itself); `added` are the clones. */
  method AppendClones(sub: Subpopulation, parents: Subpopulation, count: int) returns (ghost added: seq<Individual>)
    requires count <= |parents.individuals|
    modifies sub
    ensures sub.individuals == old(sub.individuals) + added
    ensures CopiesOf(added, old(parents.individuals)[..NonNegative(count)])
    ensures forall k :: 0 <= k < |added| ==> fresh(added[k])
  {
    ghost var originals := parents.individuals[..NonNegative(count)];
    added := [];
    var y := 0;
    while y < count
      invariant 0 <= y <= NonNegative(count)
      invariant sub.individuals == old(sub.individuals) + added
      invariant CopiesOf(added, originals[..y])
      invariant forall k :: 0 <= k < |added| ==> fresh(added[k])
      invariant originals <= parents.individuals
    {
      var c := parents.individuals[y].Clone();
      sub.individuals := sub.individuals + [c];
      added := added + [c];
      y := y + 1;
    }
  }

  // ---------------------------------------------------------------------------------------
  // RuleCrossoverPipeline.cs

  /** One of the two sources of the crossover pipeline, as the pipeline sees it: whether it is
      a BreedingPipeline, the individuals its produce calls hand out, in order, and how many of
      them it has handed out so far. */
  class Source {
    const isPipeline: bool
    const supply: seq<Individual>
    var handed: nat

    constructor (isPipeline: bool, supply: seq<Individual>)
      ensures this.isPipeline == isPipeline && this.supply == supply && handed == 0
    {
      this.isPipeline := isPipeline;
      this.supply := supply;
      handed := 0;
    }

    /** Produce(count, count, ...): appends the next `count` individuals to `inds`. */
    method Produce(count: nat, inds: IndividualList)
      requires handed + count <= |supply|
      modifies this, inds
      ensures inds.items == old(inds.items) + supply[old(handed)..old(handed) + count]
      ensures handed == old(handed) + count
    {
      inds.items := inds.items + supply[handed..handed + count];
      handed := handed + count;
    }
  }

  /** One attempt at splitting rule set x of both parents (two SplitIntoTwo calls): `toSecond`
      is temp[0], the rules meant for the second parent, and `toFirst` is temp[1], the rules
      meant for the first. */
  datatype SplitAttempt = SplitAttempt(toSecond: seq<Rule>, toFirst: seq<Rule>)

  predicate Fits(rules: seq<Rule>, r: RuleSet) {
    r.minSize <= |rules| <= r.maxSize
  }

  /** The acceptance test of an attempt: temp[0] within the first parent's bounds for rule
      set x, temp[1] within the second parent's. */
  predicate Accepts(a: SplitAttempt, first: RuleSet, second: RuleSet) {
    Fits(a.toSecond, first) && Fits(a.toFirst, second)
  }

  predicate SameBounds(r: RuleSet, s: RuleSet) {
    r.minSize == s.minSize && r.maxSize == s.maxSize
  }

  /** Two rule sets crossed over: each holds a number of rules within the other's bounds. */
  predicate Crossed(r: RuleSet, s: RuleSet) {
    Fits(r.rules, s) && Fits(s.rules, r)
  }

  /** Every rule set holds a number of rules within its own bounds. */
  predicate AllFit(rs: seq<RuleSet>) {
    forall x :: 0 <= x < |rs| ==> Fits(rs[x].rules, rs[x])
  }

  /** As many rule sets as `shape`, each with the bounds of the one at the same position. */
  predicate HasShape(rs: seq<RuleSet>, shape: seq<RuleSet>) {
    |rs| == |shape| && forall x :: 0 <= x < |rs| ==> SameBounds(rs[x], shape[x])
  }

  /** What a crossing leaves of one parent's rule sets, given the other's: each is either
      crossed over with the other's or as it was. */
  predicate CrossedOrKept(after: seq<RuleSet>, other: seq<RuleSet>, before: seq<RuleSet>) {
    |after| == |other| == |before| &&
    forall x :: 0 <= x < |after| ==> Crossed(after[x], other[x]) || after[x] == before[x]
  }

  /** When both parents keep one shape, a crossing keeps a parent whose rule sets fit their
      bounds fitting, and a completed crossing makes it fit whatever it was. */
  lemma CrossingFits(after: seq<RuleSet>, other: seq<RuleSet>, before: seq<RuleSet>, shape: seq<RuleSet>)
    requires CrossedOrKept(after, other, before) && HasShape(after, shape) && HasShape(other, shape)
    ensures AllFit(before) ==> AllFit(after)
    ensures (forall x :: 0 <= x < |after| ==> Crossed(after[x], other[x])) ==> AllFit(after)
  {
  }

  /** How a crossing step ends: normally, on the fatal error of mismatched rule-set counts, or
      because the split attempts on offer ran out before one was accepted. */
  datatype Outcome = Completed | Fatal | OutOfAttempts

  /** The retry loop for rule set x: tries the attempts from `from` on until one is accepted,
      then gives the first parent temp[1] and the second temp[0] (CopyNoClone keeps each rule
      set's own constraints). `next` is the index after the last attempt tried. When both
      parents are one object, the second copy wins. */
  method CrossRuleSet(p0: Individual, p1: Individual, x: nat, attempts: seq<SplitAttempt>, from: nat)
    returns (next: nat, found: bool)
    requires x < |p0.rulesets| && x < |p1.rulesets| && from <= |attempts|
    modifies p0, p1
    ensures from <= next <= |attempts|
    ensures found ==> from < next && Accepts(attempts[next - 1], old(p0.rulesets[x]), old(p1.rulesets[x]))
    ensures forall k :: from <= k < (if found then next - 1 else next) ==>
      !Accepts(attempts[k], old(p0.rulesets[x]), old(p1.rulesets[x]))
    ensures !found ==> next == |attempts|
    ensures found && p0 != p1 ==> p0.rulesets == old(p0.rulesets)[x := old(p0.rulesets[x]).(rules := attempts[next - 1].toFirst)]
    ensures found ==> p1.rulesets == old(p1.rulesets)[x := old(p1.rulesets[x]).(rules := attempts[next - 1].toSecond)]
    ensures !found ==> p0.rulesets == old(p0.rulesets) && p1.rulesets == old(p1.rulesets)
    ensures p0.evaluated == old(p0.evaluated) && p1.evaluated == old(p1.evaluated)
  {
    next := from;
    found := false;
    while next < |attempts|
      invariant from <= next <= |attempts|
      invariant forall k :: from <= k < next ==> !Accepts(attempts[k], p0.rulesets[x], p1.rulesets[x])
      invariant p0.rulesets == old(p0.rulesets) && p1.rulesets == old(p1.rulesets)
      invariant p0.evaluated == old(p0.evaluated) && p1.evaluated == old(p1.evaluated)
    {
      var temp := attempts[next];
      next := next + 1;
      if Accepts(temp, p0.rulesets[x], p1.rulesets[x]) {
        found := true;
        p0.rulesets := p0.rulesets[x := p0.rulesets[x].(rules := temp.toFirst)];
        p1.rulesets := p1.rulesets[x := p1.rulesets[x].(rules := temp.toSecond)];
        return;
      }
    }
  }

  /** Crossing two parents over, rule set by rule set: fatal when their rule-set counts differ;
      otherwise each new rule set lies within the bounds its split was checked against. */
  method Crossover(p0: Individual, p1: Individual, attempts: seq<SplitAttempt>, from: nat)
    returns (next: nat, outcome: Outcome)
    requires from <= |attempts|
    modifies p0, p1
    ensures from <= next <= |attempts|
    ensures outcome == Fatal <==> |old(p0.rulesets)| != |old(p1.rulesets)|
    ensures outcome == Fatal ==> p0.rulesets == old(p0.rulesets) && p1.rulesets == old(p1.rulesets)
    ensures outcome != Fatal ==> |p0.rulesets| == |p1.rulesets| == |old(p0.rulesets)|
    ensures outcome != Fatal ==> forall x :: 0 <= x < |p0.rulesets| ==>
      SameBounds(p0.rulesets[x], old(p0.rulesets[x])) && SameBounds(p1.rulesets[x], old(p1.rulesets[x]))
    ensures outcome == Completed ==> forall x :: 0 <= x < |p0.rulesets| ==> Crossed(p0.rulesets[x], p1.rulesets[x])
    ensures outcome != Fatal ==>
      CrossedOrKept(p0.rulesets, p1.rulesets, old(p0.rulesets)) && CrossedOrKept(p1.rulesets, p0.rulesets, old(p1.rulesets))
    ensures p0.evaluated == old(p0.evaluated) && p1.evaluated == old(p1.evaluated)
  {
    next := from;
    if |p0.rulesets| != |p1.rulesets| {
      return next, Fatal;
    }
    var x := 0;
    while x < |p0.rulesets|
      invariant 0 <= x <= |p0.rulesets| && |p0.rulesets| == |p1.rulesets| == |old(p0.rulesets)|
      invariant from <= next <= |attempts|
      invariant forall y :: 0 <= y < |p0.rulesets| ==>
        SameBounds(p0.rulesets[y], old(p0.rulesets[y])) && SameBounds(p1.rulesets[y], old(p1.rulesets[y]))
      invariant forall y :: 0 <= y < x ==> Crossed(p0.rulesets[y], p1.rulesets[y])
      invariant forall y :: x <= y < |p0.rulesets| ==>
        p0.rulesets[y] == old(p0.rulesets[y]) && p1.rulesets[y] == old(p1.rulesets[y])
      invariant p0.evaluated == old(p0.evaluated) && p1.evaluated == old(p1.evaluated)
    {
      var found;
      next, found := CrossRuleSet(p0, p1, x, attempts, next);
      if !found {
        return next, OutOfAttempts;
      }
      x := x + 1;
    }
    outcome := Completed;
  }

  /** The crossing of a round and the marking that follows it: the two parents crossed over
      and, unless that was fatal, marked unevaluated. For parents whose rule sets have one
      shape of bounds it is never fatal, keeps the shape, keeps rule sets that fit their
      bounds fitting and, when completed, leaves every rule set fitting. */
  method Mate(p0: Individual, p1: Individual, attempts: seq<SplitAttempt>, from: nat, ghost shape: seq<RuleSet>)
    returns (next: nat, outcome: Outcome)
    requires from <= |attempts|
    modifies p0, p1
    ensures from <= next <= |attempts|
    ensures outcome == Fatal <==> |p0.rulesets| != |p1.rulesets|
    ensures outcome == Fatal ==> p0.evaluated == old(p0.evaluated) && p1.evaluated == old(p1.evaluated)
    ensures outcome != Fatal ==> !p0.evaluated && !p1.evaluated
    ensures outcome == Completed ==> forall x :: 0 <= x < |p0.rulesets| ==> Crossed(p0.rulesets[x], p1.rulesets[x])
    ensures HasShape(old(p0.rulesets), shape) && HasShape(old(p1.rulesets), shape) ==>
      outcome != Fatal && HasShape(p0.rulesets, shape) && HasShape(p1.rulesets, shape)
    ensures HasShape(old(p0.rulesets), shape) && HasShape(old(p1.rulesets), shape) ==>
      (AllFit(old(p0.rulesets)) ==> AllFit(p0.rulesets)) && (AllFit(old(p1.rulesets)) ==> AllFit(p1.rulesets)) &&
      (outcome == Completed ==> AllFit(p0.rulesets) && AllFit(p1.rulesets))
  {
    ghost var r0, r1 := p0.rulesets, p1.rulesets;
    next, outcome := Crossover(p0, p1, attempts, from);
    if outcome == Fatal {
      return;
    }
    p0.evaluated := false;
    p1.evaluated := false;
    if HasShape(r0, shape) && HasShape(r1, shape) {
      CrossingFits(p0.rulesets, p1.rulesets, r0, shape);
      CrossingFits(p1.rulesets, p0.rulesets, r1, shape);
    }
  }

  /** The number of crossing rounds that make `remaining` children: one child a round when
      the second parent is tossed, otherwise two (one in a last round with one slot left). */
  function Rounds(remaining: int, toss: bool): nat {
    if remaining <= 0 then 0 else if toss then remaining else 1 + Rounds(remaining - 2, toss)
  }

  /** How the crossing rounds of a pipeline draw their parents: whether the second parent is
      tossed, whether both come from one source, and whether the first and the second are
      copied into new objects (a source that is not a BreedingPipeline, when the sources differ). */
  datatype Pairing = Pairing(toss: bool, sameSource: bool, copy0: bool, copy1: bool)

  /** Where a child of a crossing Produce call comes from: the very individual a source handed
      out, a new object copied from one, or nowhere because the source's supply ran short. */
  datatype Origin = Itself(individual: Individual) | Copy | Exhausted

  /** The origin of the individual at position `pos` of a source's supply. */
  function Handed(q: seq<Individual>, pos: nat, copied: bool): (o: Origin)
    ensures o.Exhausted? <==> pos >= |q|
    ensures o.Itself? ==> !copied && o.individual == q[pos]
    ensures o.Copy? ==> copied
  {
    if pos >= |q| then Exhausted else if copied then Copy else Itself(q[pos])
  }

  /** The children one crossing round adds when `slots` children are still to be made and the
      sources' supplies q0 and q1 have handed out h0 and h1 individuals: the first parent, and
      the second one too while two slots remain and it is not tossed. */
  function RoundChildren(p: Pairing, slots: int, q0: seq<Individual>, h0: nat, q1: seq<Individual>, h1: nat)
    : (r: seq<Origin>)
    ensures |r| == if 2 <= slots && !p.toss then 2 else 1
    ensures r[0] == Handed(q0, h0, p.copy0)
    ensures |r| == 2 ==> r[1] == if p.sameSource then Handed(q0, h0 + 1, false) else Handed(q1, h1, p.copy1)
  {
    var first := Handed(q0, h0, p.copy0);
    var second := if p.sameSource then Handed(q0, h0 + 1, false) else Handed(q1, h1, p.copy1);
    if 2 <= slots && !p.toss then [first, second] else [first]
  }

  /** How far the first source has got after one more round. */
  function Next0(p: Pairing, h0: nat): nat {
    if p.sameSource then h0 + 2 else h0 + 1
  }

  /** How far the second source has got after one more round. */
  function Next1(p: Pairing, h0: nat, h1: nat): nat {
    if p.sameSource then h0 + 2 else h1 + 1
  }

  /** The children a crossing Produce call makes for `slots` slots, round after round, from the
      supplies q0 and q1 (one source hands out two parents a round, two sources one each). */
  function Offspring(p: Pairing, slots: int, q0: seq<Individual>, h0: nat, q1: seq<Individual>, h1: nat)
    : (r: seq<Origin>)
    ensures |r| == if slots <= 0 then 0 else slots
    decreases slots
  {
    if slots <= 0 then []
    else
      var round := RoundChildren(p, slots, q0, h0, q1, h1);
      round + Offspring(p, slots - |round|, q0, Next0(p, h0), q1, Next1(p, h0, h1))
  }

  /** The origin of child k of a crossing Produce call, in closed form: one child a round
      when the second parent is tossed, otherwise children 2r and 2r + 1 from round r; one
      source hands out two parents a round, two sources one each. */
  function ChildOrigin(p: Pairing, k: nat, q0: seq<Individual>, h0: nat, q1: seq<Individual>, h1: nat): (o: Origin)
    ensures p.toss ==> o == Handed(q0, h0 + (if p.sameSource then 2 * k else k), p.copy0)
    ensures !p.toss && p.sameSource ==> o == Handed(q0, h0 + k, p.copy0 && k % 2 == 0)
    ensures !p.toss && !p.sameSource ==>
      o == if k % 2 == 0 then Handed(q0, h0 + k / 2, p.copy0) else Handed(q1, h1 + k / 2, p.copy1)
  {
    if p.toss then Handed(q0, h0 + (if p.sameSource then 2 * k else k), p.copy0)
    else if p.sameSource then Handed(q0, h0 + k, p.copy0 && k % 2 == 0)
    else if k % 2 == 0 then Handed(q0, h0 + k / 2, p.copy0)
    else Handed(q1, h1 + k / 2, p.copy1)
  }

  /** Child k + m counted from the start is child k counted from the next round, m being the
      children of a full round. */
  lemma ChildOriginShift(p: Pairing, k: nat, q0: seq<Individual>, h0: nat, q1: seq<Individual>, h1: nat)
    ensures var m := if p.toss then 1 else 2;
      ChildOrigin(p, k + m, q0, h0, q1, h1) == ChildOrigin(p, k, q0, Next0(p, h0), q1, Next1(p, h0, h1))
  {
    if !p.toss && !p.sameSource {
      assert (k + 2) / 2 == k / 2 + 1 && (k + 2) % 2 == k % 2;
    }
  }

  /** The round-by-round description and the closed form agree on every child. */
  lemma {:induction false} OffspringChildren(p: Pairing, slots: int, q0: seq<Individual>, h0: nat, q1: seq<Individual>, h1: nat)
    ensures forall k: nat :: k < |Offspring(p, slots, q0, h0, q1, h1)| ==>
      Offspring(p, slots, q0, h0, q1, h1)[k] == ChildOrigin(p, k, q0, h0, q1, h1)
    decreases slots
  {
    if 1 <= slots {
      var round := RoundChildren(p, slots, q0, h0, q1, h1);
      var rest := Offspring(p, slots - |round|, q0, Next0(p, h0), q1, Next1(p, h0, h1));
      OffspringChildren(p, slots - |round|, q0, Next0(p, h0), q1, Next1(p, h0, h1));
      forall k: nat | k < |round + rest|
        ensures (round + rest)[k] == ChildOrigin(p, k, q0, h0, q1, h1)
      {
        if k >= |round| {
          ChildOriginShift(p, k - |round|, q0, h0, q1, h1);
        }
      }
    }
  }

  /** After r rounds the children of round r + 1 are children k, k + 1 of the whole call,
      k being the children the r rounds made. */
  lemma RoundChildOrigins(p: Pairing, slots: int, r: nat, k: nat, q0: seq<Individual>, h0: nat, q1: seq<Individual>, h1: nat,
                          g0: nat, g1: nat)
    requires k == (if p.toss then r else 2 * r)
    requires g0 == h0 + (if p.sameSource then 2 * r else r)
    requires !p.sameSource ==> g1 == h1 + r
    ensures var round := RoundChildren(p, slots, q0, g0, q1, g1);
      forall i :: 0 <= i < |round| ==> round[i] == ChildOrigin(p, k + i, q0, h0, q1, h1)
  {
    if !p.toss && !p.sameSource {
      assert (2 * r) / 2 == r && (2 * r) % 2 == 0;
      assert (2 * r + 1) / 2 == r && (2 * r + 1) % 2 == 1;
    }
  }

  /** The individuals at positions [from, to) of a supply. */
  ghost function Slice(supply: seq<Individual>, from: nat, to: nat): set<Individual>
  {
    set k | from <= k < to && k < |supply| :: supply[k]
  }

  /** Handing out positions [a, b) and then [b, c) hands out positions [a, c). */
  lemma SliceSplit(supply: seq<Individual>, a: nat, b: nat, c: nat)
    requires a <= b <= c
    ensures Slice(supply, a, c) == Slice(supply, a, b) + Slice(supply, b, c)
  {
  }

  lemma AppendAssociates<T>(a: seq<T>, b: seq<T>, c: seq<T>)
    ensures (a + b) + c == a + (b + c)
  {
  }

  /** One round fewer is left once a round has made its children. */
  lemma RoundsStep(slots: int, toss: bool)
    requires 1 <= slots
    ensures Rounds(slots, toss) == 1 + Rounds(slots - (if 2 <= slots && !toss then 2 else 1), toss)
  {
  }

  /** `child` is what `o` says: the very individual, or a new object. */
  twostate predicate Matches(new child: Individual, new o: Origin) {
    match o
    case Itself(i) => child == i
    case Copy => fresh(child)
    case Exhausted => false
  }

  /** `i` has the state it had before: the same rule sets and the same evaluated flag. */
  twostate predicate Kept(i: Individual)
    reads i
  {
    i.rulesets == old(i.rulesets) && i.evaluated == old(i.evaluated)
  }

  /** Every rule set of `i` holds a number of rules within its own bounds. */
  ghost predicate RulesFit(i: Individual)
    reads i
  {
    AllFit(i.rulesets)
  }

  /** A child made by a crossing round: it has the origin o and awaits evaluation. */
  twostate predicate Born(new child: Individual, new o: Origin)
    reads child
  {
    Matches(child, o) && !child.evaluated
  }

  class RuleCrossoverPipeline {
    var tossSecondParent: bool
    var ruleCrossProbability: real
    /** The Parents list the two parents of a round are fetched into. */
    const parents: IndividualList
    const source0: Source
    const source1: Source

    constructor (source0: Source, source1: Source)
      ensures this.source0 == source0 && this.source1 == source1
      ensures fresh(parents) && parents.items == []
    {
      this.source0 := source0;
      this.source1 := source1;
      parents := new IndividualList();
    }

    /** Children a produce call makes by default: the most that one crossing round makes, so
        one child more would take a second round. */
    function TypicalIndsProduced(): (n: int)
      reads this
      ensures Rounds(n, tossSecondParent) == 1
      ensures Rounds(n + 1, tossSecondParent) == 2
    {
      if tossSecondParent then 1 else assert Rounds(1, false) == 1; 2
    }

    /** `toss` is the toss parameter (missing: None); `probability` is the crossover-prob
        parameter when it is present and a number. Returns false on the fatal error. */
    method Setup(toss: Option<string>, probability: Option<real>) returns (ok: bool)
      modifies this
      ensures tossSecondParent == ParameterValues.BooleanSetting(toss, false)
      ensures ruleCrossProbability == (if probability.Some? then probability.value else 0.5)
      ensures ok <==> 0.0 <= ruleCrossProbability <= 1.0
    {
      tossSecondParent := ParameterValues.BooleanSetting(toss, false);
      ruleCrossProbability := if probability.Some? then probability.value else 0.5;
      ok := !(ruleCrossProbability > 1.0 || ruleCrossProbability < 0.0);
    }

    /** The sources can hand out the parents of `rounds` rounds. */
    predicate Supplies(rounds: nat)
      reads source0, source1
    {
      if source0 == source1 then source0.handed + 2 * rounds <= |source0.supply|
      else source0.handed + rounds <= |source0.supply| && source1.handed + rounds <= |source1.supply|
    }

    /** Every individual the sources can hand out has rule sets of the given shape, as when
        they all come from one species. */
    ghost predicate UniformSupply(shape: seq<RuleSet>)
      reads source0.supply, source1.supply
    {
      (forall i :: i in source0.supply ==> HasShape(i.rulesets, shape)) &&
      (forall i :: i in source1.supply ==> HasShape(i.rulesets, shape))
    }

    /** The individuals the sources handed out uncopied from positions g0 to e0 (source 0) and
        g1 to e1 (source 1): the only ones crossing rounds may change. A source that is not a
        BreedingPipeline, when the two sources differ, lends nothing, as its parents are copied. */
    ghost function Lent(g0: nat, e0: nat, g1: nat, e1: nat): set<Individual>
    {
      (if source0 != source1 && !source0.isPipeline then {} else Slice(source0.supply, g0, e0)) +
      (if source0 != source1 && !source1.isPipeline then {} else Slice(source1.supply, g1, e1))
    }

    /** An individual lent over one of two consecutive stretches is lent over both. */
    lemma LentSplit(i: Individual, g0: nat, m0: nat, e0: nat, g1: nat, m1: nat, e1: nat)
      requires g0 <= m0 <= e0 && g1 <= m1 <= e1
      ensures i in Lent(g0, e0, g1, e1) <==> i in Lent(g0, m0, g1, m1) || i in Lent(m0, e0, m1, e1)
    {
      SliceSplit(source0.supply, g0, m0, e0);
      SliceSplit(source1.supply, g1, m1, e1);
    }

    /** How this pipeline's crossing rounds draw their parents. */
    function Drawing(): Pairing
      reads this
    {
      Pairing(tossSecondParent, source0 == source1,
              source0 != source1 && !source0.isPipeline, source0 != source1 && !source1.isPipeline)
    }

    /** Parents cleared and refilled from the sources: two from one source when both are the
        same object (no copies), otherwise one from each, copied unless its source is a
        BreedingPipeline. */
    method FetchParents() returns (p0: Individual, p1: Individual)
      requires Supplies(1)
      modifies parents, source0, source1
      ensures parents.items == [p0, p1]
      ensures source0 == source1 ==> (source0.handed == old(source0.handed) + 2 &&
        p0 == source0.supply[old(source0.handed)] && p1 == source0.supply[old(source0.handed) + 1])
      ensures source0 != source1 ==>
        (source0.handed == old(source0.handed) + 1 && source1.handed == old(source1.handed) + 1)
      ensures source0 != source1 ==> if source0.isPipeline then p0 == source0.supply[old(source0.handed)]
        else fresh(p0) && Copies(p0, source0.supply[old(source0.handed)])
      ensures source0 != source1 ==> if source1.isPipeline then p1 == source1.supply[old(source1.handed)]
        else fresh(p1) && Copies(p1, source1.supply[old(source1.handed)])
      ensures old(allocated(p0)) ==> p0 in Lent(old(source0.handed), source0.handed, old(source1.handed), source1.handed)
      ensures old(allocated(p1)) ==> p1 in Lent(old(source0.handed), source0.handed, old(source1.handed), source1.handed)
    {
      parents.Clear();
      if source0 == source1 {
        source0.Produce(2, parents);
      } else {
        source0.Produce(1, parents);
        source1.Produce(1, parents);
        if !source0.isPipeline {
          var c := parents.items[0].Clone();
          parents.Set(0, c);
        }
        if !source1.isPipeline {
          var c := parents.items[1].Clone();
          parents.Set(1, c);
        }
      }
      p0 := parents.items[0];
      p1 := parents.items[1];
    }

    /** One round of the production loop: fetch two parents, cross them over and mark both
        unevaluated. `next` is the index of the first split attempt not yet used. When every
        individual on offer has rule sets of one shape, the rule-set counts always match, the
        shape is kept, a completed round leaves both parents' rule sets within their bounds,
        and no individual whose rule sets fit stops fitting. */
    method Breed(attempts: seq<SplitAttempt>, from: nat, ghost shape: seq<RuleSet>)
      returns (p0: Individual, p1: Individual, next: nat, outcome: Outcome)
      requires Supplies(1) && from <= |attempts|
      modifies parents, source0, source1, source0.supply, source1.supply
      ensures from <= next <= |attempts|
      ensures source0 == source1 ==> (source0.handed == old(source0.handed) + 2 &&
        p0 == source0.supply[old(source0.handed)] && p1 == source0.supply[old(source0.handed) + 1])
      ensures source0 != source1 ==>
        (source0.handed == old(source0.handed) + 1 && source1.handed == old(source1.handed) + 1)
      ensures source0 != source1 ==> if source0.isPipeline then p0 == source0.supply[old(source0.handed)] else fresh(p0)
      ensures source0 != source1 ==> if source1.isPipeline then p1 == source1.supply[old(source1.handed)] else fresh(p1)
      ensures outcome == Fatal <==> |p0.rulesets| != |p1.rulesets|
      ensures outcome != Fatal ==> !p0.evaluated && !p1.evaluated
      ensures outcome == Completed ==> forall x :: 0 <= x < |p0.rulesets| ==> Crossed(p0.rulesets[x], p1.rulesets[x])
      ensures forall i: Individual :: old(allocated(i)) && !old(i.evaluated) ==> !i.evaluated
      ensures old(UniformSupply(shape)) ==> outcome != Fatal && UniformSupply(shape)
      ensures old(UniformSupply(shape)) ==> HasShape(p0.rulesets, shape) && HasShape(p1.rulesets, shape)
      ensures old(UniformSupply(shape)) && outcome == Completed ==> RulesFit(p0) && RulesFit(p1)
      ensures old(UniformSupply(shape)) ==> forall i: Individual :: old(allocated(i)) && old(RulesFit(i)) ==> RulesFit(i)
      ensures forall i: Individual :: old(allocated(i)) && i != p0 && i != p1 ==> Kept(i)
      ensures old(allocated(p0)) ==> p0 in Lent(old(source0.handed), source0.handed, old(source1.handed), source1.handed)
      ensures old(allocated(p1)) ==> p1 in Lent(old(source0.handed), source0.handed, old(source1.handed), source1.handed)
    {
      p0, p1 := FetchParents();
      if old(UniformSupply(shape)) {
        assert HasShape(p0.rulesets, shape) && HasShape(p1.rulesets, shape);
      }
      next, outcome := Mate(p0, p1, attempts, from, shape);
    }

    /** One pass of the production loop with `slots` children still to make, after r rounds
        that made k children from the positions h0 and h1 the call started at: a crossing
        round, then the first parent appended and, while another slot remains and the second
        parent is not tossed, the second. `made` is the number of children appended; they are
        children k, k + 1, ... of the whole call. When every individual on offer has rule sets
        of the shape `shape`, the round is not fatal, the children it appends have rule sets
        within their bounds, and so do all that had them before. */
    method Round(inds: IndividualList, slots: int, attempts: seq<SplitAttempt>, from: nat,
                 ghost plan: Pairing, ghost r: nat, ghost k: nat, ghost h0: nat, ghost h1: nat,
                 ghost shape: seq<RuleSet>, ghost before: seq<Individual>)
      returns (made: nat, next: nat, outcome: Outcome, ghost added: seq<Individual>)
      requires inds != parents && 1 <= slots && Supplies(Rounds(slots, tossSecondParent)) && from <= |attempts|
      requires plan == Drawing() && k == (if tossSecondParent then r else 2 * r)
      requires source0.handed == h0 + (if source0 == source1 then 2 * r else r)
      requires source0 != source1 ==> source1.handed == h1 + r
      modifies inds, parents, source0, source1, source0.supply, source1.supply
      ensures from <= next <= |attempts| && tossSecondParent == old(tossSecondParent)
      ensures source0.handed == h0 + (if source0 == source1 then 2 * (r + 1) else r + 1)
      ensures source0 != source1 ==> source1.handed == h1 + r + 1
      ensures inds.items == old(inds.items) + added && made == |added|
      ensures made == if outcome == Completed then (if 2 <= slots && !tossSecondParent then 2 else 1) else 0
      ensures outcome == Completed ==> Supplies(Rounds(slots - made, tossSecondParent))
      ensures 1 <= |added| ==>
        Born(added[0], ChildOrigin(plan, k, source0.supply, h0, source1.supply, h1))
      ensures 2 == |added| ==>
        Born(added[1], ChildOrigin(plan, k + 1, source0.supply, h0, source1.supply, h1))
      ensures forall i: Individual :: old(allocated(i)) && !old(i.evaluated) ==> !i.evaluated
      ensures old(UniformSupply(shape)) ==> outcome != Fatal && UniformSupply(shape)
      ensures old(UniformSupply(shape)) && (forall j :: 0 <= j < |before| ==> old(RulesFit(before[j]))) ==>
        forall j :: 0 <= j < |before + added| ==> RulesFit((before + added)[j])
      ensures forall i: Individual ::
        old(allocated(i)) && i !in Lent(old(source0.handed), source0.handed, old(source1.handed), source1.handed) ==> Kept(i)
    {
      RoundsStep(slots, tossSecondParent);
      RoundChildOrigins(plan, slots, r, k, source0.supply, h0, source1.supply, h1, source0.handed, source1.handed);
      ghost var round := RoundChildren(plan, slots, source0.supply, source0.handed, source1.supply, source1.handed);
      var p0, p1;
      p0, p1, next, outcome := Breed(attempts, from, shape);
      made, added := 0, [];
      if outcome != Completed {
        return;
      }
      assert Born(p0, round[0]);
      inds.Add(p0);
      made, added := 1, [p0];
      if 2 <= slots && !tossSecondParent {
        assert Born(p1, round[1]);
        inds.Add(p1);
        made, added := 2, [p0, p1];
      }
    }

    /** Makes n children, n being the typical count clamped into [min, max]. When the
        likelihood draw `proceed` fails, the first source makes them; otherwise crossing rounds
        make them, as Offspring describes, until n are made or a round fails. When every
        individual the sources can hand out has rule sets of the shape `shape`, no round is
        fatal and every child a round appends has each rule set within its own bounds. */
    method Produce(min: int, max: int, inds: IndividualList, proceed: bool, attempts: seq<SplitAttempt>,
                   ghost shape: seq<RuleSet>)
      returns (n: int, outcome: Outcome)
      requires inds != parents
      requires !proceed ==> source0.handed + NonNegative(ProduceCount(TypicalIndsProduced(), min, max)) <= |source0.supply|
      requires proceed ==> Supplies(Rounds(ProduceCount(TypicalIndsProduced(), min, max), tossSecondParent))
      modifies inds, parents, source0, source1, source0.supply, source1.supply
      ensures n == ProduceCount(TypicalIndsProduced(), min, max)
      ensures !proceed ==> (outcome == Completed &&
        inds.items == old(inds.items) + source0.supply[old(source0.handed)..old(source0.handed) + NonNegative(n)])
      ensures |old(inds.items)| <= |inds.items| <= |old(inds.items)| + NonNegative(n)
      ensures inds.items[..|old(inds.items)|] == old(inds.items)
      ensures outcome == Completed ==> |inds.items| == |old(inds.items)| + NonNegative(n)
      ensures proceed ==> forall j :: |old(inds.items)| <= j < |inds.items| ==>
        Born(inds.items[j],
          ChildOrigin(Drawing(), j - |old(inds.items)|, source0.supply, old(source0.handed), source1.supply, old(source1.handed)))
      ensures old(UniformSupply(shape)) ==> outcome != Fatal
      ensures proceed && old(UniformSupply(shape)) ==>
        forall j :: |old(inds.items)| <= j < |inds.items| ==> RulesFit(inds.items[j])
      ensures !proceed ==> forall i: Individual :: old(allocated(i)) ==> Kept(i)
      ensures forall i: Individual ::
        old(allocated(i)) && i !in Lent(old(source0.handed), source0.handed, old(source1.handed), source1.handed) ==> Kept(i)
      ensures source0 != source1 && !source0.isPipeline && !source1.isPipeline ==>
        forall i: Individual :: old(allocated(i)) ==> Kept(i)
    {
      n := if tossSecondParent then 1 else 2;
      if n < min {
        n := min;
      }
      if n > max {
        n := max;
      }
      if !proceed {
        outcome := Completed;
        source0.Produce(NonNegative(n), inds);
      } else {
        ghost var children;
        outcome, children := Cross(NonNegative(n), inds, attempts, shape);
        if source0 != source1 && !source0.isPipeline && !source1.isPipeline {
          forall i: Individual | old(allocated(i))
            ensures Kept(i)
          {
            assert i !in Lent(old(source0.handed), source0.handed, old(source1.handed), source1.handed);
          }
        }
        forall j | |old(inds.items)| <= j < |inds.items|
          ensures inds.items[j] == children[j - |old(inds.items)|]
        {
        }
      }
    }

    /** The production loop: crossing rounds until n children are appended to `inds`, as
        Offspring describes, or until a round fails. When every individual on offer has rule
        sets of the shape `shape`, no round is fatal and every child appended has each rule set
        within its own bounds. */
    method Cross(n: nat, inds: IndividualList, attempts: seq<SplitAttempt>, ghost shape: seq<RuleSet>)
      returns (outcome: Outcome, ghost children: seq<Individual>)
      requires inds != parents && Supplies(Rounds(n, tossSecondParent))
      modifies inds, parents, source0, source1, source0.supply, source1.supply
      ensures tossSecondParent == old(tossSecondParent)
      ensures inds.items == old(inds.items) + children && |children| <= n
      ensures outcome == Completed ==> |children| == n
      ensures forall j :: 0 <= j < |children| ==>
        Born(children[j], ChildOrigin(Drawing(), j, source0.supply, old(source0.handed), source1.supply, old(source1.handed)))
      ensures old(UniformSupply(shape)) ==> outcome != Fatal
      ensures old(UniformSupply(shape)) ==> forall j :: 0 <= j < |children| ==> RulesFit(children[j])
      ensures forall i: Individual ::
        old(allocated(i)) && i !in Lent(old(source0.handed), source0.handed, old(source1.handed), source1.handed) ==> Kept(i)
    {
      var start := |inds.items|;
      var q, left := start, n;
      var cursor := 0;
      outcome := Completed;
      ghost var plan, h0, h1 := Drawing(), source0.handed, source1.handed;
      ghost var r: nat := 0;
      children := [];
      ghost var uniform := old(UniformSupply(shape));
      while q < n + start
        invariant q == start + |children| && left == n - |children| >= 0
        invariant inds.items == old(inds.items) + children
        invariant tossSecondParent == old(tossSecondParent) && cursor <= |attempts| && plan == Drawing()
        invariant Supplies(Rounds(left, tossSecondParent))
        invariant source0.handed == h0 + (if source0 == source1 then 2 * r else r)
        invariant source0 != source1 ==> source1.handed == h1 + r
        invariant q < start + n ==> |children| == if tossSecondParent then r else 2 * r
        invariant forall j :: 0 <= j < |children| ==>
          Born(children[j], ChildOrigin(plan, j, source0.supply, h0, source1.supply, h1))
        invariant uniform ==> outcome != Fatal && UniformSupply(shape)
        invariant uniform ==> forall j :: 0 <= j < |children| ==> RulesFit(children[j])
        invariant forall i: Individual ::
          old(allocated(i)) && i !in Lent(h0, source0.handed, h1, source1.handed) ==> Kept(i)
      {
        var made, oc;
        ghost var added;
        ghost var m0, m1 := source0.handed, source1.handed;
        made, cursor, oc, added := Round(inds, left, attempts, cursor, plan, r, |children|, h0, h1, shape, children);
        forall j | 0 <= j < |children + added|
          ensures Born((children + added)[j], ChildOrigin(plan, j, source0.supply, h0, source1.supply, h1))
        {
          if j == |children| {
            assert (children + added)[j] == added[0];
          } else if j > |children| {
            assert (children + added)[j] == added[1];
          }
        }
        forall i: Individual | old(allocated(i)) && i !in Lent(h0, source0.handed, h1, source1.handed)
          ensures Kept(i)
        {
          LentSplit(i, h0, m0, source0.handed, h1, m1, source1.handed);
        }
        AppendAssociates(old(inds.items), children, added);
        children := children + added;
        if oc != Completed {
          outcome := oc;
          break;
        }
        r := r + 1;
        q, left := q + made, left - made;
      }
    }

    /** A copy that shares the settings and sources but owns a new Parents list with the same
        individuals. */
    method Clone() returns (c: RuleCrossoverPipeline)
      ensures fresh(c) && fresh(c.parents)
      ensures c.parents.items == parents.items
      ensures c.tossSecondParent == tossSecondParent && c.ruleCrossProbability == ruleCrossProbability
      ensures c.source0 == source0 && c.source1 == source1
    {
      c := new RuleCrossoverPipeline(source0, source1);
      c.tossSecondParent := tossSecondParent;
      c.ruleCrossProbability := ruleCrossProbability;
      c.parents.items := parents.items;
    }
  }
}
