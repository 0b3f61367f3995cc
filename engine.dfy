/**
 * The generational loop of one run (`ga`): selection, crossover, elitist
 * replacement, mutation, re-evaluation and re-ranking, repeated `nofit` times.
 */
module Engine {
  import opened F64
  import opened Individuals
  import opened Population
  import opened Reproduction

  /** How one run ends: with its best individual, or with a Rust panic. */
  datatype Outcome = Done(best: Individual) | Panic

  /**
   * The random draws one generation consumes: two selection draws per parent
   * pair (pair c uses entries 2c and 2c+1), and for each individual the roll
   * against `mut_rat` and the draws `mutate` would use.
   */
  datatype GenerationDraws = GenerationDraws(
    selections: seq<SelectionDraw>,
    mutationRolls: seq<real>,
    mutations: seq<MutationDraw>)

  predicate ValidGenerationDraws(d: GenerationDraws, popSize: nat) {
    && |d.selections| == 2 * (popSize / 2)
    && (forall i :: 0 <= i < |d.selections| ==> ValidSelectionDraw(d.selections[i], popSize))
    && |d.mutationRolls| == popSize
    && (forall i :: 0 <= i < popSize ==> 0.0 <= d.mutationRolls[i] < 1.0)
    && |d.mutations| == popSize
    && (forall i :: 0 <= i < popSize ==> ValidMutationDraw(d.mutations[i]))
  }

  // ------------------------------------------------------------ replacement

  function Reversed(s: seq<Individual>): (r: seq<Individual>)
    ensures |r| == |s|
  {
    seq(|s|, i requires 0 <= i < |s| => s[|s| - 1 - i])
  }

  /** Reversing twice gives back the original order. */
  lemma ReversedTwice(s: seq<Individual>)
    ensures Reversed(Reversed(s)) == s
  {
  }

  /** `pop.reverse()`. */
  method ReverseInPlace(a: array<Individual>)
    modifies a
    ensures a[..] == Reversed(old(a[..]))
  {
    var lo, hi := 0, a.Length;
    while lo + 1 < hi
      invariant 0 <= lo <= hi <= a.Length && lo + hi == a.Length
      invariant forall k :: (0 <= k < lo || hi <= k < a.Length) ==> a[k] == old(a[a.Length - 1 - k])
      invariant forall k :: lo <= k < hi ==> a[k] == old(a[k])
    {
      a[lo], a[hi - 1] := a[hi - 1], a[lo];
      lo, hi := lo + 1, hi - 1;
    }
  }

  /** `pop.splice(0..children.len(), children)`: the first |children| slots are overwritten. */
  method SpliceFront(a: array<Individual>, children: seq<Individual>)
    requires |children| <= a.Length
    modifies a
    ensures a[..] == children + old(a[..])[|children|..]
  {
    var i := 0;
    while i < |children|
      invariant 0 <= i <= |children|
      invariant a[..i] == children[..i]
      invariant a[i..] == old(a[..])[i..]
    {
      a[i] := children[i];
      i := i + 1;
      assert a[..i] == a[..i - 1] + [a[i - 1]];
      assert children[..i] == children[..i - 1] + [children[i - 1]];
    }
    assert a[..] == a[..i] + a[i..];
  }

  /** The population after `pop.reverse(); pop.splice(0..k, children); pop.reverse()`. */
  function Replaced(s: seq<Individual>, children: seq<Individual>): (r: seq<Individual>)
    requires |children| <= |s|
  {
    Reversed(children + Reversed(s)[|children|..])
  }

  /**
   * With no children, as when `pop_size < 2` leaves no parent pairs, the two
   * reversals cancel and the population is unchanged.
   */
  lemma NoChildrenKeepsPopulation(s: seq<Individual>)
    ensures Replaced(s, []) == s
  {
    assert [] + Reversed(s)[0..] == Reversed(s);
    ReversedTwice(s);
  }

  /**
   * Replacement keeps the length, keeps the first |s| - k individuals at their
   * indices, and puts the k children at the tail in reverse order.
   */
  lemma ReplacementEffects(s: seq<Individual>, children: seq<Individual>)
    requires |children| <= |s|
    ensures |Replaced(s, children)| == |s|
    ensures forall i :: 0 <= i < |s| - |children| ==> Replaced(s, children)[i] == s[i]
    ensures forall c :: 0 <= c < |children| ==> Replaced(s, children)[|s| - 1 - c] == children[c]
  {
    var n, k := |s|, |children|;
    var r := Replaced(s, children);
    var t := children + Reversed(s)[k..];
    forall i | 0 <= i < n - k
      ensures r[i] == s[i]
    {
      assert r[i] == t[n - 1 - i];
      assert t[n - 1 - i] == Reversed(s)[n - 1 - i];
    }
    forall c | 0 <= c < k
      ensures r[n - 1 - c] == children[c]
    {
      assert r[n - 1 - c] == t[c];
    }
  }

  /**
   * On a ranked population the replacement is elitist: every individual that
   * stays is at least as fit as every one that is replaced.
   */
  lemma ReplacementIsElitist(s: seq<Individual>, children: seq<Individual>)
    requires |children| <= |s| && SortedDesc(s)
    ensures forall i, j :: 0 <= i < |s| - |children| <= j < |s| ==>
      Le(s[j].fitness, Replaced(s, children)[i].fitness)
  {
    ReplacementEffects(s, children);
  }

  // -------------------------------------------------- selection and mating

  /** The `pop_size / 2` parent pairs of one generation, as indices into the population. */
  method SelectParents(pop: array<Individual>, sum: Float, draws: seq<SelectionDraw>, pairs: nat)
    returns (parents: seq<(nat, nat)>)
    requires |draws| == 2 * pairs
    requires forall i :: 0 <= i < |draws| ==> ValidSelectionDraw(draws[i], pop.Length)
    ensures |parents| == pairs
    ensures forall c :: 0 <= c < pairs ==>
      && parents[c].0 < pop.Length && parents[c].1 < pop.Length
      && parents[c] == (Selected(pop[..], sum, draws[2 * c]), Selected(pop[..], sum, draws[2 * c + 1]))
  {
    parents := [];
    while |parents| < pairs
      invariant |parents| <= pairs
      invariant forall c :: 0 <= c < |parents| ==>
        && parents[c].0 < pop.Length && parents[c].1 < pop.Length
        && parents[c] == (Selected(pop[..], sum, draws[2 * c]), Selected(pop[..], sum, draws[2 * c + 1]))
    {
      var c := |parents|;
      var first := Select(pop, sum, draws[2 * c]);
      var second := Select(pop, sum, draws[2 * c + 1]);
      parents := parents + [(first, second)];
    }
  }

  /** Every parent pair has valid indices into a population of `popSize`. */
  predicate PairsWithin(parents: seq<(nat, nat)>, popSize: nat) {
    forall c :: 0 <= c < |parents| ==> parents[c].0 < popSize && parents[c].1 < popSize
  }

  /** Every individual has at least `n` genes. */
  predicate ChromosomesAtLeast(s: seq<Individual>, n: nat) {
    forall i :: 0 <= i < |s| ==> n <= |s[i].chromosome|
  }

  /**
   * The children of one generation, child c from parent pair c: unevaluated,
   * with `chromosomeSize` genes, each in range or NaN when min_val <= max_val.
   */
  function Offspring(s: seq<Individual>, parents: seq<(nat, nat)>, chromosomeSize: nat, lo: Bits, hi: Bits)
    : (children: seq<Individual>)
    requires PairsWithin(parents, |s|) && ChromosomesAtLeast(s, chromosomeSize)
    ensures |children| == |parents|
    ensures forall c :: 0 <= c < |parents| ==>
      |children[c].chromosome| == chromosomeSize && children[c].fitness == Zero
    ensures Le(Value(lo), Value(hi)) ==>
      forall c :: 0 <= c < |parents| ==> GenesWithinOrNaN(children[c].chromosome, lo, hi)
  {
    var children := seq(|parents|, c requires 0 <= c < |parents| =>
      Crossover(s[parents[c].0], s[parents[c].1], chromosomeSize, lo, hi));
    assert Le(Value(lo), Value(hi)) ==>
      forall c :: 0 <= c < |parents| ==> GenesWithinOrNaN(children[c].chromosome, lo, hi)
    by {
      forall c | 0 <= c < |parents| && Le(Value(lo), Value(hi))
        ensures GenesWithinOrNaN(children[c].chromosome, lo, hi)
      {
        CrossoverKeepsGenesWithinOrNaN(s[parents[c].0], s[parents[c].1], chromosomeSize, lo, hi);
      }
    }
    children
  }

  // --------------------------------------------------------------- mutation

  /** The population after the mutation pass: individual j is mutated when its roll is below `mutRat`. */
  function MutatedPopulation(s: seq<Individual>, d: GenerationDraws, mutRat: real, lo: Bits, hi: Bits)
    : (r: seq<Individual>)
    requires ValidGenerationDraws(d, |s|)
  {
    seq(|s|, j requires 0 <= j < |s| =>
      if d.mutationRolls[j] < mutRat then Mutation(s[j], d.mutations[j].bit, lo, hi) else s[j])
  }

  /** The mutation pass: each individual rolls against `mut_rat` and is mutated in place if the roll is below it. */
  method MutationPass(pop: array<Individual>, d: GenerationDraws, mutRat: real, lo: Bits, hi: Bits)
    requires ValidGenerationDraws(d, pop.Length)
    modifies pop
    ensures pop[..] == MutatedPopulation(old(pop[..]), d, mutRat, lo, hi)
  {
    ghost var target := MutatedPopulation(old(pop[..]), d, mutRat, lo, hi);
    var j := 0;
    while j < pop.Length
      invariant 0 <= j <= pop.Length
      invariant pop[..j] == target[..j]
      invariant pop[j..] == old(pop[j..])
    {
      ghost var before := pop[..];
      assert pop[j] == old(pop[..])[j];
      if d.mutationRolls[j] < mutRat {
        pop[j] := Mutate(pop[j], d.mutations[j], lo, hi);
      }
      assert pop[j] == target[j];
      assert pop[..j + 1] == before[..j] + [target[j]];
      j := j + 1;
    }
    assert pop[..] == pop[..pop.Length];
  }

  // ------------------------------------------------------------- generation

  /** An individual of the run: the right number of genes, each in range or a NaN. */
  ghost predicate Shaped(ind: Individual, chromosomeSize: nat, lo: Bits, hi: Bits) {
    |ind.chromosome| == chromosomeSize && GenesWithinOrNaN(ind.chromosome, lo, hi)
  }

  /** The per-individual invariant of a run: shaped, with its fitness current. */
  ghost predicate MemberOk(ind: Individual, chromosomeSize: nat, lo: Bits, hi: Bits, fitness: seq<Bits> -> Float) {
    Shaped(ind, chromosomeSize, lo, hi) && ind.fitness == fitness(ind.chromosome)
  }

  /** The state of the population at the start and end of each generation. */
  ghost predicate Healthy(s: seq<Individual>, chromosomeSize: nat, lo: Bits, hi: Bits, fitness: seq<Bits> -> Float) {
    && (forall i :: 0 <= i < |s| ==> MemberOk(s[i], chromosomeSize, lo, hi, fitness))
    && SortedDesc(s)
  }

  /** The population one generation produces before it is ranked. */
  ghost function Unranked(
    s: seq<Individual>, parents: seq<(nat, nat)>, chromosomeSize: nat, lo: Bits, hi: Bits,
    mutRat: real, fitness: seq<Bits> -> Float, d: GenerationDraws): seq<Individual>
    requires PairsWithin(parents, |s|) && ChromosomesAtLeast(s, chromosomeSize)
    requires |parents| <= |s| && ValidGenerationDraws(d, |s|)
  {
    var replaced := Replaced(s, Offspring(s, parents, chromosomeSize, lo, hi));
    Evaluated(MutatedPopulation(replaced, d, mutRat, lo, hi), fitness)
  }

  /** Every member of a permutation of `s` satisfies what every member of `s` does. */
  lemma PermutationKeepsMembers(t: seq<Individual>, s: seq<Individual>, chromosomeSize: nat, lo: Bits, hi: Bits, fitness: seq<Bits> -> Float)
    requires multiset(t) == multiset(s)
    requires forall i :: 0 <= i < |s| ==> MemberOk(s[i], chromosomeSize, lo, hi, fitness)
    ensures forall i :: 0 <= i < |t| ==> MemberOk(t[i], chromosomeSize, lo, hi, fitness)
  {
    forall i | 0 <= i < |t|
      ensures MemberOk(t[i], chromosomeSize, lo, hi, fitness)
    {
      assert t[i] in multiset(s);
      var k :| 0 <= k < |s| && s[k] == t[i];
    }
  }

  /** Replacing with shaped children keeps every individual shaped. */
  lemma ReplacedShaped(s: seq<Individual>, children: seq<Individual>, chromosomeSize: nat, lo: Bits, hi: Bits)
    requires |children| <= |s|
    requires forall i :: 0 <= i < |s| ==> Shaped(s[i], chromosomeSize, lo, hi)
    requires forall c :: 0 <= c < |children| ==> Shaped(children[c], chromosomeSize, lo, hi)
    ensures forall i :: 0 <= i < |s| ==> Shaped(Replaced(s, children)[i], chromosomeSize, lo, hi)
  {
    var r := Replaced(s, children);
    ReplacementEffects(s, children);
    forall i | 0 <= i < |s|
      ensures Shaped(r[i], chromosomeSize, lo, hi)
    {
      if i >= |s| - |children| {
        var c := |s| - 1 - i;
        assert r[|s| - 1 - c] == children[c];
      }
    }
  }

  /** The mutation pass keeps every individual shaped. */
  lemma MutatedShaped(s: seq<Individual>, d: GenerationDraws, mutRat: real, chromosomeSize: nat, lo: Bits, hi: Bits)
    requires ValidGenerationDraws(d, |s|)
    requires forall i :: 0 <= i < |s| ==> Shaped(s[i], chromosomeSize, lo, hi)
    requires chromosomeSize > 0 && |s| > 0 ==> Le(Value(lo), Value(hi))
    ensures forall i :: 0 <= i < |s| ==> Shaped(MutatedPopulation(s, d, mutRat, lo, hi)[i], chromosomeSize, lo, hi)
  {
    forall i | 0 <= i < |s|
      ensures Shaped(MutatedPopulation(s, d, mutRat, lo, hi)[i], chromosomeSize, lo, hi)
    {
      if d.mutationRolls[i] < mutRat {
        MutationFacts(s[i], d.mutations[i].bit, lo, hi);
      }
    }
  }

  /** Every member of the unranked next population satisfies the run invariant. */
  lemma UnrankedMembersOk(
    s: seq<Individual>, parents: seq<(nat, nat)>, chromosomeSize: nat, lo: Bits, hi: Bits,
    mutRat: real, fitness: seq<Bits> -> Float, d: GenerationDraws)
    requires forall i :: 0 <= i < |s| ==> MemberOk(s[i], chromosomeSize, lo, hi, fitness)
    requires PairsWithin(parents, |s|) && |parents| <= |s| && ValidGenerationDraws(d, |s|)
    requires chromosomeSize > 0 && |s| > 0 ==> Le(Value(lo), Value(hi))
    ensures ChromosomesAtLeast(s, chromosomeSize)
    ensures forall i :: 0 <= i < |s| ==>
      MemberOk(Unranked(s, parents, chromosomeSize, lo, hi, mutRat, fitness, d)[i], chromosomeSize, lo, hi, fitness)
  {
    var children := Offspring(s, parents, chromosomeSize, lo, hi);
    ReplacedShaped(s, children, chromosomeSize, lo, hi);
    var replaced := Replaced(s, children);
    MutatedShaped(replaced, d, mutRat, chromosomeSize, lo, hi);
    EvaluatedFacts(MutatedPopulation(replaced, d, mutRat, lo, hi), fitness);
  }

  /**
   * Lines 105-172 of one generation, up to the final ranking. Panics when the
   * re-ranking meets a NaN fitness; otherwise the population is a stable
   * ranking of the evaluated, mutated, replaced population and keeps the run
   * invariant.
   */
  method RunGeneration(
    pop: array<Individual>, chromosomeSize: nat, lo: Bits, hi: Bits, mutRat: real,
    fitness: seq<Bits> -> Float, d: GenerationDraws)
    returns (panicked: bool, parents: seq<(nat, nat)>)
    requires Healthy(pop[..], chromosomeSize, lo, hi, fitness)
    requires ValidGenerationDraws(d, pop.Length)
    requires chromosomeSize > 0 && pop.Length > 0 ==> Le(Value(lo), Value(hi))
    modifies pop
    ensures |parents| == pop.Length / 2
    ensures forall c :: 0 <= c < |parents| ==>
      parents[c] == (Selected(old(pop[..]), TotalFitness(old(pop[..])), d.selections[2 * c]),
                     Selected(old(pop[..]), TotalFitness(old(pop[..])), d.selections[2 * c + 1]))
    ensures PairsWithin(parents, pop.Length) && ChromosomesAtLeast(old(pop[..]), chromosomeSize)
    ensures panicked <==> RankPanics(Unranked(old(pop[..]), parents, chromosomeSize, lo, hi, mutRat, fitness, d))
    ensures NeverNaN(fitness) ==> !panicked
    ensures panicked ==> pop[..] == Unranked(old(pop[..]), parents, chromosomeSize, lo, hi, mutRat, fitness, d)
    ensures !panicked ==>
      && StablePermutation(pop[..], Unranked(old(pop[..]), parents, chromosomeSize, lo, hi, mutRat, fitness, d))
      && Healthy(pop[..], chromosomeSize, lo, hi, fitness)
  {
    ghost var s := pop[..];
    var sum := TotalFitness(pop[..]);
    parents := SelectParents(pop, sum, d.selections, pop.Length / 2);
    UnrankedMembersOk(s, parents, chromosomeSize, lo, hi, mutRat, fitness, d);
    var children := Offspring(pop[..], parents, chromosomeSize, lo, hi);
    ReverseInPlace(pop);
    SpliceFront(pop, children);
    ReverseInPlace(pop);
    assert pop[..] == Replaced(s, children);
    MutationPass(pop, d, mutRat, lo, hi);
    Evaluate(pop, fitness);
    assert pop[..] == Unranked(s, parents, chromosomeSize, lo, hi, mutRat, fitness, d);
    if NeverNaN(fitness) {
      EvaluatedNeverPanics(MutatedPopulation(Replaced(s, children), d, mutRat, lo, hi), fitness);
    }
    if RankPanics(pop[..]) {
      return true, parents;
    }
    ghost var unranked := pop[..];
    Rank(pop);
    PermutationKeepsMembers(pop[..], unranked, chromosomeSize, lo, hi, fitness);
    panicked := false;
  }

  // -------------------------------------------------------------------- ga

  /** Every gene of the initial population was drawn from [min_val, max_val). */
  predicate InitialDrawsInRange(initial: seq<seq<Bits>>, lo: Bits, hi: Bits) {
    forall i, j :: 0 <= i < |initial| && 0 <= j < |initial[i]| ==> InHalfOpen(initial[i][j], lo, hi)
  }

  /** `gen_range(min_val..max_val)` would be asked for a gene from an empty range, and panic. */
  predicate EmptyRange(popSize: nat, chromosomeSize: nat, lo: Bits, hi: Bits) {
    popSize > 0 && chromosomeSize > 0 && !Lt(Value(lo), Value(hi))
  }

  /** The first population once evaluated, before it is ranked. */
  ghost function FirstEvaluated(
    chromosomeSize: nat, lo: Bits, hi: Bits, popSize: nat,
    fitness: seq<Bits> -> Float, initial: seq<seq<Bits>>): seq<Individual>
    requires |initial| == popSize
    requires forall i :: 0 <= i < popSize ==> |initial[i]| == chromosomeSize
    requires InitialDrawsInRange(initial, lo, hi)
  {
    Evaluated(GenPop(popSize, chromosomeSize, lo, hi, initial), fitness)
  }

  /** `t` is what `rank` makes of `s`: sorted by fitness, equal fitnesses in their order in `s`. */
  ghost predicate RankedFrom(t: seq<Individual>, s: seq<Individual>) {
    SortedDesc(t) && StablePermutation(t, s)
  }

  /** A stable ranking is unique: `rank` leaves one possible order. */
  lemma RankingIsUnique(t: seq<Individual>, u: seq<Individual>, s: seq<Individual>)
    requires RankedFrom(t, s) && RankedFrom(u, s)
    ensures t == u
  {
    SameTiesSameOrder(t, u);
  }

  /** `parents` are the `pop_size / 2` pairs `select` picks from `s` with the draws of `d`. */
  predicate ChosenParents(s: seq<Individual>, parents: seq<(nat, nat)>, d: GenerationDraws)
    requires ValidGenerationDraws(d, |s|)
  {
    && |parents| == |s| / 2
    && PairsWithin(parents, |s|)
    && forall c :: 0 <= c < |parents| ==>
      parents[c] == (Selected(s, TotalFitness(s), d.selections[2 * c]),
                     Selected(s, TotalFitness(s), d.selections[2 * c + 1]))
  }

  /** A generation from `s` that chooses `parents`, ranks without a panic and leaves `t`. */
  ghost predicate Step(
    s: seq<Individual>, parents: seq<(nat, nat)>, t: seq<Individual>, chromosomeSize: nat, lo: Bits, hi: Bits,
    mutRat: real, fitness: seq<Bits> -> Float, d: GenerationDraws)
    requires ValidGenerationDraws(d, |s|)
  {
    && ChosenParents(s, parents, d)
    && ChromosomesAtLeast(s, chromosomeSize)
    && !RankPanics(Unranked(s, parents, chromosomeSize, lo, hi, mutRat, fitness, d))
    && RankedFrom(t, Unranked(s, parents, chromosomeSize, lo, hi, mutRat, fitness, d))
  }

  /** A generation from `s` that chooses `parents` and panics when it ranks. */
  ghost predicate StepPanics(
    s: seq<Individual>, parents: seq<(nat, nat)>, chromosomeSize: nat, lo: Bits, hi: Bits,
    mutRat: real, fitness: seq<Bits> -> Float, d: GenerationDraws)
    requires ValidGenerationDraws(d, |s|)
  {
    && ChosenParents(s, parents, d)
    && ChromosomesAtLeast(s, chromosomeSize)
    && RankPanics(Unranked(s, parents, chromosomeSize, lo, hi, mutRat, fitness, d))
  }

  /**
   * A run so far: `history[0]` is the first ranked population and each
   * `history[g + 1]` is what generation g made of `history[g]`, choosing
   * `parentsLog[g]`; none of these rankings panicked.
   */
  ghost predicate Trace(
    history: seq<seq<Individual>>, parentsLog: seq<seq<(nat, nat)>>,
    chromosomeSize: nat, lo: Bits, hi: Bits, mutRat: real, popSize: nat,
    fitness: seq<Bits> -> Float, initial: seq<seq<Bits>>, generations: seq<GenerationDraws>)
    requires |initial| == popSize
    requires forall i :: 0 <= i < popSize ==> |initial[i]| == chromosomeSize
    requires forall g :: 0 <= g < |generations| ==> ValidGenerationDraws(generations[g], popSize)
  {
    && InitialDrawsInRange(initial, lo, hi)
    && !RankPanics(FirstEvaluated(chromosomeSize, lo, hi, popSize, fitness, initial))
    && 1 <= |history| <= |generations| + 1
    && |history| - 1 <= |parentsLog| <= |history|
    && |parentsLog| <= |generations|
    && RankedFrom(history[0], FirstEvaluated(chromosomeSize, lo, hi, popSize, fitness, initial))
    && (forall g :: 0 <= g < |history| ==> |history[g]| == popSize)
    && (forall g :: 0 <= g < |history| - 1 ==>
          Step(history[g], parentsLog[g], history[g + 1], chromosomeSize, lo, hi, mutRat, fitness, generations[g]))
  }

  /**
   * A run that stops in a generation: its ranking panics, or the population is
   * empty when `pop[0]` is read after the first generation.
   */
  ghost predicate GenerationPanicked(
    history: seq<seq<Individual>>, parentsLog: seq<seq<(nat, nat)>>,
    chromosomeSize: nat, lo: Bits, hi: Bits, mutRat: real, popSize: nat, nofit: int,
    fitness: seq<Bits> -> Float, initial: seq<seq<Bits>>, generations: seq<GenerationDraws>)
    requires |initial| == popSize
    requires forall i :: 0 <= i < popSize ==> |initial[i]| == chromosomeSize
    requires forall g :: 0 <= g < |generations| ==> ValidGenerationDraws(generations[g], popSize)
  {
    && Trace(history, parentsLog, chromosomeSize, lo, hi, mutRat, popSize, fitness, initial, generations)
    && (|| (&& |parentsLog| == |history| <= |generations|
            && StepPanics(history[|history| - 1], parentsLog[|history| - 1],
                          chromosomeSize, lo, hi, mutRat, fitness, generations[|history| - 1]))
        || (popSize == 0 && nofit > 0 && |history| == 2))
  }

  /** A generation whose ranking panics ends the run, with its parents recorded. */
  lemma RankingPanicEndsRun(
    history: seq<seq<Individual>>, parentsLog: seq<seq<(nat, nat)>>, parents: seq<(nat, nat)>,
    chromosomeSize: nat, lo: Bits, hi: Bits, mutRat: real, popSize: nat, nofit: int,
    fitness: seq<Bits> -> Float, initial: seq<seq<Bits>>, generations: seq<GenerationDraws>)
    requires |initial| == popSize
    requires forall i :: 0 <= i < popSize ==> |initial[i]| == chromosomeSize
    requires forall g :: 0 <= g < |generations| ==> ValidGenerationDraws(generations[g], popSize)
    requires Trace(history, parentsLog, chromosomeSize, lo, hi, mutRat, popSize, fitness, initial, generations)
    requires |parentsLog| == |history| - 1 && |history| <= |generations|
    requires StepPanics(history[|history| - 1], parents, chromosomeSize, lo, hi, mutRat, fitness, generations[|history| - 1])
    ensures GenerationPanicked(history, parentsLog + [parents],
      chromosomeSize, lo, hi, mutRat, popSize, nofit, fitness, initial, generations)
  {
    var p := parentsLog + [parents];
    forall g | 0 <= g < |history| - 1
      ensures Step(history[g], p[g], history[g + 1], chromosomeSize, lo, hi, mutRat, fitness, generations[g])
    {
      assert p[g] == parentsLog[g];
    }
    assert p[|history| - 1] == parents;
  }

  /** Reading `pop[0]` from an empty population after the first generation ends the run. */
  lemma EmptyPopulationEndsRun(
    history: seq<seq<Individual>>, parentsLog: seq<seq<(nat, nat)>>,
    chromosomeSize: nat, lo: Bits, hi: Bits, mutRat: real, popSize: nat, nofit: int,
    fitness: seq<Bits> -> Float, initial: seq<seq<Bits>>, generations: seq<GenerationDraws>)
    requires |initial| == popSize
    requires forall i :: 0 <= i < popSize ==> |initial[i]| == chromosomeSize
    requires forall g :: 0 <= g < |generations| ==> ValidGenerationDraws(generations[g], popSize)
    requires Trace(history, parentsLog, chromosomeSize, lo, hi, mutRat, popSize, fitness, initial, generations)
    requires popSize == 0 && nofit > 0 && |history| == 2
    ensures GenerationPanicked(history, parentsLog,
      chromosomeSize, lo, hi, mutRat, popSize, nofit, fitness, initial, generations)
  {
  }

  /** A completed generation extends a run by one population. */
  lemma TraceExtends(
    history: seq<seq<Individual>>, parentsLog: seq<seq<(nat, nat)>>, parents: seq<(nat, nat)>, t: seq<Individual>,
    chromosomeSize: nat, lo: Bits, hi: Bits, mutRat: real, popSize: nat,
    fitness: seq<Bits> -> Float, initial: seq<seq<Bits>>, generations: seq<GenerationDraws>)
    requires |initial| == popSize
    requires forall i :: 0 <= i < popSize ==> |initial[i]| == chromosomeSize
    requires forall g :: 0 <= g < |generations| ==> ValidGenerationDraws(generations[g], popSize)
    requires Trace(history, parentsLog, chromosomeSize, lo, hi, mutRat, popSize, fitness, initial, generations)
    requires |parentsLog| == |history| - 1 && |history| <= |generations| && |t| == popSize
    requires Step(history[|history| - 1], parents, t, chromosomeSize, lo, hi, mutRat, fitness, generations[|history| - 1])
    ensures Trace(history + [t], parentsLog + [parents], chromosomeSize, lo, hi, mutRat, popSize, fitness, initial, generations)
  {
    var h, p := history + [t], parentsLog + [parents];
    forall g | 0 <= g < |h| - 1
      ensures Step(h[g], p[g], h[g + 1], chromosomeSize, lo, hi, mutRat, fitness, generations[g])
    {
      if g < |history| - 1 {
        assert h[g] == history[g] && p[g] == parentsLog[g] && h[g + 1] == history[g + 1];
      } else {
        assert h[g] == history[|history| - 1] && p[g] == parents && h[g + 1] == t;
      }
    }
  }

  /**
   * Lines 89-95: generate, evaluate and rank the first population. Panics when
   * the ranking meets a NaN fitness.
   */
  method Initialise(
    chromosomeSize: nat, lo: Bits, hi: Bits, popSize: nat,
    fitness: seq<Bits> -> Float, initial: seq<seq<Bits>>)
    returns (pop: array<Individual>, panicked: bool)
    requires |initial| == popSize
    requires forall i :: 0 <= i < popSize ==> |initial[i]| == chromosomeSize
    requires forall i, j :: 0 <= i < popSize && 0 <= j < |initial[i]| ==> InHalfOpen(initial[i][j], lo, hi)
    ensures fresh(pop) && pop.Length == popSize
    ensures panicked <==> RankPanics(Evaluated(GenPop(popSize, chromosomeSize, lo, hi, initial), fitness))
    ensures NeverNaN(fitness) ==> !panicked
    ensures !panicked ==>
      && StablePermutation(pop[..], Evaluated(GenPop(popSize, chromosomeSize, lo, hi, initial), fitness))
      && Healthy(pop[..], chromosomeSize, lo, hi, fitness)
  {
    var generated := GenPop(popSize, chromosomeSize, lo, hi, initial);
    pop := new Individual[popSize](i requires 0 <= i < popSize => generated[i]);
    assert pop[..] == generated;
    Evaluate(pop, fitness);
    if NeverNaN(fitness) {
      EvaluatedNeverPanics(generated, fitness);
    }
    if RankPanics(pop[..]) {
      return pop, true;
    }
    ghost var unranked := pop[..];
    assert forall i :: 0 <= i < popSize ==> MemberOk(unranked[i], chromosomeSize, lo, hi, fitness);
    Rank(pop);
    PermutationKeepsMembers(pop[..], unranked, chromosomeSize, lo, hi, fitness);
    panicked := false;
  }

  /**
   * A run is a function of its draws: two traces from the same inputs agree
   * on their first n + 1 populations and on the parents of their first n
   * generations.
   */
  lemma {:induction false} TracesAgree(
    history: seq<seq<Individual>>, parentsLog: seq<seq<(nat, nat)>>,
    history2: seq<seq<Individual>>, parentsLog2: seq<seq<(nat, nat)>>, n: nat,
    chromosomeSize: nat, lo: Bits, hi: Bits, mutRat: real, popSize: nat,
    fitness: seq<Bits> -> Float, initial: seq<seq<Bits>>, generations: seq<GenerationDraws>)
    requires |initial| == popSize
    requires forall i :: 0 <= i < popSize ==> |initial[i]| == chromosomeSize
    requires forall g :: 0 <= g < |generations| ==> ValidGenerationDraws(generations[g], popSize)
    requires Trace(history, parentsLog, chromosomeSize, lo, hi, mutRat, popSize, fitness, initial, generations)
    requires Trace(history2, parentsLog2, chromosomeSize, lo, hi, mutRat, popSize, fitness, initial, generations)
    requires n < |history| && n < |history2|
    ensures history[..n + 1] == history2[..n + 1] && parentsLog[..n] == parentsLog2[..n]
  {
    if n == 0 {
      RankingIsUnique(history[0], history2[0], FirstEvaluated(chromosomeSize, lo, hi, popSize, fitness, initial));
    } else {
      TracesAgree(history, parentsLog, history2, parentsLog2, n - 1,
        chromosomeSize, lo, hi, mutRat, popSize, fitness, initial, generations);
      var g := n - 1;
      var s, d := history[g], generations[g];
      assert history2[g] == s by {
        assert history[..n][g] == history2[..n][g];
      }
      assert Step(s, parentsLog[g], history[n], chromosomeSize, lo, hi, mutRat, fitness, d);
      assert Step(s, parentsLog2[g], history2[n], chromosomeSize, lo, hi, mutRat, fitness, d);
      assert parentsLog[g] == parentsLog2[g];
      RankingIsUnique(history[n], history2[n], Unranked(s, parentsLog[g], chromosomeSize, lo, hi, mutRat, fitness, d));
      assert history[..n + 1] == history[..n] + [history[n]];
      assert history2[..n + 1] == history2[..n] + [history2[n]];
      assert parentsLog[..n] == parentsLog[..g] + [parentsLog[g]];
      assert parentsLog2[..n] == parentsLog2[..g] + [parentsLog2[g]];
    }
  }

  /**
   * `ga`: generate, evaluate and rank a population, then run `nofit`
   * generations, recording `pop[0]` after each. `history` holds the ranked
   * population after the first ranking and after every completed generation,
   * `parentsLog` the parent pairs each generation chose.
   *
   * With `nofit <= 0` the result is the empty individual with fitness 0.0;
   * otherwise it is the top of the last population in `history`, which is the
   * ranking of what the last generation produced. A run panics only when
   * `gen_range` is asked for a gene from an empty range, when a ranking of two
   * or more individuals meets a NaN fitness, or when `pop[0]` is read from an
   * empty population.
   */
  method GA(
    chromosomeSize: nat, lo: Bits, hi: Bits, mutRat: real, popSize: nat, nofit: int,
    fitness: seq<Bits> -> Float, initial: seq<seq<Bits>>, generations: seq<GenerationDraws>)
    returns (outcome: Outcome, ghost history: seq<seq<Individual>>, ghost parentsLog: seq<seq<(nat, nat)>>)
    requires |initial| == popSize
    requires forall i :: 0 <= i < popSize ==> |initial[i]| == chromosomeSize
    requires Lt(Value(lo), Value(hi)) ==> InitialDrawsInRange(initial, lo, hi)
    requires |generations| == if nofit > 0 then nofit else 0
    requires forall g :: 0 <= g < |generations| ==> ValidGenerationDraws(generations[g], popSize)
    ensures EmptyRange(popSize, chromosomeSize, lo, hi) ==> outcome == Panic
    ensures && (popSize > 0 || nofit <= 0)
            && !EmptyRange(popSize, chromosomeSize, lo, hi)
            && (popSize < 2 || NeverNaN(fitness))
            ==> outcome.Done?
    ensures outcome.Panic? ==>
      || EmptyRange(popSize, chromosomeSize, lo, hi)
      || (&& InitialDrawsInRange(initial, lo, hi)
          && RankPanics(FirstEvaluated(chromosomeSize, lo, hi, popSize, fitness, initial)))
      || GenerationPanicked(history, parentsLog, chromosomeSize, lo, hi, mutRat, popSize, nofit, fitness, initial, generations)
    ensures outcome.Done? ==>
      && !EmptyRange(popSize, chromosomeSize, lo, hi)
      && Trace(history, parentsLog, chromosomeSize, lo, hi, mutRat, popSize, fitness, initial, generations)
      && |history| == |generations| + 1 && |parentsLog| == |generations|
      && (nofit <= 0 ==> outcome.best == Empty)
    ensures outcome.Done? && nofit > 0 ==>
      && popSize > 0
      && outcome.best == history[|generations|][0]
      && (forall i :: 0 < i < popSize ==> Le(history[|generations|][i].fitness, outcome.best.fitness))
      && |outcome.best.chromosome| == chromosomeSize
      && outcome.best.fitness == fitness(outcome.best.chromosome)
      && GenesWithinOrNaN(outcome.best.chromosome, lo, hi)
  {
    history, parentsLog := [], [];
    if EmptyRange(popSize, chromosomeSize, lo, hi) {
      return Panic, history, parentsLog;
    }
    assert InitialDrawsInRange(initial, lo, hi);
    var pop, panicked := Initialise(chromosomeSize, lo, hi, popSize, fitness, initial);
    if panicked {
      return Panic, history, parentsLog;
    }
    outcome, history, parentsLog :=
      Evolve(pop, chromosomeSize, lo, hi, mutRat, popSize, nofit, fitness, initial, generations);
  }

  /**
   * Lines 99-175: the generation loop of `ga`, from the ranked first
   * population `pop` on.
   */
  method Evolve(
    pop: array<Individual>, chromosomeSize: nat, lo: Bits, hi: Bits, mutRat: real, popSize: nat, nofit: int,
    fitness: seq<Bits> -> Float, initial: seq<seq<Bits>>, generations: seq<GenerationDraws>)
    returns (outcome: Outcome, ghost history: seq<seq<Individual>>, ghost parentsLog: seq<seq<(nat, nat)>>)
    requires |initial| == popSize
    requires forall i :: 0 <= i < popSize ==> |initial[i]| == chromosomeSize
    requires InitialDrawsInRange(initial, lo, hi)
    requires !RankPanics(FirstEvaluated(chromosomeSize, lo, hi, popSize, fitness, initial))
    requires |generations| == if nofit > 0 then nofit else 0
    requires forall g :: 0 <= g < |generations| ==> ValidGenerationDraws(generations[g], popSize)
    requires pop.Length == popSize
    requires chromosomeSize > 0 && popSize > 0 ==> Le(Value(lo), Value(hi))
    requires Healthy(pop[..], chromosomeSize, lo, hi, fitness)
    requires StablePermutation(pop[..], FirstEvaluated(chromosomeSize, lo, hi, popSize, fitness, initial))
    modifies pop
    ensures (popSize > 0 || nofit <= 0) && (popSize < 2 || NeverNaN(fitness)) ==> outcome.Done?
    ensures outcome.Panic? ==>
      GenerationPanicked(history, parentsLog, chromosomeSize, lo, hi, mutRat, popSize, nofit, fitness, initial, generations)
    ensures outcome.Done? ==>
      && Trace(history, parentsLog, chromosomeSize, lo, hi, mutRat, popSize, fitness, initial, generations)
      && |history| == |generations| + 1 && |parentsLog| == |generations|
      && (nofit <= 0 ==> outcome.best == Empty)
    ensures outcome.Done? && nofit > 0 ==>
      && popSize > 0
      && history[|generations|] == pop[..]
      && outcome.best == pop[0]
      && Healthy(pop[..], chromosomeSize, lo, hi, fitness)
  {
    history, parentsLog := [pop[..]], [];
    var best := Empty;
    var generation := 0;
    while generation < nofit
      invariant 0 <= generation && (nofit > 0 ==> generation <= nofit) && (nofit <= 0 ==> generation == 0)
      invariant Healthy(pop[..], chromosomeSize, lo, hi, fitness)
      invariant |history| == generation + 1 && |parentsLog| == generation
      invariant history[generation] == pop[..]
      invariant Trace(history, parentsLog, chromosomeSize, lo, hi, mutRat, popSize, fitness, initial, generations)
      invariant generation == 0 ==> best == Empty
      invariant generation > 0 ==> popSize > 0 && best == pop[0]
    {
      var stop;
      stop, history, parentsLog := NextGeneration(pop, chromosomeSize, lo, hi, mutRat, popSize, nofit,
        fitness, initial, generations, generation, history, parentsLog);
      if stop {
        return Panic, history, parentsLog;
      }
      best := pop[0];
      generation := generation + 1;
    }
    outcome := Done(best);
  }

  /**
   * One pass of the generation loop (lines 100-174): a generation on
   * `pop`, then the read of `pop[0]`. `history` and `parentsLog` are the run
   * so far, and come back extended by what this generation did.
   */
  method NextGeneration(
    pop: array<Individual>, chromosomeSize: nat, lo: Bits, hi: Bits, mutRat: real, popSize: nat, nofit: int,
    fitness: seq<Bits> -> Float, initial: seq<seq<Bits>>, generations: seq<GenerationDraws>, generation: nat,
    ghost history: seq<seq<Individual>>, ghost parentsLog: seq<seq<(nat, nat)>>)
    returns (stop: bool, ghost nextHistory: seq<seq<Individual>>, ghost nextLog: seq<seq<(nat, nat)>>)
    requires |initial| == popSize
    requires forall i :: 0 <= i < popSize ==> |initial[i]| == chromosomeSize
    requires forall g :: 0 <= g < |generations| ==> ValidGenerationDraws(generations[g], popSize)
    requires pop.Length == popSize && nofit > 0
    requires chromosomeSize > 0 && popSize > 0 ==> Le(Value(lo), Value(hi))
    requires Healthy(pop[..], chromosomeSize, lo, hi, fitness)
    requires Trace(history, parentsLog, chromosomeSize, lo, hi, mutRat, popSize, fitness, initial, generations)
    requires |history| == generation + 1 && |parentsLog| == generation && generation < |generations|
    requires history[generation] == pop[..]
    requires popSize == 0 ==> |history| == 1
    modifies pop
    ensures stop ==>
      GenerationPanicked(nextHistory, nextLog, chromosomeSize, lo, hi, mutRat, popSize, nofit, fitness, initial, generations)
    ensures !stop ==>
      && Trace(nextHistory, nextLog, chromosomeSize, lo, hi, mutRat, popSize, fitness, initial, generations)
      && nextHistory == history + [pop[..]]
      && |nextLog| == |parentsLog| + 1
      && Healthy(pop[..], chromosomeSize, lo, hi, fitness)
      && popSize > 0
    ensures popSize > 0 && (popSize < 2 || NeverNaN(fitness)) ==> !stop
  {
    var panicked, parents := RunGeneration(pop, chromosomeSize, lo, hi, mutRat, fitness, generations[generation]);
    if panicked {
      RankingPanicEndsRun(history, parentsLog, parents,
        chromosomeSize, lo, hi, mutRat, popSize, nofit, fitness, initial, generations);
      return true, history, parentsLog + [parents];
    }
    TraceExtends(history, parentsLog, parents, pop[..],
      chromosomeSize, lo, hi, mutRat, popSize, fitness, initial, generations);
    nextHistory, nextLog := history + [pop[..]], parentsLog + [parents];
    if pop.Length == 0 {
      EmptyPopulationEndsRun(nextHistory, nextLog,
        chromosomeSize, lo, hi, mutRat, popSize, nofit, fitness, initial, generations);
      return true, nextHistory, nextLog;
    }
    stop := false;
  }
}
