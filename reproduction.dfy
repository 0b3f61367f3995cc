/**
 * Reproduction operators of the genetic algorithm: roulette-style selection,
 * bitwise-AND crossover and single-bit mutation, each followed by clamping
 * into [min_val, max_val].
 */
module Reproduction {
  import opened F64
  import opened Individuals
  import opened Options
  import opened Population

  // -------------------------------------------------------------- selection

  /**
   * The random draws one call of `select` consumes: `r` from `random()` in
   * [0, 1), and `pick`, the index `choose` would return on the fallback path.
   */
  datatype SelectionDraw = SelectionDraw(r: real, pick: nat)

  predicate ValidSelectionDraw(d: SelectionDraw, popSize: nat) {
    0.0 <= d.r < 1.0 && d.pick < popSize
  }

  /** `rnd < ind.fitness / sum_of_fitnesses`: the individual's own share, not a running total. */
  predicate Qualifies(ind: Individual, sum: Float, r: real) {
    Lt(Finite(r), Div(ind.fitness, sum))
  }

  /** The first index at or after `from` whose individual qualifies. */
  function FirstQualifying(s: seq<Individual>, sum: Float, r: real, from: nat): (k: Option<nat>)
    requires from <= |s|
    ensures k.Some? ==>
      && from <= k.value < |s|
      && Qualifies(s[k.value], sum, r)
      && forall j :: from <= j < k.value ==> !Qualifies(s[j], sum, r)
    ensures k.None? ==> forall j :: from <= j < |s| ==> !Qualifies(s[j], sum, r)
    decreases |s| - from
  {
    if from == |s| then None
    else if Qualifies(s[from], sum, r) then Some(from)
    else FirstQualifying(s, sum, r, from + 1)
  }

  /** The index `select` returns: the first qualifying individual, else the fallback pick. */
  function Selected(s: seq<Individual>, sum: Float, d: SelectionDraw): (i: nat)
  {
    match FirstQualifying(s, sum, d.r, 0)
    case Some(k) => k
    case None => d.pick
  }

  /**
   * `select`: scans the population in order and returns (the index of) the
   * first individual whose normalised fitness exceeds the draw, falling back
   * to the random pick. On an empty population `choose(..).unwrap()` panics.
   */
  method Select(pop: array<Individual>, sum: Float, d: SelectionDraw) returns (i: nat)
    requires pop.Length > 0
    requires ValidSelectionDraw(d, pop.Length)
    ensures i < pop.Length
    ensures i == Selected(pop[..], sum, d)
  {
    var k := 0;
    while k < pop.Length
      invariant 0 <= k <= pop.Length
      invariant FirstQualifying(pop[..], sum, d.r, 0) == FirstQualifying(pop[..], sum, d.r, k)
    {
      var share := Div(pop[k].fitness, sum);
      if Lt(Finite(d.r), share) {
        return k;
      }
      k := k + 1;
    }
    i := d.pick;
  }

  /**
   * The selected individual is a member; it is a qualifying one exactly when
   * some individual qualifies, and then the first of them; otherwise it is the
   * fallback pick.
   */
  lemma SelectedFacts(s: seq<Individual>, sum: Float, d: SelectionDraw)
    requires |s| > 0 && ValidSelectionDraw(d, |s|)
    ensures Selected(s, sum, d) < |s|
    ensures (exists j :: 0 <= j < |s| && Qualifies(s[j], sum, d.r)) ==>
      && Qualifies(s[Selected(s, sum, d)], sum, d.r)
      && forall j :: 0 <= j < Selected(s, sum, d) ==> !Qualifies(s[j], sum, d.r)
    ensures (forall j :: 0 <= j < |s| ==> !Qualifies(s[j], sum, d.r)) ==> Selected(s, sum, d) == d.pick
  {
  }

  /**
   * With every fitness 0.0 the total is 0.0 and each share is 0.0 / 0.0 = NaN,
   * so selection always falls back to the random pick.
   */
  lemma AllZeroFitnessFallsBack(s: seq<Individual>, d: SelectionDraw)
    requires forall j :: 0 <= j < |s| ==> s[j].fitness == Zero
    ensures Selected(s, TotalFitness(s), d) == d.pick
  {
    TotalOfZeros(s);
    assert forall j :: 0 <= j < |s| ==> !Qualifies(s[j], Zero, d.r);
  }

  // --------------------------------------------------------------- clamping

  /** Crossover's clamp: `if gene < min_val { return min_val } if gene > max_val { return max_val } gene`. */
  function ClampEarly(g: Bits, lo: Bits, hi: Bits): (c: Bits)
    ensures Value(g).NaN? ==> c == g
    ensures Within(g, lo, hi) ==> c == g
    ensures Le(Value(lo), Value(hi)) && !Value(g).NaN? ==> Within(c, lo, hi)
    ensures c == g || c == lo || c == hi
  {
    if Lt(Value(g), Value(lo)) then lo
    else if Lt(Value(hi), Value(g)) then hi
    else g
  }

  /** Mutation's clamp: the two tests run one after the other on the updated value. */
  function ClampStepwise(g: Bits, lo: Bits, hi: Bits): (c: Bits)
    ensures Value(g).NaN? ==> c == g
    ensures Within(g, lo, hi) ==> c == g
    ensures Le(Value(lo), Value(hi)) && !Value(g).NaN? ==> Within(c, lo, hi)
    ensures c == g || c == lo || c == hi
  {
    var m := if Lt(Value(g), Value(lo)) then lo else g;
    var c := if Lt(Value(hi), Value(m)) then hi else m;
    assert Value(g).NaN? ==> c == g;
    assert Within(g, lo, hi) ==> m == g && c == g;
    c
  }

  /**
   * The two clamps agree whenever min_val <= max_val; with min_val > max_val a
   * gene below min_val ends at min_val after crossover but at max_val after mutation.
   */
  lemma ClampsAgree(g: Bits, lo: Bits, hi: Bits)
    requires !Lt(Value(hi), Value(lo))
    ensures ClampEarly(g, lo, hi) == ClampStepwise(g, lo, hi)
  {
  }

  // -------------------------------------------------------------- crossover

  /** One gene of a child: the AND of the parents' patterns, clamped. */
  function CrossedGene(a: Bits, b: Bits, lo: Bits, hi: Bits): Bits {
    ClampEarly(a & b, lo, hi)
  }

  /**
   * `crossover`: gene i of the child is the AND of the parents' bit patterns
   * at i, clamped; the child is unevaluated (fitness 0.0). Indexing past a
   * parent's chromosome panics, hence the length requirement.
   */
  function Crossover(p1: Individual, p2: Individual, chromosomeSize: nat, lo: Bits, hi: Bits): (child: Individual)
    requires chromosomeSize <= |p1.chromosome| && chromosomeSize <= |p2.chromosome|
    ensures |child.chromosome| == chromosomeSize && child.fitness == Zero
    ensures forall j :: 0 <= j < chromosomeSize ==>
      child.chromosome[j] == ClampEarly(p1.chromosome[j] & p2.chromosome[j], lo, hi)
  {
    Individual(
      seq(chromosomeSize, j requires 0 <= j < chromosomeSize =>
        CrossedGene(p1.chromosome[j], p2.chromosome[j], lo, hi)),
      Zero)
  }

  /** Crossover does not depend on the order of the parents. */
  lemma CrossoverSymmetric(p1: Individual, p2: Individual, chromosomeSize: nat, lo: Bits, hi: Bits)
    requires chromosomeSize <= |p1.chromosome| && chromosomeSize <= |p2.chromosome|
    ensures Crossover(p1, p2, chromosomeSize, lo, hi) == Crossover(p2, p1, chromosomeSize, lo, hi)
  {
    var c1 := Crossover(p1, p2, chromosomeSize, lo, hi);
    var c2 := Crossover(p2, p1, chromosomeSize, lo, hi);
    assert forall j :: 0 <= j < chromosomeSize ==> p1.chromosome[j] & p2.chromosome[j] == p2.chromosome[j] & p1.chromosome[j];
    assert c1.chromosome == c2.chromosome;
  }

  /** Self-mating: a parent crossed with itself gives its own genes, clamped, unevaluated. */
  lemma CrossoverWithSelf(p: Individual, chromosomeSize: nat, lo: Bits, hi: Bits)
    requires chromosomeSize <= |p.chromosome|
    ensures forall j :: 0 <= j < chromosomeSize ==>
      Crossover(p, p, chromosomeSize, lo, hi).chromosome[j] == ClampEarly(p.chromosome[j], lo, hi)
    ensures GenesWithinOrNaN(p.chromosome[..chromosomeSize], lo, hi) ==>
      Crossover(p, p, chromosomeSize, lo, hi) == p.(chromosome := p.chromosome[..chromosomeSize], fitness := Zero)
  {
    var c := Crossover(p, p, chromosomeSize, lo, hi);
    assert forall j :: 0 <= j < chromosomeSize ==> p.chromosome[j] & p.chromosome[j] == p.chromosome[j];
    if GenesWithinOrNaN(p.chromosome[..chromosomeSize], lo, hi) {
      assert c.chromosome == p.chromosome[..chromosomeSize];
    }
  }

  /**
   * A child gene is never a NaN unless the first parent's gene has an all-ones
   * exponent (NaN or infinity): with parents that are numbers, crossover keeps
   * every gene inside [min_val, max_val].
   */
  lemma CrossoverOfNumbersIsWithin(p1: Individual, p2: Individual, chromosomeSize: nat, lo: Bits, hi: Bits, j: nat)
    requires chromosomeSize <= |p1.chromosome| && chromosomeSize <= |p2.chromosome|
    requires j < chromosomeSize
    requires ExponentField(p1.chromosome[j]) != 0x7FF
    requires Le(Value(lo), Value(hi))
    ensures Within(Crossover(p1, p2, chromosomeSize, lo, hi).chromosome[j], lo, hi)
  {
    AndKeepsNumbers(p1.chromosome[j], p2.chromosome[j]);
  }

  /** Crossover of individuals whose genes are in range or NaN gives such an individual. */
  lemma CrossoverKeepsGenesWithinOrNaN(p1: Individual, p2: Individual, chromosomeSize: nat, lo: Bits, hi: Bits)
    requires chromosomeSize <= |p1.chromosome| && chromosomeSize <= |p2.chromosome|
    requires Le(Value(lo), Value(hi))
    ensures GenesWithinOrNaN(Crossover(p1, p2, chromosomeSize, lo, hi).chromosome, lo, hi)
  {
  }

  // --------------------------------------------------------------- mutation

  /**
   * The random draws one call of `mutate` consumes: `r` from `random()` in
   * [0, 1), and `bit`, the position `gen_range` draws from the tier `r` selects.
   */
  datatype MutationDraw = MutationDraw(r: real, bit: nat)

  /**
   * The tier of bit positions, as a half-open range [lo, hi): low fraction bits
   * for r <= 0.75, middle bits for r <= 0.90, high fraction, exponent and sign
   * bits otherwise. The ranges overlap at 31 and 47.
   */
  function BitRange(r: real): (range: (nat, nat))
    ensures range.0 < range.1 <= 64
    ensures r <= 0.75 ==> range == (0, 32)
    ensures 0.75 < r <= 0.90 ==> range == (31, 48)
    ensures 0.90 < r ==> range == (47, 64)
  {
    if r <= 0.75 then (0, 32)
    else if r <= 0.90 then (31, 48)
    else (47, 64)
  }

  predicate ValidMutationDraw(d: MutationDraw) {
    0.0 <= d.r < 1.0 && BitRange(d.r).0 <= d.bit < BitRange(d.r).1
  }

  /** Every bit position is drawn from some tier, and 31 and 47 from two. */
  lemma TiersCoverAllBits(k: nat)
    requires k < 64
    ensures exists r: real :: 0.0 <= r < 1.0 && ValidMutationDraw(MutationDraw(r, k))
    ensures k == 31 ==> ValidMutationDraw(MutationDraw(0.5, k)) && ValidMutationDraw(MutationDraw(0.8, k))
    ensures k == 47 ==> ValidMutationDraw(MutationDraw(0.8, k)) && ValidMutationDraw(MutationDraw(0.95, k))
  {
    if k < 32 {
      assert ValidMutationDraw(MutationDraw(0.5, k));
    } else if k < 48 {
      assert ValidMutationDraw(MutationDraw(0.8, k));
    } else {
      assert ValidMutationDraw(MutationDraw(0.95, k));
    }
  }

  /** `1 << rnd_bit_pos`: a single set bit. */
  function Mask(k: nat): (m: Bits)
    requires k < 64
  {
    (1 as bv64) << k
  }

  /** One gene after `mutate`: its bit `k` flipped, then clamped. */
  function MutatedGene(g: Bits, k: nat, lo: Bits, hi: Bits): Bits
    requires k < 64
  {
    ClampStepwise(g ^ Mask(k), lo, hi)
  }

  /**
   * The individual after `mutate` with bit position `k`: the same mask XORed into
   * every gene, each result clamped; the cached fitness is left as it was.
   */
  function Mutation(ind: Individual, k: nat, lo: Bits, hi: Bits): (m: Individual)
    requires k < 64
  {
    var c := ind.chromosome;
    ind.(chromosome := seq(|c|, j requires 0 <= j < |c| => MutatedGene(c[j], k, lo, hi)))
  }

  /**
   * Mutation keeps the chromosome length, leaves the fitness stale, and keeps
   * every gene that is not a NaN inside [min_val, max_val].
   */
  lemma MutationFacts(ind: Individual, k: nat, lo: Bits, hi: Bits)
    requires k < 64
    ensures |Mutation(ind, k, lo, hi).chromosome| == |ind.chromosome|
    ensures Mutation(ind, k, lo, hi).fitness == ind.fitness
    ensures Le(Value(lo), Value(hi)) ==> GenesWithinOrNaN(Mutation(ind, k, lo, hi).chromosome, lo, hi)
  {
  }

  /**
   * When every flipped gene lands inside [min_val, max_val] (so neither
   * mutation clamps), mutating twice at the same position restores the genes.
   */
  lemma MutationTwiceRestores(ind: Individual, k: nat, lo: Bits, hi: Bits)
    requires k < 64
    requires GenesWithinOrNaN(ind.chromosome, lo, hi)
    requires forall j :: 0 <= j < |ind.chromosome| ==> Within(ind.chromosome[j] ^ Mask(k), lo, hi)
    ensures Mutation(Mutation(ind, k, lo, hi), k, lo, hi) == ind
  {
    var once := Mutation(ind, k, lo, hi);
    var twice := Mutation(once, k, lo, hi);
    forall j | 0 <= j < |ind.chromosome|
      ensures twice.chromosome[j] == ind.chromosome[j]
    {
      assert once.chromosome[j] == ind.chromosome[j] ^ Mask(k);
      assert (ind.chromosome[j] ^ Mask(k)) ^ Mask(k) == ind.chromosome[j];
    }
    assert twice.chromosome == ind.chromosome;
  }

  /**
   * Clamping does not catch NaN: the gene 1.5 mutated at bit 62 (a position of
   * the top tier) becomes a NaN and stays outside [min_val, max_val].
   */
  lemma MutationCanLeaveRange(lo: Bits, hi: Bits)
    ensures ValidMutationDraw(MutationDraw(0.95, 62))
    ensures !Value(0x3FF8_0000_0000_0000).NaN?
    ensures Value(Mutation(Individual([0x3FF8_0000_0000_0000], Zero), 62, lo, hi).chromosome[0]).NaN?
    ensures !Within(Mutation(Individual([0x3FF8_0000_0000_0000], Zero), 62, lo, hi).chromosome[0], lo, hi)
  {
    FlippingAnExponentBitCanYieldNaN();
    assert Mask(62) == 1 << 62;
  }

  /** `mutate`: replaces each gene in turn by its flipped and clamped value. */
  method Mutate(ind: Individual, d: MutationDraw, lo: Bits, hi: Bits) returns (mutated: Individual)
    requires ValidMutationDraw(d)
    ensures mutated == Mutation(ind, d.bit, lo, hi)
  {
    ghost var target := Mutation(ind, d.bit, lo, hi).chromosome;
    var genes := ind.chromosome;
    var j := 0;
    while j < |genes|
      invariant 0 <= j <= |genes| == |ind.chromosome| == |target|
      invariant genes[..j] == target[..j]
      invariant genes[j..] == ind.chromosome[j..]
    {
      var g := MutatedGene(genes[j], d.bit, lo, hi);
      assert genes[j] == ind.chromosome[j];
      assert g == target[j];
      genes := genes[j := g];
      j := j + 1;
      assert genes[..j] == genes[..j - 1] + [g];
    }
    assert genes == genes[..j];
    mutated := ind.(chromosome := genes);
  }
}
