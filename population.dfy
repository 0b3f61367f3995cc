/**
 * Population operators of the genetic algorithm: initialisation, evaluation
 * and ranking.
 */
module Population {
  import opened F64
  import opened Individuals

  /** `gen_range(min_val..max_val)` yields a value in the half-open interval [lo, hi). */
  predicate InHalfOpen(g: Bits, lo: Bits, hi: Bits) {
    Le(Value(lo), Value(g)) && Lt(Value(g), Value(hi))
  }

  /**
   * `gen_pop`: `popSize` fresh individuals whose genes are the given draws from
   * [minVal, maxVal) and whose fitness is 0.0.
   */
  function GenPop(popSize: nat, chromosomeSize: nat, minVal: Bits, maxVal: Bits, draws: seq<seq<Bits>>)
    : (pop: seq<Individual>)
    requires |draws| == popSize
    requires forall i :: 0 <= i < popSize ==> |draws[i]| == chromosomeSize
    requires forall i, j :: 0 <= i < popSize && 0 <= j < |draws[i]| ==> InHalfOpen(draws[i][j], minVal, maxVal)
    ensures |pop| == popSize
    ensures forall i :: 0 <= i < popSize ==>
      && pop[i].chromosome == draws[i]
      && |pop[i].chromosome| == chromosomeSize
      && pop[i].fitness == Zero
    ensures forall i, j :: 0 <= i < popSize && 0 <= j < chromosomeSize ==>
      !Value(pop[i].chromosome[j]).NaN? && Within(pop[i].chromosome[j], minVal, maxVal)
  {
    var pop := seq(popSize, i requires 0 <= i < popSize => Individual(draws[i], Zero));
    assert forall i, j :: 0 <= i < popSize && 0 <= j < chromosomeSize ==>
      !Value(pop[i].chromosome[j]).NaN? && Within(pop[i].chromosome[j], minVal, maxVal)
    by {
      forall i, j | 0 <= i < popSize && 0 <= j < chromosomeSize
        ensures !Value(pop[i].chromosome[j]).NaN? && Within(pop[i].chromosome[j], minVal, maxVal)
      {
        assert pop[i].chromosome[j] == draws[i][j];
        assert InHalfOpen(draws[i][j], minVal, maxVal);
      }
    }
    pop
  }

  /** The population after `evaluate`: same chromosomes, fitness recomputed for each. */
  function Evaluated(s: seq<Individual>, fitness: seq<Bits> -> Float): (r: seq<Individual>)
  {
    seq(|s|, i requires 0 <= i < |s| => s[i].(fitness := fitness(s[i].chromosome)))
  }

  /** Evaluation keeps the length and the chromosomes and makes every cached fitness current. */
  lemma EvaluatedFacts(s: seq<Individual>, fitness: seq<Bits> -> Float)
    ensures |Evaluated(s, fitness)| == |s|
    ensures forall i :: 0 <= i < |s| ==>
      Evaluated(s, fitness)[i].chromosome == s[i].chromosome
      && Evaluated(s, fitness)[i].fitness == fitness(s[i].chromosome)
  {
  }

  /** `evaluate`: overwrites each individual's fitness in place. */
  method Evaluate(pop: array<Individual>, fitness: seq<Bits> -> Float)
    modifies pop
    ensures pop[..] == Evaluated(old(pop[..]), fitness)
  {
    var i := 0;
    while i < pop.Length
      invariant 0 <= i <= pop.Length
      invariant pop[..i] == Evaluated(old(pop[..i]), fitness)
      invariant pop[i..] == old(pop[i..])
    {
      pop[i] := pop[i].(fitness := fitness(pop[i].chromosome));
      i := i + 1;
      assert pop[..i] == pop[..i - 1] + [pop[i - 1]];
      assert old(pop[..i]) == old(pop[..i - 1]) + [old(pop[i - 1])];
    }
    assert pop[..] == pop[..pop.Length];
    assert old(pop[..]) == old(pop[..pop.Length]);
  }

  /** `pop.iter().map(|ind| ind.fitness).sum()`, added from left to right. */
  function TotalFitness(s: seq<Individual>): (t: Float)
    ensures (exists i :: 0 <= i < |s| && s[i].fitness.NaN?) ==> t.NaN?
    ensures (forall i :: 0 <= i < |s| ==> s[i].fitness.Finite?) ==> t.Finite?
  {
    if s == [] then Zero else Add(TotalFitness(s[..|s| - 1]), s[|s| - 1].fitness)
  }

  /** When every fitness is 0.0 the total is 0.0. */
  lemma {:induction false} TotalOfZeros(s: seq<Individual>)
    requires forall i :: 0 <= i < |s| ==> s[i].fitness == Zero
    ensures TotalFitness(s) == Zero
  {
    if s != [] {
      TotalOfZeros(s[..|s| - 1]);
    }
  }

  // ---------------------------------------------------------------- ranking

  /** The fitness function never returns NaN. */
  ghost predicate NeverNaN(fitness: seq<Bits> -> Float) {
    forall c :: !fitness(c).NaN?
  }

  /** No cached fitness is NaN. */
  predicate NoNaN(s: seq<Individual>) {
    forall i :: 0 <= i < |s| ==> !s[i].fitness.NaN?
  }

  /** The comparator `partial_cmp(..).unwrap()` panics on a NaN once two elements are compared. */
  predicate RankPanics(s: seq<Individual>) {
    |s| >= 2 && !NoNaN(s)
  }

  /** With a fitness function that never returns NaN, ranking an evaluated population never panics. */
  lemma EvaluatedNeverPanics(s: seq<Individual>, fitness: seq<Bits> -> Float)
    requires NeverNaN(fitness)
    ensures !RankPanics(Evaluated(s, fitness))
  {
  }

  /** Non-increasing fitness order: `pop[0]` is a best individual. */
  predicate SortedDesc(s: seq<Individual>) {
    forall i, j :: 0 <= i < j < |s| ==> Le(s[j].fitness, s[i].fitness)
  }

  /** The individuals of `s` whose fitness equals `f`, in their order in `s`. */
  function Ties(s: seq<Individual>, f: Float): (r: seq<Individual>)
    ensures |r| <= |s|
  {
    if s == [] then []
    else (if s[0].fitness == f then [s[0]] else []) + Ties(s[1..], f)
  }

  /**
   * `t` reorders `s` keeping the relative order of individuals with equal
   * fitness: the guarantee of a stable sort.
   */
  ghost predicate StablePermutation(t: seq<Individual>, s: seq<Individual>) {
    forall f :: Ties(t, f) == Ties(s, f)
  }

  lemma {:induction false} TiesAppend(a: seq<Individual>, b: seq<Individual>, f: Float)
    ensures Ties(a + b, f) == Ties(a, f) + Ties(b, f)
  {
    if a != [] {
      assert (a + b)[0] == a[0] && (a + b)[1..] == a[1..] + b;
      TiesAppend(a[1..], b, f);
      if a[0].fitness == f {
        assert Ties(a + b, f) == [a[0]] + Ties(a[1..] + b, f);
        assert Ties(a, f) == [a[0]] + Ties(a[1..], f);
      } else {
        assert Ties(a + b, f) == Ties(a[1..] + b, f);
        assert Ties(a, f) == Ties(a[1..], f);
      }
    } else {
      assert a + b == b;
    }
  }

  /** Swapping two neighbours of different fitness keeps every group of ties in order. */
  lemma SwapKeepsTies(s: seq<Individual>, j: nat)
    requires j + 1 < |s|
    requires s[j].fitness != s[j + 1].fitness
    ensures StablePermutation(s[j := s[j + 1]][j + 1 := s[j]], s)
  {
    var t := s[j := s[j + 1]][j + 1 := s[j]];
    assert s == s[..j] + ([s[j], s[j + 1]] + s[j + 2..]);
    assert t == s[..j] + ([s[j + 1], s[j]] + s[j + 2..]);
    forall f
      ensures Ties(t, f) == Ties(s, f)
    {
      TiesAppend(s[..j], [s[j], s[j + 1]] + s[j + 2..], f);
      TiesAppend(s[..j], [s[j + 1], s[j]] + s[j + 2..], f);
      TiesAppend([s[j], s[j + 1]], s[j + 2..], f);
      TiesAppend([s[j + 1], s[j]], s[j + 2..], f);
      assert [s[j], s[j + 1]][1..] == [s[j + 1]];
      assert [s[j + 1], s[j]][1..] == [s[j]];
    }
  }

  /** Every copy of `e` in `s` is in the group of ties of `e`'s fitness. */
  lemma {:induction false} CountInTies(s: seq<Individual>, e: Individual)
    ensures multiset(s)[e] == multiset(Ties(s, e.fitness))[e]
  {
    if s != [] {
      CountInTies(s[1..], e);
      assert s == [s[0]] + s[1..];
    }
  }

  /** A stable permutation is a permutation. */
  lemma StablePermutationIsPermutation(t: seq<Individual>, s: seq<Individual>)
    requires StablePermutation(t, s)
    ensures multiset(t) == multiset(s)
  {
    forall e
      ensures multiset(t)[e] == multiset(s)[e]
    {
      CountInTies(t, e);
      CountInTies(s, e);
    }
  }

  /** A member of a group of ties is a member of `s` with that fitness. */
  lemma {:induction false} InTies(s: seq<Individual>, f: Float, e: Individual)
    requires e in Ties(s, f)
    ensures e in s && e.fitness == f
  {
    if s != [] && e in Ties(s[1..], f) {
      InTies(s[1..], f, e);
    }
  }

  /** Sequences with the same groups of ties have the same length. */
  lemma SameTiesSameLength(t: seq<Individual>, u: seq<Individual>)
    requires forall f :: Ties(t, f) == Ties(u, f)
    ensures |t| == |u|
  {
    StablePermutationIsPermutation(t, u);
    assert |t| == |multiset(t)| && |u| == |multiset(u)|;
  }

  /**
   * Two sequences in non-increasing fitness order with the same groups of ties
   * are equal: sortedness and stability leave exactly one possible ranking.
   */
  lemma {:induction false} SameTiesSameOrder(t: seq<Individual>, u: seq<Individual>)
    requires SortedDesc(t) && SortedDesc(u)
    requires forall f :: Ties(t, f) == Ties(u, f)
    ensures t == u
  {
    SameTiesSameLength(t, u);
    if t != [] {
      var f, g := t[0].fitness, u[0].fitness;
      assert u[0] in Ties(u, g);
      InTies(t, g, u[0]);
      assert t[0] in Ties(t, f);
      InTies(u, f, t[0]);
      var i :| 0 <= i < |t| && t[i] == u[0];
      var j :| 0 <= j < |u| && u[j] == t[0];
      if i > 0 && j > 0 {
        assert Le(g, f) && Le(f, g);
      }
      assert f == g;
      assert Ties(t, f)[0] == t[0] && Ties(u, f)[0] == u[0];
      forall h
        ensures Ties(t[1..], h) == Ties(u[1..], h)
      {
        var head := if f == h then [t[0]] else [];
        assert Ties(t, h) == head + Ties(t[1..], h);
        assert Ties(u, h) == head + Ties(u[1..], h);
        assert Ties(t[1..], h) == Ties(t, h)[|head|..];
        assert Ties(u[1..], h) == Ties(u, h)[|head|..];
      }
      SameTiesSameOrder(t[1..], u[1..]);
      assert t == [t[0]] + t[1..] && u == [u[0]] + u[1..];
    }
  }

  /**
   * The state of one insertion step: the individual being inserted sits at `j`,
   * everything up to `i` apart from it is in order, and it is strictly fitter
   * than everything it has already moved past.
   */
  ghost predicate Inserting(s: seq<Individual>, j: nat, i: nat) {
    && j <= i < |s|
    && (forall p, q :: 0 <= p < q < j ==> Le(s[q].fitness, s[p].fitness))
    && (forall p, q :: j < p < q <= i ==> Le(s[q].fitness, s[p].fitness))
    && (forall p, q :: 0 <= p < j < q <= i ==> Le(s[q].fitness, s[p].fitness))
    && (forall q :: j < q <= i ==> Lt(s[q].fitness, s[j].fitness))
  }

  /** Inserting `s[i]` starts from a sorted prefix `s[..i]`. */
  lemma StartInserting(s: seq<Individual>, i: nat)
    requires i < |s| && SortedDesc(s[..i])
    ensures Inserting(s, i, i)
  {
    assert forall p :: 0 <= p < i ==> s[..i][p] == s[p];
  }

  /** Swapping the inserted individual with a strictly less fit predecessor moves the step on. */
  lemma {:induction false} SwapStep(s: seq<Individual>, j: nat, i: nat)
    requires NoNaN(s) && Inserting(s, j, i)
    requires 0 < j && Lt(s[j - 1].fitness, s[j].fitness)
    ensures Inserting(s[j - 1 := s[j]][j := s[j - 1]], j - 1, i)
  {
    var t := s[j - 1 := s[j]][j := s[j - 1]];
    forall p, q | 0 <= p < j - 1 < q <= i
      ensures Le(t[q].fitness, t[p].fitness)
    {
      if q == j {
        OrderFacts(t[q].fitness, s[j].fitness, t[p].fitness);
      }
    }
    forall q | j - 1 < q <= i
      ensures Lt(t[q].fitness, t[j - 1].fitness)
    {
      if q > j {
        OrderFacts(t[q].fitness, s[j - 1].fitness, t[j - 1].fitness);
      }
    }
  }

  /** Once the inserted individual meets a predecessor at least as fit, `s[..i + 1]` is sorted. */
  lemma {:induction false} StopInserting(s: seq<Individual>, j: nat, i: nat)
    requires NoNaN(s) && Inserting(s, j, i)
    requires j == 0 || !Lt(s[j - 1].fitness, s[j].fitness)
    ensures SortedDesc(s[..i + 1])
  {
    forall p, q | 0 <= p < q < i + 1
      ensures Le(s[q].fitness, s[p].fitness)
    {
      if p < j && q == j {
        OrderFacts(s[j].fitness, s[j - 1].fitness, s[p].fitness);
      } else if p == j && q > j {
        OrderFacts(s[q].fitness, s[j].fitness, s[j].fitness);
      }
    }
  }

  /**
   * `rank`: `sort_by` with `ind2.fitness.partial_cmp(&ind1.fitness)`, a stable
   * sort into non-increasing fitness. Modelled as an insertion sort that moves
   * an individual forward only past strictly less fit ones.
   */
  method Rank(pop: array<Individual>)
    requires !RankPanics(pop[..])
    modifies pop
    ensures SortedDesc(pop[..])
    ensures StablePermutation(pop[..], old(pop[..]))
    ensures multiset(pop[..]) == multiset(old(pop[..]))
  {
    if pop.Length < 2 {
      return;
    }
    var i := 1;
    while i < pop.Length
      invariant 1 <= i <= pop.Length
      invariant NoNaN(pop[..])
      invariant SortedDesc(pop[..i])
      invariant StablePermutation(pop[..], old(pop[..]))
    {
      StartInserting(pop[..], i);
      var j := i;
      while j > 0 && Lt(pop[j - 1].fitness, pop[j].fitness)
        invariant NoNaN(pop[..])
        invariant Inserting(pop[..], j, i)
        invariant StablePermutation(pop[..], old(pop[..]))
      {
        SwapKeepsTies(pop[..], j - 1);
        SwapStep(pop[..], j, i);
        ghost var before := pop[..];
        pop[j - 1], pop[j] := pop[j], pop[j - 1];
        assert pop[..] == before[j - 1 := before[j]][j := before[j - 1]];
        j := j - 1;
      }
      StopInserting(pop[..], j, i);
      i := i + 1;
    }
    assert pop[..] == pop[..pop.Length];
    StablePermutationIsPermutation(pop[..], old(pop[..]));
  }
}
