/**
 * The multi-run driver of `main`: run the genetic algorithm again and again,
 * accepting each run's best while it is at least as fit as the best accepted
 * so far, and stop at the first run that is less fit.
 *
 * The source loops for as long as runs keep improving; here the results of the
 * successive runs are given as a finite sequence.
 */
module Driver {
  import opened F64
  import opened Individuals
  import opened Options

  /** The fitness run `j` is compared against: 0.0 for the first run, else the previous run's. */
  function Previous(runs: seq<Individual>, j: nat): Float
    requires j < |runs|
  {
    if j == 0 then Zero else runs[j - 1].fitness
  }

  /**
   * The end of the run of accepted results from `i` on: every run before it is
   * at least as fit as the one before it, and the run at it (if any) is not.
   */
  function ChainFrom(runs: seq<Individual>, i: nat): (n: nat)
    requires i <= |runs|
    ensures i <= n <= |runs|
    ensures forall j :: i <= j < n ==> Le(Previous(runs, j), runs[j].fitness)
    ensures n < |runs| ==> !Le(Previous(runs, n), runs[n].fitness)
    decreases |runs| - i
  {
    if i == |runs| || !Le(Previous(runs, i), runs[i].fitness) then i
    else ChainFrom(runs, i + 1)
  }

  /** How many run results the driver accepts. */
  function Accepted(runs: seq<Individual>): nat {
    ChainFrom(runs, 0)
  }

  /** What the driver returns: the last accepted run, or the initial empty individual if none is accepted. */
  function DriverBest(runs: seq<Individual>): Individual {
    var m := Accepted(runs);
    if m == 0 then Empty else runs[m - 1]
  }

  /**
   * The loop of `main` over the given run results. It returns `None` when the
   * runs are used up while still improving (the source would run again), and
   * otherwise the accepted best together with the number of runs launched.
   */
  method Drive(runs: seq<Individual>) returns (result: Option<Individual>, launched: nat)
    ensures launched <= |runs|
    ensures result.None? <==> Accepted(runs) == |runs|
    ensures result.None? ==> launched == |runs|
    ensures result.Some? ==> result.value == DriverBest(runs) && launched == Accepted(runs) + 1
  {
    if |runs| == 0 {
      return None, 0;
    }
    var lastBest := runs[0];
    var best := Empty;
    launched := 1;
    while Le(best.fitness, lastBest.fitness)
      invariant 1 <= launched <= |runs|
      invariant lastBest == runs[launched - 1]
      invariant best == if launched == 1 then Empty else runs[launched - 2]
      invariant forall j :: 0 <= j < launched - 1 ==> Le(Previous(runs, j), runs[j].fitness)
      decreases |runs| - launched
    {
      best := lastBest;
      if launched == |runs| {
        return None, launched;
      }
      lastBest := runs[launched];
      launched := launched + 1;
    }
    result := Some(best);
  }

  /** Every accepted run is at least as fit as 0.0. */
  lemma {:induction false} AcceptedAboveZero(runs: seq<Individual>, j: nat)
    requires j < Accepted(runs)
    ensures Le(Zero, runs[j].fitness)
  {
    if j > 0 {
      AcceptedAboveZero(runs, j - 1);
      OrderFacts(Zero, runs[j - 1].fitness, runs[j].fitness);
    }
  }

  /** The fitnesses of the accepted runs never decrease. */
  lemma {:induction false} AcceptedNondecreasing(runs: seq<Individual>, i: nat, j: nat)
    requires i <= j < Accepted(runs)
    ensures Le(runs[i].fitness, runs[j].fitness)
  {
    if i == j {
      AcceptedAboveZero(runs, i);
      OrderFacts(runs[i].fitness, runs[i].fitness, runs[i].fitness);
    } else {
      AcceptedNondecreasing(runs, i, j - 1);
      OrderFacts(runs[i].fitness, runs[j - 1].fitness, runs[j].fitness);
    }
  }

  /**
   * The returned best is the empty individual (when the first run is below
   * 0.0) or one of the runs, and its fitness is at least 0.0.
   */
  lemma DriverBestFacts(runs: seq<Individual>)
    ensures DriverBest(runs) == Empty || DriverBest(runs) in runs
    ensures Accepted(runs) == 0 ==> DriverBest(runs) == Empty
    ensures Le(Zero, DriverBest(runs).fitness)
  {
    if Accepted(runs) > 0 {
      AcceptedAboveZero(runs, Accepted(runs) - 1);
    }
  }

  /** On exit the latest run is strictly less fit than the returned best, unless its fitness is NaN. */
  lemma ExitIsStrictDrop(runs: seq<Individual>)
    requires Accepted(runs) < |runs|
    requires !runs[Accepted(runs)].fitness.NaN?
    ensures Lt(runs[Accepted(runs)].fitness, DriverBest(runs).fitness)
  {
    DriverBestFacts(runs);
    OrderFacts(runs[Accepted(runs)].fitness, DriverBest(runs).fitness, Zero);
  }

  /** Ties continue the loop: runs that all reach the same fitness (at least 0.0) are all accepted. */
  lemma TiesContinue(runs: seq<Individual>, f: Float)
    requires Le(Zero, f)
    requires forall j :: 0 <= j < |runs| ==> runs[j].fitness == f
    ensures Accepted(runs) == |runs|
  {
    if Accepted(runs) < |runs| {
      OrderFacts(f, f, f);
    }
  }
}
