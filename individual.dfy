/**
 * A candidate solution: a chromosome of genes and the fitness cached for it.
 */
module Individuals {
  import opened F64

  /** `chromosome` holds the genes as `f64` bit patterns; `fitness` is 0.0 until evaluated. */
  datatype Individual = Individual(chromosome: seq<Bits>, fitness: Float)

  /** The placeholder `Individual { chromosome: vec![], fitness: 0.0 }`. */
  const Empty: Individual := Individual([], Zero)

  /** `g` lies in the closed interval [lo, hi] when both are compared as numbers. */
  predicate Within(g: Bits, lo: Bits, hi: Bits) {
    Le(Value(lo), Value(g)) && Le(Value(g), Value(hi))
  }

  /** The range invariant that clamping actually keeps: every gene is in range or is a NaN. */
  predicate GenesWithinOrNaN(c: seq<Bits>, lo: Bits, hi: Bits) {
    forall j :: 0 <= j < |c| ==> Value(c[j]).NaN? || Within(c[j], lo, hi)
  }
}
