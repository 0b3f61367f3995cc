# A verified model of a Rust genetic algorithm

This project models the optimiser in `src/ga.rs` in Dafny. It also models the
restart loop of `src/main.rs` that drives it.

One run of `ga` does the following:

- It generates `pop_size` random individuals. Each has `chromosome_size` genes
  drawn from `[min_val, max_val)`.
- It evaluates and ranks them, fittest first.
- It then runs `nofit` generations. Each generation:
  - selects `pop_size / 2` parent pairs by comparing one random number with each
    individual's share of the total fitness;
  - breeds one child per pair by a bitwise AND of the parents' gene bit patterns,
    clamped into range;
  - puts the children in place of the least fit individuals;
  - rolls every individual against `mut_rat` and mutates it if the roll is below
    it, which flips one random bit position in every gene and clamps;
  - re-evaluates and re-ranks the population.
- It returns `pop[0]` of the final ranking, or the empty individual with
  fitness 0.0 when `nofit <= 0`.

The driver in `main` restarts the optimiser while each new run is at least as
fit as the best accepted so far. It reports the last accepted result, or the
initial empty individual (fitness 0.0) when the first run is below 0.0 or NaN.

## How the model is built

- **Numbers (module `F64`).** A gene is kept as its IEEE-754 binary64 bit
  pattern (`bv64`), so `to_bits` and `from_bits` are the identity. `F64.Value`
  decodes a pattern exactly into `Finite(real)`, `PosInf`, `NegInf` or `NaN`.
  Comparisons follow IEEE-754: every comparison that involves NaN is false.
  Fitness values are decoded numbers.
- **Randomness.** Every random draw is a parameter, constrained to the range
  the source draws from:
  - `SelectionDraw`: the number `random()` returns in `select`, and the pick
    `choose` returns;
  - `MutationDraw`: the number `random()` returns in `mutate`, and the bit
    position it leads to;
  - `GenerationDraws`: every draw one generation consumes;
  - the genes of the initial population.
- **The fitness function** is a parameter `seq<Bits> -> Float`.
- **State changed in place** is modelled imperatively. The population is an
  `array<Individual>`, and each method that updates it states its new contents:
  - `Evaluate` leaves `Evaluated` of the old contents;
  - `ReverseInPlace` leaves `Reversed` of the old contents;
  - `SpliceFront` leaves the children followed by the old contents from index
    `|children|` on, so reverse, splice and reverse together leave `Replaced`;
  - `MutationPass` leaves `MutatedPopulation` of the old contents;
  - `Rank` leaves a sorted stable permutation of the old contents. This
    determines the result: two such rankings of the same contents are equal
    (`RankingIsUnique`), so a run's whole history is a function of its draws
    (`TracesAgree`).
- **A run's history.** `GA` returns, as ghost results, every ranked population
  of the run and the parent pairs each generation chose. `Engine.Trace` ties
  them to the inputs: the first entry ranks the evaluated initial population,
  and each later entry ranks what one generation made of the entry before it,
  with that generation's draws.
- **Panics.** A Rust panic is the outcome `Engine.Outcome.Panic` and is not
  excluded by a precondition. `ga` panics in three cases:
  - `gen_range` is asked for a gene from an empty range;
  - `rank` compares a NaN fitness with `partial_cmp(..).unwrap()`, which happens
    exactly when there are two or more individuals and one fitness is NaN;
  - `pop[0]` is read from an empty population.
- **Two clamps.** The two clamps in the source differ, and the model keeps both:
  - crossover returns as soon as the gene is below `min_val` (`ClampEarly`);
  - mutation applies both tests in turn (`ClampStepwise`).

  With `min_val > max_val` a gene below `min_val` therefore ends at `min_val`
  after crossover but at `max_val` after mutation. `ClampsAgree` shows the two
  coincide whenever `max_val < min_val` does not hold.

## Model

| member | source | states |
|---|---|---|
| F64.Value | src/ga.rs:43 | decoding a bit pattern gives NaN exactly when the exponent field is all ones and the fraction is non-zero |
| F64.Add | src/ga.rs:106 | the sum of two fitnesses is NaN exactly when an operand is NaN or infinities of opposite sign meet, and is the exact sum of finite operands |
| F64.Div | src/ga.rs:30 | 0.0 / 0.0 is NaN, and finite operands with a non-zero divisor give the exact quotient |
| F64.OrderFacts | src/ga.rs:22 | on values other than NaN, `<=` is reflexive, total and transitive, and `<` is its strict part, so the comparator is a total order there |
| F64.NaNIsUnordered | src/ga.rs:22 | both `<` and `<=` are false once one side is NaN |
| F64.AndKeepsNumbers | src/ga.rs:43 | the AND of two patterns is never NaN when the first one's exponent is not all ones |
| F64.FlippingAnExponentBitCanYieldNaN | src/ga.rs:69 | 1.5 with bit 62 flipped is a NaN pattern |
| Population.GenPop | src/ga.rs:8-13 | the population has `pop_size` members, each with the drawn genes, `chromosome_size` of them, fitness 0.0, and every gene a number within [min_val, max_val] |
| Population.EvaluatedFacts | src/ga.rs:15-19 | evaluation keeps the length and every chromosome and sets each fitness to the fitness function of that chromosome |
| Population.Evaluate | src/ga.rs:15-19 | the array afterwards holds exactly the evaluated old contents |
| Population.TotalFitness | src/ga.rs:106 | the sum of fitnesses is NaN when any fitness is NaN, and finite when every fitness is finite |
| Population.TotalOfZeros | src/ga.rs:106 | the sum of fitnesses over a population whose fitnesses are all 0.0 is 0.0 |
| Population.EvaluatedNeverPanics | src/ga.rs:94-95 | with a fitness function that never returns NaN, ranking an evaluated population never panics |
| Population.TiesAppend | src/ga.rs:22 | the members of a given fitness in a concatenation are those of each part, in order |
| Population.SwapKeepsTies | src/ga.rs:22 | swapping two neighbours of different fitness keeps every group of equal fitness in its order |
| Population.CountInTies | src/ga.rs:22 | every copy of an individual lies in the group of its own fitness |
| Population.StablePermutationIsPermutation | src/ga.rs:22 | a reordering that keeps each group of equal fitness in order is a permutation |
| Population.SwapStep | src/ga.rs:22 | moving an individual forward past a strictly less fit one keeps the insertion step's ordering facts |
| Population.StopInserting | src/ga.rs:22 | once an individual meets a predecessor at least as fit, the prefix up to it is in non-increasing order |
| Population.SameTiesSameOrder | src/ga.rs:22 | two sequences in non-increasing fitness order with the same groups of equal fitness are equal |
| Population.Rank | src/ga.rs:21-23 | the array ends in non-increasing fitness order, a stable permutation of the old contents (equal fitnesses keep their order) and a permutation; it may be called only when the sort does not panic |
| Reproduction.FirstQualifying | src/ga.rs:29-35 | the result is the first index from the start position whose share exceeds the draw, or none if no index qualifies |
| Reproduction.Select | src/ga.rs:25-38 | the returned index is in range and is the first qualifying individual, or the fallback pick if none qualifies |
| Reproduction.SelectedFacts | src/ga.rs:25-38 | the selection is a member; it qualifies and no earlier one does whenever some individual qualifies; otherwise it is the fallback pick |
| Reproduction.AllZeroFitnessFallsBack | src/ga.rs:30-37 | when every fitness is 0.0, selection with the population's own sum of fitnesses (0.0) finds each share NaN and always takes the fallback pick |
| Reproduction.ClampEarly | src/ga.rs:45-53 | NaN passes through; a gene within range is kept; with min_val <= max_val every number ends within range; the result is the gene, min_val or max_val |
| Reproduction.ClampStepwise | src/ga.rs:71-79 | the same four facts for the sequential clamp of `mutate` |
| Reproduction.ClampsAgree | src/ga.rs:45-77 | the two clamps give the same gene unless max_val < min_val |
| Reproduction.Crossover | src/ga.rs:40-57 | the child has `chromosome_size` genes, fitness 0.0, and gene j is the clamped AND of the parents' genes j |
| Reproduction.CrossoverSymmetric | src/ga.rs:43 | swapping the parents gives the same child |
| Reproduction.CrossoverWithSelf | src/ga.rs:40-57 | crossing a parent with itself clamps its own genes, and returns its genes unchanged when they are already in range |
| Reproduction.CrossoverOfNumbersIsWithin | src/ga.rs:43-53 | a child gene is within range when the first parent's gene is not NaN or infinite and min_val <= max_val |
| Reproduction.CrossoverKeepsGenesWithinOrNaN | src/ga.rs:40-57 | with min_val <= max_val every child gene is within range or NaN |
| Reproduction.BitRange | src/ga.rs:61-64 | the tier of bit positions for a draw: [0, 32) up to 0.75, [31, 48) up to 0.90, [47, 64) above; always within 64 bits |
| Reproduction.TiersCoverAllBits | src/ga.rs:60-64 | every bit position 0..63 can be drawn, and positions 31 and 47 lie in two tiers |
| Reproduction.MutationFacts | src/ga.rs:59-81 | mutation keeps the chromosome length and the stale fitness, and with min_val <= max_val keeps every gene within range or NaN |
| Reproduction.MutationTwiceRestores | src/ga.rs:66-69 | when no flipped gene needs clamping, mutating twice at the same bit restores the individual |
| Reproduction.MutationCanLeaveRange | src/ga.rs:69-79 | a valid draw at bit 62 turns the number 1.5 into a NaN that clamping lets through, outside every range |
| Reproduction.Mutate | src/ga.rs:59-81 | the result is the individual with the drawn bit of every gene flipped and each gene clamped |
| Engine.ReversedTwice | src/ga.rs:137-141 | reversing twice restores the order |
| Engine.ReverseInPlace | src/ga.rs:137 | the array afterwards holds the old contents reversed |
| Engine.SpliceFront | src/ga.rs:139 | the array afterwards holds the children followed by the old contents from index |children| on |
| Engine.NoChildrenKeepsPopulation | src/ga.rs:137-141 | with no children, as when `pop_size < 2`, reverse, splice and reverse leave the population unchanged |
| Engine.ReplacementEffects | src/ga.rs:137-141 | replacement keeps the length and the first n - k individuals, and puts the k children at the tail in reverse order |
| Engine.ReplacementIsElitist | src/ga.rs:137-141 | on a ranked population every individual that stays is at least as fit as every one replaced |
| Engine.SelectParents | src/ga.rs:110-116 | `pop_size / 2` pairs, pair c being the selections of draws 2c and 2c+1, all valid indices |
| Engine.MutationPass | src/ga.rs:147-159 | the array afterwards holds each old individual, mutated exactly when its roll is below `mut_rat` |
| Engine.PermutationKeepsMembers | src/ga.rs:166 | every member of a permutation satisfies what every member of the original does |
| Engine.Offspring | src/ga.rs:122-134 | one child per parent pair, each with `chromosome_size` genes and fitness 0.0, and with min_val <= max_val every gene within range or NaN |
| Engine.ReplacedShaped | src/ga.rs:137-141 | replacing with such children keeps every individual so shaped |
| Engine.MutatedShaped | src/ga.rs:147-159 | the mutation pass keeps every individual so shaped |
| Engine.UnrankedMembersOk | src/ga.rs:105-165 | every member of the next, not yet ranked population is so shaped and has its fitness current |
| Engine.RunGeneration | src/ga.rs:105-172 | parents are the selections of the draws; the step panics exactly when re-ranking meets a NaN, never with a fitness function free of NaN; otherwise the population is a stable ranking of the evaluated, mutated, replaced population and stays ranked, shaped and evaluated |
| Engine.Initialise | src/ga.rs:89-95 | the first population panics at ranking exactly when its evaluation holds a NaN and there are two or more members; otherwise it is a stable ranking of the evaluated generated population |
| Engine.RankingIsUnique | src/ga.rs:21-23 | the stable descending sort leaves exactly one possible order: two rankings of the same population are equal |
| Engine.TracesAgree | src/ga.rs:83-178 | two runs with the same inputs and the same draws have the same populations and the same parents, generation by generation |
| Engine.NextGeneration | src/ga.rs:100-174 | one pass either extends the run's trace by the ranked result of a generation, or stops with the generation's ranking panic or with an empty population at `pop[0]`; it never stops with a population and a fitness free of NaN |
| Engine.Evolve | src/ga.rs:99-175 | the loop runs every generation and returns `pop[0]` of the last one, whose population is the last entry of a full trace, or stops at the first panicking generation; with no generations the result is the empty individual |
| Engine.GA | src/ga.rs:83-178 | the run panics when the gene range is empty, when the first ranking panics, or at the first generation whose ranking panics or whose population is empty; otherwise the history is a trace of every generation, from the ranked evaluated initial population through each generation's draws, and the result is the empty individual (no generations) or `pop[0]` of the last history entry: at least as fit as every member, with `chromosome_size` genes each within range or NaN and an up-to-date fitness; a run with a population (or no generations) and a fitness free of NaN finishes |
| Driver.ChainFrom | src/main.rs:26-29 | the runs before the returned position are each at least as fit as the one before (0.0 before the first), and the run at it is not |
| Driver.Drive | src/main.rs:23-29 | the loop stops exactly when some run is less fit than (or unordered with) the accepted best; it then returns the last accepted run, or the empty individual when none is accepted, after launching one more run than were accepted |
| Driver.AcceptedAboveZero | src/main.rs:24-26 | every accepted run has fitness at least 0.0 |
| Driver.AcceptedNondecreasing | src/main.rs:26-29 | the fitnesses of accepted runs never decrease |
| Driver.DriverBestFacts | src/main.rs:24-29 | the reported best is the empty individual or one of the runs, and its fitness is at least 0.0 |
| Driver.ExitIsStrictDrop | src/main.rs:26 | the run that ends the loop is strictly less fit than the reported best unless its fitness is NaN |
| Driver.TiesContinue | src/main.rs:26 | runs that all reach the same non-negative fitness never end the loop |

## Left out

- Logging: every `println!` in `ga` and `main` is output only and is not modelled.
- Configuration: the compile-time environment variables read in `main` are not modelled. Their values are the parameters of `GA`.
- The demonstration fitness polynomial in `main` is not modelled; `GA` takes any fitness function as a parameter.
- Random number generation: every draw is a parameter constrained to its range. The distributions are not modelled.
- Rounding and overflow: sums and quotients of fitnesses are exact real arithmetic, so `F64.Add` and `F64.Div` neither round as `f64` does nor overflow to ±infinity (in `f64`, 1e308 + 1e308 is +infinity).
- Population.TotalFitness: its finite result for finite fitnesses relies on that exact arithmetic. In `f64` finite fitnesses can sum to ±infinity, every share `fitness / sum` is then 0.0 (or NaN), and `select` always takes the `choose` fallback; the model does not capture this.
- Signed zero: +0.0 and -0.0 both decode to 0.0. A zero divisor is treated as +0.0.
- The tier thresholds 0.75 and 0.90 are compared as exact reals, not as the nearest `f64` values.
- `gen_range`: only its panic on an empty range is modelled. Any further checks it makes on its bounds, such as finiteness, are not.
- Driver.Drive: `main` loops for as long as runs keep improving. The model runs over a finite sequence of run results and returns `None` when that sequence is used up while still improving.
- Driver.Drive: the case where one of the repeated runs panics is not modelled; each run result is a finished individual.
- Reproduction.Crossover: requires both parents to have at least `chromosome_size` genes. The index panic at src/ga.rs:43 is not modelled because `ga` only crosses individuals of exactly that length.
- Reproduction.Select: requires a non-empty population. On an empty one `choose(..).unwrap()` panics, and `ga` never calls it then.
- Population.Rank: modelled as a stable insertion sort with its sortedness and stability proved. The merge strategy of the standard library's `sort_by` is not modelled, only its guarantee.
- Population.Rank: requires that the sort does not panic. The model's `Initialise` and `RunGeneration` test for that case before calling `Rank`, and report the Rust panic as `Engine.Outcome.Panic`.
- Reproduction.Mutate: returns the mutated individual instead of updating it through `&mut`. `Engine.MutationPass` stores it back in place.
- Engine.SelectParents: parents are kept as indices into the population instead of references.
