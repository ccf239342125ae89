/** Single-point crossover and per-gene mutation. */
module Reproduction {
  import opened Types
  import opened Creation

  /** `Math.floor(Math.random() * MAX_TRIANGLES)`. */
  function CrossoverPoint(r: real): (c: nat)
    requires IsDraw(r)
    ensures c < MAX_TRIANGLES
  {
    RandomIndex(r, MAX_TRIANGLES)
  }

  /** The child genome of a crossover at point `c`. */
  function CrossGenome(g1: Genome, g2: Genome, c: nat): Genome
    requires |g1| >= MAX_TRIANGLES && |g2| >= MAX_TRIANGLES
  {
    seq(MAX_TRIANGLES, i requires 0 <= i < MAX_TRIANGLES => if i < c then g1[i] else g2[i])
  }

  /** crossover: the child takes genes below the point from parent1, the rest from parent2. */
  method Crossover(parent1: Individual, parent2: Individual, draw: real) returns (child: Individual)
    requires |parent1.genome| >= MAX_TRIANGLES && |parent2.genome| >= MAX_TRIANGLES && IsDraw(draw)
    ensures child.fitness == None && |child.genome| == MAX_TRIANGLES
    ensures forall i :: 0 <= i < CrossoverPoint(draw) ==> child.genome[i] == parent1.genome[i]
    ensures forall i :: CrossoverPoint(draw) <= i < MAX_TRIANGLES ==> child.genome[i] == parent2.genome[i]
    ensures CrossoverPoint(draw) == 0 ==> child.genome == parent2.genome[..MAX_TRIANGLES]
    ensures child.genome == CrossGenome(parent1.genome, parent2.genome, CrossoverPoint(draw))
  {
    child := Individual([], None);
    var crossoverPoint := CrossoverPoint(draw);
    var i := 0;
    while i < MAX_TRIANGLES
      invariant 0 <= i <= MAX_TRIANGLES && |child.genome| == i && child.fitness == None
      invariant forall k :: 0 <= k < i ==> child.genome[k] == if k < crossoverPoint then parent1.genome[k] else parent2.genome[k]
    {
      child := child.(genome := child.genome + [if i < crossoverPoint then parent1.genome[i] else parent2.genome[i]]);
      i := i + 1;
    }
  }

  /** Per-gene draws of one mutation pass: the test draw and a fresh triangle's draws. */
  predicate ValidMutationDraws(rates: seq<real>, replacements: seq<TriangleDraw>, n: nat) {
    |rates| == n && |replacements| == n && forall i :: 0 <= i < n ==> IsDraw(rates[i]) && ValidDraw(replacements[i])
  }

  /** The genome after a mutation pass. */
  function MutatedGenome(g: Genome, colors: seq<Color>, rates: seq<real>, replacements: seq<TriangleDraw>): Genome
    requires |colors| > 0 && ValidMutationDraws(rates, replacements, |g|)
  {
    seq(|g|, i requires 0 <= i < |g| => if rates[i] < MUTATION_RATE then RandomTriangle(colors, replacements[i]) else g[i])
  }

  /** mutate: each gene whose draw is below MUTATION_RATE is replaced by a fresh
      random triangle; every other gene is left as it was. */
  method Mutate(individual: Individual, colors: seq<Color>, rates: seq<real>, replacements: seq<TriangleDraw>)
    returns (mutated: Individual)
    requires |colors| > 0 && ValidMutationDraws(rates, replacements, |individual.genome|)
    ensures mutated.fitness == individual.fitness && |mutated.genome| == |individual.genome|
    ensures forall i :: 0 <= i < |individual.genome| && rates[i] < MUTATION_RATE ==>
              mutated.genome[i] == RandomTriangle(colors, replacements[i])
    ensures forall i :: 0 <= i < |individual.genome| && rates[i] >= MUTATION_RATE ==>
              mutated.genome[i] == individual.genome[i]
    ensures ValidGenome(individual.genome, colors) ==> ValidGenome(mutated.genome, colors)
    ensures mutated.genome == MutatedGenome(individual.genome, colors, rates, replacements)
  {
    mutated := individual;
    var index := 0;
    while index < |mutated.genome|
      invariant 0 <= index <= |mutated.genome| == |individual.genome|
      invariant mutated.fitness == individual.fitness
      invariant forall i :: 0 <= i < index ==>
                  mutated.genome[i] == if rates[i] < MUTATION_RATE then RandomTriangle(colors, replacements[i]) else individual.genome[i]
      invariant forall i :: index <= i < |mutated.genome| ==> mutated.genome[i] == individual.genome[i]
    {
      if rates[index] < MUTATION_RATE {
        mutated := mutated.(genome := mutated.genome[index := RandomTriangle(colors, replacements[index])]);
      }
      index := index + 1;
    }
  }
}
