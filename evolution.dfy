/** The generation loop: initial population, evaluation, ranking, reproduction. */
module Evolution {
  import opened Types
  import opened Creation
  import opened Fitness
  import opened Sorting
  import opened Selection
  import opened Reproduction
  import opened Palette

  /** `Array.from({ length: POPULATION_SIZE }, () => createIndividual(colors))`. */
  function InitialPopulation(colors: seq<Color>, draws: seq<seq<TriangleDraw>>): (pop: seq<Individual>)
    requires |colors| > 0 && |draws| == POPULATION_SIZE
    requires forall k :: 0 <= k < |draws| ==> ValidGenomeDraws(draws[k])
    ensures |pop| == POPULATION_SIZE
    ensures forall k :: 0 <= k < |pop| ==> ValidGenome(pop[k].genome, colors) && pop[k].fitness == None
  {
    seq(POPULATION_SIZE, k requires 0 <= k < POPULATION_SIZE => CreateIndividual(colors, draws[k]))
  }

  /** Every draw that producing one child consumes. */
  datatype ChildDraws = ChildDraws(
    parent1: seq<real>, parent2: seq<real>, point: real,
    mutation: seq<real>, replacements: seq<TriangleDraw>)

  predicate ValidChildDraws(d: ChildDraws) {
    ValidTournamentDraws(d.parent1) && ValidTournamentDraws(d.parent2) && IsDraw(d.point)
    && ValidMutationDraws(d.mutation, d.replacements, MAX_TRIANGLES)
  }

  /** The genome invariant, for a whole population. */
  predicate ValidPopulation(pop: seq<Individual>, palette: seq<Color>) {
    forall k :: 0 <= k < |pop| ==> ValidGenome(pop[k].genome, palette)
  }

  /** One child: two tournament winners, crossed at the drawn point, then mutated. */
  function Offspring(pop: seq<Individual>, colors: seq<Color>, d: ChildDraws): (child: Individual)
    requires |pop| > 0 && Evaluated(pop) && ValidPopulation(pop, colors) && |colors| > 0 && ValidChildDraws(d)
    ensures ValidGenome(child.genome, colors) && child.fitness == None
  {
    var parent1 := Winner(pop, d.parent1);
    var parent2 := Winner(pop, d.parent2);
    var crossed := CrossGenome(parent1.genome, parent2.genome, CrossoverPoint(d.point));
    Individual(MutatedGenome(crossed, colors, d.mutation, d.replacements), None)
  }

  /** The population with every individual's fitness set from its rendering. */
  function Scored(pop: seq<Individual>, target: seq<Byte>, render: Genome -> seq<Byte>): (s: seq<Individual>)
    requires |target| == BUFFER_LENGTH && forall g :: |render(g)| == BUFFER_LENGTH
    ensures |s| == |pop| && Evaluated(s)
    ensures forall k :: 0 <= k < |s| ==> s[k].genome == pop[k].genome
  {
    seq(|pop|, k requires 0 <= k < |pop| =>
      pop[k].(fitness := Some(ImageDistance(target, render(pop[k].genome)))))
  }

  /** What ranking a scored population gives: sorted, still valid, and headed
      by an individual whose fitness is no worse than anyone's. */
  lemma RankedPopulation(pop: seq<Individual>, palette: seq<Color>, target: seq<Byte>, render: Genome -> seq<Byte>)
    requires |pop| > 0 && ValidPopulation(pop, palette)
    requires |target| == BUFFER_LENGTH && forall g :: |render(g)| == BUFFER_LENGTH
    ensures var ranked := SortByFitness(Scored(pop, target, render));
      SortedByFitness(ranked) && ValidPopulation(ranked, palette)
      && forall k :: 0 <= k < |pop| ==> Fit(ranked[0]) <= ImageDistance(target, render(pop[k].genome))
  {
    var scored := Scored(pop, target, render);
    var ranked := SortByFitness(scored);
    SortSorts(scored);
    SortPermutes(scored);
    SortHeadIsFirstMinimum(scored);
    forall k | 0 <= k < |ranked|
      ensures ValidGenome(ranked[k].genome, palette)
    {
      assert ranked[k] in multiset(scored);
      var i :| 0 <= i < |scored| && scored[i] == ranked[k];
    }
    forall k | 0 <= k < |pop|
      ensures Fit(ranked[0]) <= ImageDistance(target, render(pop[k].genome))
    {
      assert Fit(scored[k]) == ImageDistance(target, render(pop[k].genome));
    }
  }

  /** The reproduction loop of one generation: POPULATION_SIZE children of the ranked population. */
  method Reproduce(population: array<Individual>, colors: seq<Color>, draws: seq<ChildDraws>)
    returns (newPopulation: seq<Individual>)
    requires population.Length > 0 && Evaluated(population[..]) && ValidPopulation(population[..], colors)
    requires |colors| > 0 && |draws| == POPULATION_SIZE
    requires forall k :: 0 <= k < |draws| ==> ValidChildDraws(draws[k])
    ensures |newPopulation| == POPULATION_SIZE
    ensures forall k :: 0 <= k < POPULATION_SIZE ==> newPopulation[k] == Offspring(population[..], colors, draws[k])
    ensures ValidPopulation(newPopulation, colors)
    ensures forall k :: 0 <= k < POPULATION_SIZE ==> newPopulation[k].fitness == None
  {
    newPopulation := [];
    while |newPopulation| < POPULATION_SIZE
      invariant |newPopulation| <= POPULATION_SIZE
      invariant forall k :: 0 <= k < |newPopulation| ==> newPopulation[k] == Offspring(population[..], colors, draws[k])
    {
      var d := draws[|newPopulation|];
      var parent1 := SelectParent(population, d.parent1);
      var parent2 := SelectParent(population, d.parent2);
      var child := Crossover(parent1, parent2, d.point);
      child := Mutate(child, colors, d.mutation, d.replacements);
      newPopulation := newPopulation + [child];
    }
  }

  /** The colour of each gene after the source's mutation pass with palette
      `colors`: a gene whose draw is below MUTATION_RATE takes the colour
      `randomTriangle(colors)` picks, None standing for `undefined`. */
  function MutatedColorsAsWritten(g: Genome, colors: seq<Color>, rates: seq<real>, replacements: seq<TriangleDraw>)
    : (cs: seq<Option<Color>>)
    requires ValidMutationDraws(rates, replacements, |g|)
    ensures |cs| == |g|
  {
    seq(|g|, i requires 0 <= i < |g| =>
      if rates[i] < MUTATION_RATE then PickColor(colors, replacements[i].color) else Some(g[i].color))
  }

  /** As written, evolve mutates with the `colors` state captured when the effect
      first ran, which is still the initial empty array: every gene that a
      first-run mutation replaces is left with colour `undefined`, which is no
      palette colour, while the untouched genes keep theirs. */
  lemma FirstRunMutationUncoloured(g: Genome, rates: seq<real>, replacements: seq<TriangleDraw>)
    requires ValidMutationDraws(rates, replacements, |g|)
    ensures forall i :: 0 <= i < |g| ==>
              MutatedColorsAsWritten(g, [], rates, replacements)[i]
              == if rates[i] < MUTATION_RATE then None else Some(g[i].color)
  {
  }

  /** With a non-empty palette the source's mutation and Mutate agree: every
      gene gets a colour, and it is the colour of the corrected mutated genome. */
  lemma PaletteMutationColored(g: Genome, colors: seq<Color>, rates: seq<real>, replacements: seq<TriangleDraw>)
    requires |colors| > 0 && ValidMutationDraws(rates, replacements, |g|)
    ensures forall i :: 0 <= i < |g| ==>
              MutatedColorsAsWritten(g, colors, rates, replacements)[i]
              == Some(MutatedGenome(g, colors, rates, replacements)[i].color)
  {
  }

  /** The engine's state between generations. */
  class Engine {
    const target: seq<Byte>
    const palette: seq<Color>
    var population: array<Individual>
    var generation: nat
    var bestFitness: Option<nat>

    ghost predicate Valid()
      reads this, population
    {
      |target| == BUFFER_LENGTH && |palette| > 0
      && population.Length == POPULATION_SIZE
      && ValidPopulation(population[..], palette)
    }

    /** The image's onload handler: palette extraction and the initial population. */
    constructor Start(targetData: seq<Byte>, draws: seq<seq<TriangleDraw>>)
      requires |targetData| == BUFFER_LENGTH && |draws| == POPULATION_SIZE
      requires forall k :: 0 <= k < |draws| ==> ValidGenomeDraws(draws[k])
      ensures Valid() && fresh(population)
      ensures target == targetData
      ensures |palette| == |targetData| / 4 && ColorBytes(palette) == targetData
      ensures population[..] == InitialPopulation(palette, draws)
      ensures generation == 0 && bestFitness == None
    {
      target := targetData;
      var colorSamples := ExtractPalette(targetData);
      palette := colorSamples;
      var initial := InitialPopulation(colorSamples, draws);
      population := new Individual[POPULATION_SIZE](k requires 0 <= k < POPULATION_SIZE => initial[k]);
      generation := 0;
      bestFitness := None;
    }

    /** Scores every individual in place. */
    method Evaluate(render: Genome -> seq<Byte>)
      requires Valid() && forall g :: |render(g)| == BUFFER_LENGTH
      modifies population
      ensures Valid()
      ensures population[..] == Scored(old(population[..]), target, render)
    {
      ghost var before := population[..];
      var i := 0;
      while i < population.Length
        invariant 0 <= i <= population.Length
        invariant forall k :: 0 <= k < i ==> population[k] == Scored(before, target, render)[k]
        invariant forall k :: i <= k < population.Length ==> population[k] == before[k]
      {
        var fitness := CalculateFitness(target, render(population[i].genome));
        population[i] := population[i].(fitness := Some(fitness));
        i := i + 1;
      }
    }

    /** The first half of evolve: score everyone, sort ascending, report the head's fitness. */
    method RankAndReport(render: Genome -> seq<Byte>)
      requires Valid() && forall g :: |render(g)| == BUFFER_LENGTH
      modifies population, this`bestFitness
      ensures Valid() && Evaluated(population[..]) && SortedByFitness(population[..])
      ensures population[..] == SortByFitness(Scored(old(population[..]), target, render))
      ensures bestFitness == population[0].fitness
      ensures forall k :: 0 <= k < POPULATION_SIZE ==>
                bestFitness.Some? && bestFitness.value <= ImageDistance(target, render(old(population[k]).genome))
    {
      ghost var initial := population[..];
      Evaluate(render);
      SortInPlace(population);
      RankedPopulation(initial, palette, target, render);
      var bestIndividual := population[0];
      bestFitness := bestIndividual.fitness;
    }

    /** evolve: rank and report, replace the population with POPULATION_SIZE
        children of the ranked one, count the generation. */
    method Evolve(render: Genome -> seq<Byte>, draws: seq<ChildDraws>)
      requires Valid() && forall g :: |render(g)| == BUFFER_LENGTH
      requires |draws| == POPULATION_SIZE && forall k :: 0 <= k < |draws| ==> ValidChildDraws(draws[k])
      modifies this, population
      ensures Valid() && fresh(population)
      ensures generation == old(generation) + 1
      ensures old(population)[..] == SortByFitness(Scored(old(population[..]), target, render))
      ensures Evaluated(old(population)[..]) && SortedByFitness(old(population)[..])
      ensures ValidPopulation(old(population)[..], palette)
      ensures bestFitness == old(population)[0].fitness
      ensures forall k :: 0 <= k < POPULATION_SIZE ==>
                bestFitness.Some? && bestFitness.value <= ImageDistance(target, render(old(population[k]).genome))
      ensures forall k :: 0 <= k < POPULATION_SIZE ==> population[k] == Offspring(old(population)[..], palette, draws[k])
    {
      RankAndReport(render);
      var newPopulation := Reproduce(population, palette, draws);
      population := new Individual[POPULATION_SIZE](k requires 0 <= k < POPULATION_SIZE => newPopulation[k]);
      generation := generation + 1;
    }
  }
}
