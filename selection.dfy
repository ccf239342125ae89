/** Tournament selection: TOURNAMENT_SIZE members drawn with replacement;
    the one with the lowest fitness wins, the earliest drawn on ties. */
module Selection {
  import opened Types
  import opened Sorting

  predicate ValidTournamentDraws(draws: seq<real>) {
    |draws| == TOURNAMENT_SIZE && forall j :: 0 <= j < |draws| ==> IsDraw(draws[j])
  }

  /** The sampled members, in the order they were drawn. */
  function Tournament(pop: seq<Individual>, draws: seq<real>): (t: seq<Individual>)
    requires |pop| > 0 && ValidTournamentDraws(draws)
    ensures |t| == TOURNAMENT_SIZE
    ensures forall j :: 0 <= j < |t| ==> t[j] in pop
  {
    seq(TOURNAMENT_SIZE, j requires 0 <= j < TOURNAMENT_SIZE => pop[RandomIndex(draws[j], |pop|)])
  }

  /** The head of the stably sorted tournament. */
  function Winner(pop: seq<Individual>, draws: seq<real>): (w: Individual)
    requires |pop| > 0 && Evaluated(pop) && ValidTournamentDraws(draws)
    ensures w in pop && w.fitness.Some?
    ensures forall j :: 0 <= j < TOURNAMENT_SIZE ==> Fit(w) <= Fit(Tournament(pop, draws)[j])
    ensures exists j :: 0 <= j < TOURNAMENT_SIZE && w == Tournament(pop, draws)[j]
                     && forall i :: 0 <= i < j ==> Fit(w) < Fit(Tournament(pop, draws)[i])
  {
    var t := Tournament(pop, draws);
    SortHeadIsFirstMinimum(t);
    var first := FirstMinimum(t);
    assert t[first] in pop;
    SortByFitness(t)[0]
  }

  /** selectParent: fills a tournament array by sampling, sorts it, returns its head.
      The population array is only read. */
  method SelectParent(population: array<Individual>, draws: seq<real>) returns (winner: Individual)
    requires population.Length > 0 && Evaluated(population[..]) && ValidTournamentDraws(draws)
    ensures winner == Winner(population[..], draws)
  {
    var tournament := new Individual[TOURNAMENT_SIZE];
    var i := 0;
    while i < TOURNAMENT_SIZE
      invariant 0 <= i <= TOURNAMENT_SIZE
      invariant forall k :: 0 <= k < i ==> tournament[k] == population[RandomIndex(draws[k], population.Length)]
    {
      var randomIndex := RandomIndex(draws[i], population.Length);
      tournament[i] := population[randomIndex];
      i := i + 1;
    }
    assert tournament[..] == Tournament(population[..], draws);
    SortInPlace(tournament);
    winner := tournament[0];
  }
}
