# Evolving a triangle image: the genetic-algorithm engine

This project models, in Dafny, the evolutionary engine of a small React app
that approximates a target picture with 50 coloured triangles. The engine
keeps a population of 50 individuals. Each individual is a genome of
`MAX_TRIANGLES` triangles. A triangle has three points in the 200×200 canvas
and a colour taken from a palette, and the palette is read off the target's
pixels. One generation renders and scores every individual against the target.
The fitness is the summed absolute R, G and B difference; alpha is never read.
Then the generation sorts the population ascending by fitness (a stable sort),
reports the best fitness and breeds a new population. Each child comes from two
5-way tournaments, then single-point crossover, then per-gene mutation at rate
0.01. Last, it counts the generation.

Modules, one per component of `src/App.jsx`:

- `Types` (types.dfy): the constants, the value types (`Color`, `Point`,
  `Triangle`, `Genome`, `Individual`) and `RandomIndex`. `RandomIndex` is
  `Math.floor(r * n)` for a draw `r` in [0, 1).
- `Creation` (creation.dfy): `randomTriangle` and `createIndividual`.
- `Fitness` (fitness.dfy): the distance loop of `calculateFitness`, proved equal
  to a recursive sum over pixels, plus its bounds, its zero case and that it
  ignores alpha.
- `Sorting` (sorting.dfy): `array.sort` by fitness. `SortByFitness` is the
  reference stable sort on sequences. `SortInPlace` is an in-place insertion
  sort on the array, proved equal to it.
- `Selection` (selection.dfy): `selectParent`.
- `Reproduction` (reproduction.dfy): `crossover` and `mutate`.
- `Palette` (palette.dfy): the loop that turns each pixel into a palette colour.
- `Evolution` (evolution.dfy): the initial population, the reproduction loop,
  and the `Engine` class. `Engine` holds the population array, the generation
  counter and the best fitness, and its method `Evolve` is one generation.

The model takes every `Math.random()` result as a parameter: a real in
[0, 1), bundled per use (`TriangleDraw`, tournament draws, `ChildDraws`).
The rasterizer, `drawIndividual` followed by `getImageData`, is the parameter
`render: Genome -> seq<Byte>`, a function that returns a `BUFFER_LENGTH`-byte
RGBA buffer.

## Model

| member | source | states |
|---|---|---|
| `Types.RandomIndex` | src/App.jsx:12 | `floor(r·n)` for a draw r in [0,1) and n > 0 is a valid index below n; the same formula picks the colour, the tournament slots (line 74) and the crossover point (line 85) |
| `Creation.PickColor` | src/App.jsx:12 | with a non-empty palette the picked colour is a palette member; with an empty palette the lookup gives `undefined` (None) |
| `Creation.RandomPoint` | src/App.jsx:15-17 | a vertex scaled from two draws lies inside [0,200)×[0,200) |
| `Creation.RandomTriangle` | src/App.jsx:11-21 | a random triangle has its colour in the palette and all three points in the canvas |
| `Creation.CreateIndividual` | src/App.jsx:24-26 | a new individual has exactly MAX_TRIANGLES well-formed triangles and no fitness yet |
| `Fitness.DistanceBounds` | src/App.jsx:58-64 | the distance over n pixels is at most 3·255·n |
| `Fitness.DistanceZeroIff` | src/App.jsx:58-64 | the distance is 0 exactly when the two buffers agree on every R, G and B byte |
| `Fitness.DistanceIgnoresAlpha` | src/App.jsx:60-64 | buffers that agree on R, G and B have equal distance whatever their alpha bytes (offset 4p+3) hold |
| `Fitness.DistanceSymmetric` | src/App.jsx:61-63 | swapping target and candidate does not change the distance |
| `Fitness.CalculateFitness` | src/App.jsx:58-66 | the loop returns the sum over pixels p < len/4 of the three absolute channel differences, bounded by 765·(len/4) and 0 iff RGB agree everywhere |
| `Sorting.SortByFitness` | src/App.jsx:144 | reference sort by insertion from the right; same length, all scored (its order and stability are the lemmas below) |
| `Sorting.WithFit` | src/App.jsx:144 | the individuals of one fitness value, in input order; never longer than the input |
| `Sorting.InsertStable` | src/App.jsx:144 | one insertion keeps, for each fitness value, the order of the individuals having it, and places the new one after those of equal fitness |
| `Sorting.SortStable` | src/App.jsx:144 | stability: for every fitness value, the individuals having it appear after sorting in exactly their input order (the sort `Array.prototype.sort` guarantees) |
| `Sorting.SortPermutes` | src/App.jsx:144 | sorting is a permutation of the population (same multiset) |
| `Sorting.SortSorts` | src/App.jsx:144 | the sorted population is non-decreasing in fitness |
| `Sorting.FirstMinimum` | src/App.jsx:78-79 | the index it returns has minimal fitness, and every earlier index has strictly larger fitness |
| `Sorting.SortHeadIsFirstMinimum` | src/App.jsx:78-79 | the head of the stable sort is the first individual, in input order, of minimal fitness |
| `Sorting.SortInPlace` | src/App.jsx:144 | the in-place sort leaves the array equal to `SortByFitness` of its old contents |
| `Selection.Tournament` | src/App.jsx:72-76 | the tournament has 5 entries, each a population member drawn from its own draw (with replacement) |
| `Selection.Winner` | src/App.jsx:70-80 | the winner is a population member, is one of the 5 sampled entries, has fitness ≤ every sampled entry, and every earlier-drawn entry is strictly worse (earliest wins ties) |
| `Selection.SelectParent` | src/App.jsx:70-80 | the method fills a fresh tournament array, sorts it and returns its head, which is `Winner`; the population array is not in its frame |
| `Reproduction.CrossoverPoint` | src/App.jsx:85 | the crossover point lies in [0, MAX_TRIANGLES) |
| `Reproduction.Crossover` | src/App.jsx:83-92 | the child has MAX_TRIANGLES genes and no fitness; gene i comes from parent1 for i below the point and from parent2 otherwise; at point 0 the child is parent2's first MAX_TRIANGLES genes |
| `Reproduction.Mutate` | src/App.jsx:95-101 | the length and fitness stay the same; gene i becomes a fresh random triangle when its draw is below MUTATION_RATE and is untouched otherwise; a valid genome stays valid |
| `Palette.ColorBytes` | src/App.jsx:130-133 | flattening n colours yields 4·n bytes |
| `Palette.ExtractPalette` | src/App.jsx:127-133 | one colour per pixel, in pixel order, built from bytes 4p..4p+3; re-flattening the palette gives the buffer back |
| `Evolution.InitialPopulation` | src/App.jsx:137 | POPULATION_SIZE individuals, each with a valid genome and no fitness |
| `Evolution.Offspring` | src/App.jsx:151-155 | a child (winner of tournament 1 crossed with winner of tournament 2, then mutated) has a valid genome and no fitness |
| `Evolution.Scored` | src/App.jsx:140-142 | scoring keeps every genome and leaves every individual with a fitness |
| `Evolution.RankedPopulation` | src/App.jsx:144-147 | the ranked population is sorted and still valid, and its head's fitness is ≤ the fitness of every individual |
| `Evolution.Reproduce` | src/App.jsx:149-156 | the loop yields exactly POPULATION_SIZE children; child k is `Offspring` of the ranked population under draw k; all valid and unscored |
| `Evolution.MutatedColorsAsWritten` | src/App.jsx:95-101 | the colour each gene holds after the source's `mutate(individual, colors)`, with `undefined` as None; one entry per gene |
| `Evolution.FirstRunMutationUncoloured` | src/App.jsx:154 | with the empty `colors` state the source passes to `mutate` on the first run, every gene whose draw is below MUTATION_RATE gets colour `undefined` and every other gene keeps its colour |
| `Evolution.PaletteMutationColored` | src/App.jsx:95-101 | with a non-empty palette the source's mutation gives every gene a colour, the colour of the corrected `Reproduction.Mutate` result |
| `Evolution.Engine.Start` | src/App.jsx:124-137 | the palette is the target's pixels read back in order, the population is the initial one, generation 0, no best fitness, and the invariant holds |
| `Evolution.Engine.Evaluate` | src/App.jsx:140-142 | every individual's fitness is set to the distance of its rendering to the target, in place; genomes unchanged |
| `Evolution.Engine.RankAndReport` | src/App.jsx:140-147 | after scoring and the in-place sort the population is the stable sort of the scored one, non-decreasing and still valid; the reported best fitness is the head's and is ≤ every individual's fitness |
| `Evolution.Engine.Evolve` | src/App.jsx:139-160 | the old array ends up holding the scored population stably sorted and non-decreasing; the best fitness is its head's and is ≤ every individual's; the new population is a fresh array of POPULATION_SIZE `Offspring`; valid genomes throughout; the generation is +1 |

## Left out

- `Types.RandomIndex`: uses exact real arithmetic, not IEEE-754 doubles. The
  in-range result is proved for exact reals only.
- Uniformity and probabilities are not modelled. Draws are arbitrary values
  in [0, 1), so the statistical rate of mutations and the uniform choice of
  tournament slots are not stated.
- The order in which the source consumes one `Math.random()` stream is not
  modelled. Each use gets its own injected draw: per triangle, per tournament
  slot, per crossover, and per gene for mutation.
- `drawIndividual` and `getImageData` (src/App.jsx:29-40, 45-56) are canvas
  rasterisation done by the browser. They are the `render` parameter, which
  must return `BUFFER_LENGTH` bytes. Drawing the best individual
  (src/App.jsx:146) is display only.
- Image loading and drawing the target (src/App.jsx:120-125) are browser I/O.
  The target bytes are a parameter of `Engine.Start`.
- React state, `useEffect`, the `setTimeout` loop and pause/resume
  (src/App.jsx:104-110, 162-182) are left out. In the source, resuming re-runs
  the effect, which reloads the image and rebuilds the population while the
  `generation` state keeps counting. No state-preserving resume is modelled.
- Colours are 4-tuples, not `rgba(...)` strings (src/App.jsx:131).
- Points are exact reals; no geometry is modelled.
- Individuals are values, not objects. `Engine.Evaluate` writes each array
  slot with a scored copy instead of setting a field.
  This matches the source because members of one population are never
  aliased; children gain fresh genome arrays in `crossover`.
- `Reproduction.Mutate`: returns the mutated child instead of writing into the
  child's genome array. The child belongs to nothing else at that point.
- The source's undefined-value paths are excluded by `requires`, because the
  source never exercises them. These are buffers whose length is not a
  multiple of 4, candidate and target buffers of different sizes, and parents
  shorter than MAX_TRIANGLES. `getImageData` always returns 200·200·4 bytes,
  and every genome has MAX_TRIANGLES genes.
- `Creation.RandomTriangle` and `Reproduction.Mutate` require a non-empty
  palette. The source does reach the empty case: its only `mutate` call
  (src/App.jsx:154) passes the React `colors` state, which stays `[]` for the
  whole first run of the effect (src/App.jsx:109, 135, 173). That case is
  modelled separately by `Evolution.MutatedColorsAsWritten` and
  `Evolution.FirstRunMutationUncoloured` (see "## Findings").
  `Evolution.Offspring`, `Evolution.Reproduce` and `Evolution.Engine.Evolve`
  pass the extracted palette instead, which has one entry per pixel (40000).
- `calculateFitness` does not check buffer sizes: it indexes both buffers over
  the target's length (src/App.jsx:59-63), so `Fitness.CalculateFitness`
  requires equal lengths. Population size, mutation rate, genome length and
  tournament size are constants (src/App.jsx:6-8, 71) and are constants here.
- src/GeneticAlgorithm.jsx is not part of this model. It repeats the
  generation step of src/App.jsx and calls helpers it does not define.

## Findings

| source | as written | input that shows it | evidently intended | confidence | as-written member | corrected member |
|---|---|---|---|---|---|---|
| src/App.jsx:154 | `mutate(child, colors)` reads the React `colors` state. The effect captured it before `setColors` (line 135) took effect, so during the first run it is `[]`. `randomTriangle([])` then picks `colors[0]`, which is `undefined`. | first run after mount, any gene whose mutation draw is below 0.01 | mutate with the extracted palette `colorSamples`, as the initial population does (line 137) | high; not executed | `Evolution.FirstRunMutationUncoloured` (on `Evolution.MutatedColorsAsWritten`) | `Reproduction.Mutate`, called with the engine's extracted palette in `Evolution.Reproduce` and `Evolution.Engine.Evolve` |
