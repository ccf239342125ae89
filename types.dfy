/** Configuration constants of the engine, its value types, and the one place
    where a uniform draw in [0, 1) is turned into an index. */
module Types {
  const CANVAS_WIDTH: nat := 200
  const CANVAS_HEIGHT: nat := 200
  const POPULATION_SIZE: nat := 50
  const MUTATION_RATE: real := 0.01
  const MAX_TRIANGLES: nat := 50
  const TOURNAMENT_SIZE: nat := 5

  /** Length of the RGBA byte buffer the canvas hands back for the whole image. */
  const BUFFER_LENGTH: nat := CANVAS_WIDTH * CANVAS_HEIGHT * 4

  /** One channel of one pixel in an RGBA buffer. */
  type Byte = x: int | 0 <= x < 256

  datatype Option<T> = None | Some(value: T)

  /** A fill colour, four channels; the source spells it as an `rgba(...)` string. */
  datatype Color = Color(r: Byte, g: Byte, b: Byte, a: Byte)

  datatype Point = Point(x: real, y: real)

  /** Immutable once built: mutation replaces a whole triangle. */
  datatype Triangle = Triangle(p0: Point, p1: Point, p2: Point, color: Color)

  /** Triangles in painting order. */
  type Genome = seq<Triangle>

  /** `fitness` stays unset until the generation step scores the individual. */
  datatype Individual = Individual(genome: Genome, fitness: Option<nat>)

  /** A value that `Math.random()` can return. */
  predicate IsDraw(r: real) {
    0.0 <= r < 1.0
  }

  /** `Math.floor(r * n)`: the slot among `n` that the draw `r` picks. */
  function RandomIndex(r: real, n: nat): (k: nat)
    requires IsDraw(r) && n > 0
    ensures k < n
  {
    var scaled := r * (n as real);
    assert 0.0 <= scaled < n as real;
    scaled.Floor
  }
}
