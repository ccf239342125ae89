/** Building random triangles and random individuals from a colour palette. */
module Creation {
  import opened Types

  /** The seven draws that one random triangle consumes, in the order the
      source makes them: the colour first, then x and y of each vertex. */
  datatype TriangleDraw = TriangleDraw(color: real, x0: real, y0: real, x1: real, y1: real, x2: real, y2: real)

  predicate ValidDraw(d: TriangleDraw) {
    IsDraw(d.color) && IsDraw(d.x0) && IsDraw(d.y0) && IsDraw(d.x1) && IsDraw(d.y1) && IsDraw(d.x2) && IsDraw(d.y2)
  }

  /** Draws for a whole genome: one triangle's worth per gene. */
  predicate ValidGenomeDraws(ds: seq<TriangleDraw>) {
    |ds| == MAX_TRIANGLES && forall i :: 0 <= i < |ds| ==> ValidDraw(ds[i])
  }

  predicate InCanvas(p: Point) {
    0.0 <= p.x < CANVAS_WIDTH as real && 0.0 <= p.y < CANVAS_HEIGHT as real
  }

  /** A triangle that random generation can produce from `palette`. */
  predicate WellFormed(t: Triangle, palette: seq<Color>) {
    t.color in palette && InCanvas(t.p0) && InCanvas(t.p1) && InCanvas(t.p2)
  }

  /** The genome invariant: exactly MAX_TRIANGLES well-formed triangles. */
  predicate ValidGenome(g: Genome, palette: seq<Color>) {
    |g| == MAX_TRIANGLES && forall i :: 0 <= i < |g| ==> WellFormed(g[i], palette)
  }

  /** `{ x: rx * CANVAS_WIDTH, y: ry * CANVAS_HEIGHT }`. */
  function RandomPoint(rx: real, ry: real): (p: Point)
    requires IsDraw(rx) && IsDraw(ry)
    ensures InCanvas(p)
  {
    Point(rx * CANVAS_WIDTH as real, ry * CANVAS_HEIGHT as real)
  }

  /** `colors[Math.floor(r * colors.length)]`, as JavaScript evaluates it:
      an empty array yields `undefined`, modelled as None. */
  function PickColor(colors: seq<Color>, r: real): (c: Option<Color>)
    requires IsDraw(r)
    ensures colors != [] ==> c.Some? && c.value in colors
    ensures colors == [] ==> c == None
  {
    if colors == [] then None else Some(colors[RandomIndex(r, |colors|)])
  }

  /** randomTriangle: a palette colour picked by the first draw, three points in the canvas. */
  function RandomTriangle(colors: seq<Color>, d: TriangleDraw): (t: Triangle)
    requires |colors| > 0 && ValidDraw(d)
    ensures WellFormed(t, colors)
  {
    var randomColor := PickColor(colors, d.color).value;
    Triangle(RandomPoint(d.x0, d.y0), RandomPoint(d.x1, d.y1), RandomPoint(d.x2, d.y2), randomColor)
  }

  /** createIndividual: MAX_TRIANGLES random triangles and no fitness yet. */
  function CreateIndividual(colors: seq<Color>, draws: seq<TriangleDraw>): (ind: Individual)
    requires |colors| > 0 && ValidGenomeDraws(draws)
    ensures ValidGenome(ind.genome, colors) && ind.fitness == None
  {
    Individual(seq(MAX_TRIANGLES, i requires 0 <= i < MAX_TRIANGLES => RandomTriangle(colors, draws[i])), None)
  }
}
