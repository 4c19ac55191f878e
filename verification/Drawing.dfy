/**
  * Drawing a simplified run on the tiles of its zoom levels (compute/src/raster.rs). Projection,
  * the test of what is drawn and pixel rounding are parameters; world coordinates are exact reals.
  */
module Drawing {
  import opened Outcomes
  import opened Products
  import opened Simplify
  import opened Ledger
  import GridWalk

  /** A point of the unit square. */
  datatype Projected = Projected(x: real, y: real)

  datatype Geometry<!P> = Geometry(metric: Metric<P>, project: P -> Projected, renderable: (P, P) -> bool,
                                   round: real -> int)

  datatype Line = Line(startX: real, startY: real, endX: real, endY: real)

  // --------------------------------------------------------------- world lines

  function Unit(x: real): real {
    if x < 0.0 then 0.0 else if x > 1.0 then 1.0 else x
  }

  /** The height at which a line to an unwrapped end meets a boundary. */
  function HeightAt(start: Projected, endX: real, endY: real, boundary: real): real
    requires endX != start.x
  {
    start.y + (endY - start.y) * Unit((boundary - start.x) / (endX - start.x))
  }

  predicate IsPoint(line: Line) {
    line.startX == line.endX && line.startY == line.endY
  }

  function Drawable(line: Line): seq<Line> {
    if IsPoint(line) then [] else [line]
  }

  function Grown(x: real, scale: real): real {
    x * scale
  }

  lemma GrownIs(x: real, scale: real)
    ensures Grown(x, scale) == Times(x, scale)
  {
    TimesIs(x, scale);
  }

  /** A segment as lines of the world: one, or up to two when it is shorter across the antimeridian. */
  function WorldLines(start: Projected, end: Projected, scale: real): seq<Line> {
    var startX, startY := Grown(start.x, scale), Grown(start.y, scale);
    var endX, endY := Grown(end.x, scale), Grown(end.y, scale);
    if -0.5 <= end.x - start.x <= 0.5 then [Line(startX, startY, endX, endY)]
    else
      var east := end.x < start.x;
      var unwrapped := if east then end.x + 1.0 else end.x - 1.0;
      if unwrapped == start.x then [Line(startX, startY, startX, endY)]
      else
        var height := Grown(HeightAt(start, unwrapped, end.y, if east then 1.0 else 0.0), scale);
        var low, high := 0.0, scale - GridWalk.NUDGE;
        Drawable(Line(startX, startY, if east then high else low, height))
        + Drawable(Line(if east then low else high, height, endX, endY))
  }

  /** A part of a segment as it is drawn: a line, from one parameter to another, shifted by world widths. */
  datatype Part = Part(line: Line, from: real, to: real, shift: int)

  predicate Near(a: real, b: real) {
    -GridWalk.NUDGE <= a - b <= GridWalk.NUDGE
  }

  /** A world point is that of a segment to an unwrapped end at parameter t, shifted, up to the nudge. */
  ghost predicate IsAt(start: Projected, end: Projected, scale: real, x: real, y: real, t: real, shift: int) {
    && 0.0 <= t <= 1.0
    && Near(x, Times(start.x + Times(t, end.x - start.x) - shift as real, scale))
    && y == Times(start.y + Times(t, end.y - start.y), scale)
  }

  /** The line follows the segment, inside the world and over no more than half of its width. */
  ghost predicate Follows(start: Projected, end: Projected, scale: real, p: Part) {
    && p.from <= p.to
    && IsAt(start, end, scale, p.line.startX, p.line.startY, p.from, p.shift)
    && IsAt(start, end, scale, p.line.endX, p.line.endY, p.to, p.shift)
    && IsShort(p.line, scale)
  }

  predicate IsShort(line: Line, scale: real) {
    && 0.0 <= line.startX <= scale && 0.0 <= line.endX <= scale
    && -scale <= 2.0 * (line.endX - line.startX) <= scale
  }

  /** The end of a segment, moved by a world width when that makes the segment shorter. */
  function Unwrapped(start: Projected, end: Projected): Projected {
    if end.x - start.x < -0.5 then Projected(end.x + 1.0, end.y)
    else if end.x - start.x > 0.5 then Projected(end.x - 1.0, end.y)
    else end
  }

  /** Parts from the start to the end, where a second one is on the other side of the seam. */
  ghost predicate AreParts(start: Projected, end: Projected, scale: real, parts: seq<Part>) {
    && 1 <= |parts| <= 2
    && (forall k :: 0 <= k < |parts| ==> Follows(start, end, scale, parts[k]))
    && parts[0].from == 0.0 && parts[|parts| - 1].to == 1.0 && parts[0].shift == 0
    && (|parts| == 2 ==> parts[0].to == parts[1].from && (parts[1].shift == 1 || parts[1].shift == -1))
  }

  function LinesOf(parts: seq<Part>): seq<Line>
    requires 1 <= |parts| <= 2
  {
    if |parts| == 1 then [parts[0].line] else Drawable(parts[0].line) + Drawable(parts[1].line)
  }

  /**
    * The lines of a segment are parts of the one straight line from its start to its unwrapped end, from
    * the start to the end, each inside the world, at most half as wide, and on its own side of the seam.
    */
  lemma LinesFollowSegment(start: Projected, end: Projected, scale: real) returns (parts: seq<Part>)
    requires 0.0 <= start.x <= 1.0 && 0.0 <= end.x <= 1.0 && scale >= 1.0
    ensures AreParts(start, Unwrapped(start, end), scale, parts) && WorldLines(start, end, scale) == LinesOf(parts)
    ensures parts[0].line.startX == Times(start.x, scale) && parts[0].line.startY == Times(start.y, scale)
  {
    var to := Unwrapped(start, end);
    if to == end || to.x == start.x {
      var p := WholePart(start, to, scale);
      parts := [p];
      WholeLine(start, end, scale);
    } else {
      var p, q := SeamParts(start, to, scale, if end.x < start.x then 1.0 else 0.0, end.x);
      parts := [p, q];
      SeamLines(start, end, scale);
    }
  }

  lemma WholeLine(start: Projected, end: Projected, scale: real)
    requires Unwrapped(start, end) == end || Unwrapped(start, end).x == start.x
    ensures var to := Unwrapped(start, end);
            WorldLines(start, end, scale)
            == [Line(Times(start.x, scale), Times(start.y, scale), Times(to.x, scale), Times(to.y, scale))]
  {
    var to := Unwrapped(start, end);
    GrownIs(start.x, scale);
    GrownIs(start.y, scale);
    GrownIs(to.x, scale);
    GrownIs(to.y, scale);
  }

  /** The edge of the world at a seam, on the side of an x coordinate. */
  function EdgeAt(seam: real, scale: real): real {
    if seam == 0.0 then 0.0 else scale - GridWalk.NUDGE
  }

  ghost function FirstLine(start: Projected, seam: real, height: real, scale: real): Line {
    Line(Times(start.x, scale), Times(start.y, scale), EdgeAt(seam, scale), height)
  }

  ghost function SecondLine(endX: real, endY: real, seam: real, height: real, scale: real): Line {
    Line(EdgeAt(1.0 - seam, scale), height, Times(endX, scale), Times(endY, scale))
  }

  lemma SeamLines(start: Projected, end: Projected, scale: real)
    requires Unwrapped(start, end) != end && Unwrapped(start, end).x != start.x
    ensures var to, seam := Unwrapped(start, end), if end.x < start.x then 1.0 else 0.0;
            var height := Times(HeightAt(start, to.x, to.y, seam), scale);
            WorldLines(start, end, scale)
            == Drawable(FirstLine(start, seam, height, scale))
               + Drawable(SecondLine(end.x, end.y, seam, height, scale))
  {
    var to, seam := Unwrapped(start, end), if end.x < start.x then 1.0 else 0.0;
    GrownIs(start.x, scale);
    GrownIs(start.y, scale);
    GrownIs(end.x, scale);
    GrownIs(end.y, scale);
    GrownIs(HeightAt(start, to.x, to.y, seam), scale);
  }

  lemma AtStart(start: Projected, to: Projected, scale: real)
    ensures IsAt(start, to, scale, Times(start.x, scale), Times(start.y, scale), 0.0, 0)
  {
    TimesOne(to.x - start.x);
    TimesOne(to.y - start.y);
  }

  lemma AtEnd(start: Projected, to: Projected, scale: real, x: real, shift: int)
    requires x == to.x - shift as real
    ensures IsAt(start, to, scale, Times(x, scale), Times(to.y, scale), 1.0, shift)
  {
    TimesOne(to.x - start.x);
    TimesOne(to.y - start.y);
  }

  lemma ScaledLine(x: real, y: real, scale: real)
    requires 0.0 <= x <= 1.0 && 0.0 <= y <= 1.0 && -0.5 <= y - x <= 0.5 && scale >= 1.0
    ensures 0.0 <= Times(x, scale) <= scale && 0.0 <= Times(y, scale) <= scale
    ensures -scale <= 2.0 * (Times(y, scale) - Times(x, scale)) <= scale
  {
    TimesInside(x, scale);
    TimesInside(y, scale);
    TimesDifference(x, y, scale);
    TimesDifference(y, x, scale);
    if x <= y {
      TimesHalf(y - x, scale);
    } else {
      TimesHalf(x - y, scale);
    }
  }

  lemma WholePart(start: Projected, to: Projected, scale: real) returns (p: Part)
    requires 0.0 <= start.x <= 1.0 && 0.0 <= to.x <= 1.0 && -0.5 <= to.x - start.x <= 0.5 && scale >= 1.0
    ensures p.line == Line(Times(start.x, scale), Times(start.y, scale), Times(to.x, scale), Times(to.y, scale))
    ensures AreParts(start, to, scale, [p])
  {
    p := Part(Line(Times(start.x, scale), Times(start.y, scale), Times(to.x, scale), Times(to.y, scale)), 0.0, 1.0, 0);
    AtStart(start, to, scale);
    AtEnd(start, to, scale, to.x, 0);
    ScaledLine(start.x, to.x, scale);
  }

  /** A line between a point and the nearer edge, which is at the seam or the nudge before it. */
  lemma EdgeIsNear(x: real, seam: real, scale: real)
    requires 0.0 <= x <= 1.0 && (seam == 0.0 || seam == 1.0) && -0.5 <= seam - x <= 0.5 && scale >= 1.0
    ensures Near(EdgeAt(seam, scale), Times(seam, scale))
    ensures forall y, z :: IsShort(Line(Times(x, scale), y, EdgeAt(seam, scale), z), scale)
    ensures forall y, z :: IsShort(Line(EdgeAt(seam, scale), y, Times(x, scale), z), scale)
  {
    ScaledLine(x, seam, scale);
    TimesOne(scale);
  }

  /** The parameter and the height at which a segment meets the seam. */
  lemma SeamHeight(start: Projected, to: Projected, seam: real) returns (t: real)
    requires to.x != start.x && (start.x <= seam <= to.x || to.x <= seam <= start.x)
    ensures 0.0 <= t <= 1.0 && start.x + Times(t, to.x - start.x) == seam
    ensures HeightAt(start, to.x, to.y, seam) == start.y + Times(t, to.y - start.y)
  {
    var n, d := seam - start.x, to.x - start.x;
    t := n / d;
    FractionIsUnit(n, d);
    TimesIs(t, d);
    assert t * d == n;
    TimesIs(t, to.y - start.y);
    assert (to.y - start.y) * t == t * (to.y - start.y);
  }

  /** The two parts of a segment that meets the seam on its way. */
  lemma SeamParts(start: Projected, to: Projected, scale: real, seam: real, endX: real) returns (p: Part, q: Part)
    requires 0.0 <= start.x <= 1.0 && 0.0 <= endX <= 1.0 && scale >= 1.0 && to.x != start.x
    requires if seam == 1.0 then to.x == endX + 1.0 else seam == 0.0 && to.x == endX - 1.0
    requires -0.5 <= to.x - start.x <= 0.5
    ensures AreParts(start, to, scale, [p, q])
    ensures var height := Times(HeightAt(start, to.x, to.y, seam), scale);
            p.line == FirstLine(start, seam, height, scale) && q.line == SecondLine(endX, to.y, seam, height, scale)
  {
    var shift := if seam == 1.0 then 1 else -1;
    var t := SeamHeight(start, to, seam);
    var height := Times(HeightAt(start, to.x, to.y, seam), scale);
    p := Part(FirstLine(start, seam, height, scale), 0.0, t, 0);
    q := Part(SecondLine(endX, to.y, seam, height, scale), t, 1.0, shift);
    EdgeIsNear(start.x, seam, scale);
    EdgeIsNear(endX, 1.0 - seam, scale);
    AtStart(start, to, scale);
    AtEnd(start, to, scale, endX, shift);
    assert seam - shift as real == 1.0 - seam;
    assert Follows(start, to, scale, p) && Follows(start, to, scale, q);
  }

  lemma FractionIsUnit(n: real, d: real)
    requires 0.0 <= n <= d || d <= n <= 0.0
    requires d != 0.0
    ensures Unit(n / d) == n / d
  {
    var q, sign := n / d, if d > 0.0 then d else -d;
    assert q * d == n;
    assert q * sign == if d > 0.0 then n else -n;
    assert (q - 1.0) * sign == if d > 0.0 then n - d else d - n;
    ProductIsNegative(q, sign);
    ProductIsNegative(1.0 - q, sign);
    assert (1.0 - q) * sign == -((q - 1.0) * sign);
  }

  lemma ProductIsNegative(a: real, b: real)
    requires b > 0.0
    ensures a * b < 0.0 <==> a < 0.0
  {
  }

  // ------------------------------------------------------------------ segments

  function PixelOf(round: real -> int, world: real, tile: int): int {
    round(world - tile as real * GridWalk.SIZE)
  }

  /** The part of a line on a tile, unless both its ends are one pixel. */
  function TileSegment(round: real -> int, zoom: nat, line: Line, tile: (int, int)): seq<RawSegment>
    requires GridWalk.InGrid(tile, GridWalk.Pow2(zoom))
  {
    var x1, y1 := PixelOf(round, line.startX, tile.0), PixelOf(round, line.startY, tile.1);
    var x2, y2 := PixelOf(round, line.endX, tile.0), PixelOf(round, line.endY, tile.1);
    if x1 == x2 && y1 == y2 then [] else [RawSegment(TileKey(zoom, tile.0, tile.1), x1, y1, x2, y2)]
  }

  predicate AllInGrid(tiles: seq<(int, int)>, zoom: nat) {
    forall k :: 0 <= k < |tiles| ==> GridWalk.InGrid(tiles[k], GridWalk.Pow2(zoom))
  }

  function OnTiles(round: real -> int, zoom: nat, line: Line, tiles: seq<(int, int)>): seq<RawSegment>
    requires AllInGrid(tiles, zoom)
  {
    if tiles == [] then []
    else OnTiles(round, zoom, line, tiles[..|tiles| - 1]) + TileSegment(round, zoom, line, tiles[|tiles| - 1])
  }

  /** Names a walk; the tiles it visits are looked up only where this stands. */
  predicate Toured(line: Line, zoom: nat) {
    true
  }

  ghost predicate Tours(f: (Line, nat) -> seq<(int, int)>) {
    forall line, zoom: nat {:trigger Toured(line, zoom)} ::
      Toured(line, zoom) ==> f(line, zoom) == GridWalk.TilesOf(line.startX, line.startY, line.endX, line.endY, zoom)
  }

  ghost function TilesOfLine(line: Line, zoom: nat): (tiles: seq<(int, int)>)
    ensures AllInGrid(tiles, zoom)
  {
    var tour: (Line, nat) -> seq<(int, int)> := (line: Line, zoom: nat) =>
      GridWalk.TilesOf(line.startX, line.startY, line.endX, line.endY, zoom);
    assert Tours(tour);
    var f: (Line, nat) -> seq<(int, int)> :| Tours(f);
    assert Toured(line, zoom);
    f(line, zoom)
  }

  lemma TilesOfLineAre(line: Line, zoom: nat)
    ensures TilesOfLine(line, zoom) == GridWalk.TilesOf(line.startX, line.startY, line.endX, line.endY, zoom)
  {
    assert Toured(line, zoom);
  }

  /** How a line is drawn at a zoom level. */
  ghost function LineDrawing(round: real -> int, zoom: nat): Line -> seq<RawSegment> {
    (line: Line) => OnTiles(round, zoom, line, TilesOfLine(line, zoom))
  }

  /** The segments of lines one after another, as `draw` draws each. */
  function OfLines(draw: Line -> seq<RawSegment>, lines: seq<Line>): seq<RawSegment> {
    if lines == [] then [] else OfLines(draw, lines[..|lines| - 1]) + draw(lines[|lines| - 1])
  }

  function Scale(zoom: nat): real {
    GridWalk.Pow2(zoom) as real * GridWalk.SIZE
  }

  /** Names two ends; the lines between them are looked up only where this stands. */
  predicate Lined(start: Projected, end: Projected, scale: real) {
    true
  }

  ghost predicate Lines(f: (Projected, Projected, real) -> seq<Line>) {
    forall start, end, scale {:trigger Lined(start, end, scale)} ::
      Lined(start, end, scale) ==> f(start, end, scale) == WorldLines(start, end, scale)
  }

  ghost function LinesBetween(start: Projected, end: Projected, scale: real): seq<Line> {
    var lines: (Projected, Projected, real) -> seq<Line> :=
      (start: Projected, end: Projected, scale: real) => WorldLines(start, end, scale);
    assert Lines(lines);
    var f: (Projected, Projected, real) -> seq<Line> :| Lines(f);
    f(start, end, scale)
  }

  lemma LinesBetweenAre(start: Projected, end: Projected, scale: real)
    ensures LinesBetween(start, end, scale) == WorldLines(start, end, scale)
  {
    assert Lined(start, end, scale);
  }

  /** The lines between two points, if both are valid and near enough to be drawn. */
  ghost function PairLines<P>(g: Geometry<P>, zoom: nat, p: P, q: P): seq<Line> {
    if g.metric.valid(p) && g.metric.valid(q) && g.renderable(p, q)
    then LinesBetween(g.project(p), g.project(q), Scale(zoom))
    else []
  }

  ghost function OfPair<P>(g: Geometry<P>, zoom: nat, p: P, q: P): seq<RawSegment> {
    OfLines(LineDrawing(g.round, zoom), PairLines(g, zoom, p, q))
  }

  /** The segments of points that follow one another, as `pair` draws two of them. */
  function OfPoints<P>(pair: (P, P) -> seq<RawSegment>, points: seq<P>): seq<RawSegment> {
    if |points| < 2 then []
    else OfPoints(pair, points[..|points| - 1]) + pair(points[|points| - 2], points[|points| - 1])
  }

  /** The segments at the zoom levels from `zoom` up to `end`, which is not drawn. */
  function OfZooms(level: nat -> seq<RawSegment>, zoom: nat, end: nat): seq<RawSegment>
    decreases end
  {
    if end <= zoom then [] else OfZooms(level, zoom, end - 1) + level(end - 1)
  }

  ghost function Pairs<P>(g: Geometry<P>, zoom: nat): (P, P) -> seq<RawSegment> {
    (p: P, q: P) => OfPair(g, zoom, p, q)
  }

  ghost function Levels<P>(g: Geometry<P>, points: seq<P>): nat -> seq<RawSegment> {
    (zoom: nat) => OfPoints(Pairs(g, zoom), points)
  }

  /** The raster segments of a simplified run. */
  ghost function Drawn<P>(g: Geometry<P>, tier: LodTier, points: seq<P>): seq<RawSegment> {
    if |points| < 2 then [] else OfZooms(Levels(g, points), tier.zoomMin, tier.zoomMax + 1)
  }

  // ------------------------------------------------------ which tiles are drawn

  /** The tile of a segment is one of the grid at its zoom level. */
  predicate OnGrid(raw: RawSegment) {
    raw.tile.x < GridWalk.Pow2(raw.tile.zoom) && raw.tile.y < GridWalk.Pow2(raw.tile.zoom)
  }

  predicate AllOnGrid(segments: seq<RawSegment>, zoom: nat, end: nat) {
    forall i :: 0 <= i < |segments| ==> zoom <= segments[i].tile.zoom < end && OnGrid(segments[i])
  }

  lemma {:induction false} TilesAreOnGrid(round: real -> int, zoom: nat, line: Line, tiles: seq<(int, int)>)
    requires AllInGrid(tiles, zoom)
    ensures AllOnGrid(OnTiles(round, zoom, line, tiles), zoom, zoom + 1)
  {
    if tiles != [] {
      TilesAreOnGrid(round, zoom, line, tiles[..|tiles| - 1]);
    }
  }

  lemma {:induction false} LinesAreOnGrid(draw: Line -> seq<RawSegment>, zoom: nat, lines: seq<Line>)
    requires forall line <- lines :: AllOnGrid(draw(line), zoom, zoom + 1)
    ensures AllOnGrid(OfLines(draw, lines), zoom, zoom + 1)
  {
    if lines != [] {
      LinesAreOnGrid(draw, zoom, lines[..|lines| - 1]);
      assert lines[|lines| - 1] in lines;
    }
  }

  lemma LineIsOnGrid(round: real -> int, zoom: nat, line: Line)
    ensures AllOnGrid(LineDrawing(round, zoom)(line), zoom, zoom + 1)
  {
    TilesAreOnGrid(round, zoom, line, TilesOfLine(line, zoom));
  }

  lemma PairIsOnGrid<P>(g: Geometry<P>, zoom: nat, p: P, q: P)
    ensures AllOnGrid(OfPair(g, zoom, p, q), zoom, zoom + 1)
  {
    forall line ensures AllOnGrid(LineDrawing(g.round, zoom)(line), zoom, zoom + 1) {
      LineIsOnGrid(g.round, zoom, line);
    }
    LinesAreOnGrid(LineDrawing(g.round, zoom), zoom, PairLines(g, zoom, p, q));
  }

  lemma {:induction false} PointsAreOnGrid<P>(pair: (P, P) -> seq<RawSegment>, zoom: nat, points: seq<P>)
    requires forall i :: 0 < i < |points| ==> AllOnGrid(pair(points[i - 1], points[i]), zoom, zoom + 1)
    ensures AllOnGrid(OfPoints(pair, points), zoom, zoom + 1)
  {
    if |points| >= 2 {
      var init := points[..|points| - 1];
      assert forall i :: 0 <= i < |init| ==> init[i] == points[i];
      PointsAreOnGrid(pair, zoom, init);
    }
  }

  lemma LevelIsOnGrid<P>(g: Geometry<P>, zoom: nat, points: seq<P>)
    ensures AllOnGrid(Levels(g, points)(zoom), zoom, zoom + 1)
  {
    forall i | 0 < i < |points| ensures AllOnGrid(Pairs(g, zoom)(points[i - 1], points[i]), zoom, zoom + 1) {
      PairIsOnGrid(g, zoom, points[i - 1], points[i]);
    }
    PointsAreOnGrid(Pairs(g, zoom), zoom, points);
  }

  lemma {:induction false} ZoomsAreOnGrid(level: nat -> seq<RawSegment>, zoom: nat, end: nat)
    requires forall z: nat :: AllOnGrid(level(z), z, z + 1)
    ensures AllOnGrid(OfZooms(level, zoom, end), zoom, end)
  {
    if zoom < end {
      ZoomsAreOnGrid(level, zoom, end - 1);
      assert AllOnGrid(level(end - 1), end - 1, end);
    }
  }

  lemma {:induction false} GridsGrow(zoom: nat, more: nat)
    requires zoom <= more
    ensures GridWalk.Pow2(zoom) <= GridWalk.Pow2(more)
  {
    if zoom < more {
      GridsGrow(zoom, more - 1);
    }
  }

  lemma DrawnIsOnGrid<P>(g: Geometry<P>, tier: LodTier, points: seq<P>)
    ensures AllOnGrid(Drawn(g, tier, points), tier.zoomMin, tier.zoomMax + 1)
  {
    forall z: nat ensures AllOnGrid(Levels(g, points)(z), z, z + 1) {
      LevelIsOnGrid(g, z, points);
    }
    ZoomsAreOnGrid(Levels(g, points), tier.zoomMin, tier.zoomMax + 1);
  }

  /** A run is drawn only at the zoom levels of its tier and inside the grid. */
  lemma DrawnStaysInside<P>(g: Geometry<P>, tier: LodTier, points: seq<P>, i: nat)
    requires tier.zoomMax <= 13 && i < |Drawn(g, tier, points)|
    ensures var tile := Drawn(g, tier, points)[i].tile;
            tier.zoomMin <= tile.zoom <= tier.zoomMax && tile.x < 8192 && tile.y < 8192
  {
    var segments := Drawn(g, tier, points);
    DrawnIsOnGrid(g, tier, points);
    GridsGrow(segments[i].tile.zoom, 13);
    assert GridWalk.Pow2(13) == 8192;
  }

  // -------------------------------------------------------------- the three loops

  method AddWorldLine(round: real -> int, zoom: nat, line: Line) returns (segments: seq<RawSegment>)
    ensures segments == LineDrawing(round, zoom)(line)
  {
    TilesOfLineAre(line, zoom);
    var tiles := GridWalk.VisitCrossedTiles(line.startX, line.startY, line.endX, line.endY, zoom);
    segments := [];
    for i := 0 to |tiles|
      invariant segments == OnTiles(round, zoom, line, tiles[..i])
    {
      assert tiles[..i + 1][..i] == tiles[..i];
      segments := segments + TileSegment(round, zoom, line, tiles[i]);
    }
    assert tiles[..|tiles|] == tiles;
  }

  method AddPair<P>(g: Geometry<P>, zoom: nat, p: P, q: P) returns (segments: seq<RawSegment>)
    ensures segments == Pairs(g, zoom)(p, q)
  {
    segments := [];
    ghost var draw := LineDrawing(g.round, zoom);
    var lines := [];
    if g.metric.valid(p) && g.metric.valid(q) && g.renderable(p, q) {
      LinesBetweenAre(g.project(p), g.project(q), Scale(zoom));
      lines := WorldLines(g.project(p), g.project(q), Scale(zoom));
    }
    for i := 0 to |lines|
      invariant segments == OfLines(draw, lines[..i])
    {
      assert lines[..i + 1][..i] == lines[..i];
      var more := AddWorldLine(g.round, zoom, lines[i]);
      segments := segments + more;
    }
    assert lines[..|lines|] == lines;
  }

  /** The points of a run at one zoom level, each with the one before it. */
  method AddPoints<P>(g: Geometry<P>, zoom: nat, points: seq<P>) returns (segments: seq<RawSegment>)
    ensures segments == Levels(g, points)(zoom)
  {
    ghost var pair := Pairs(g, zoom);
    segments := [];
    for i := 0 to |points|
      invariant segments == OfPoints(pair, points[..i])
    {
      assert points[..i + 1][..i] == points[..i];
      if i > 0 {
        var more := AddPair(g, zoom, points[i - 1], points[i]);
        segments := segments + more;
      }
    }
    assert points[..|points|] == points;
  }

  method AddZooms<P>(g: Geometry<P>, zoom: nat, end: nat, points: seq<P>) returns (segments: seq<RawSegment>)
    requires zoom <= end
    ensures segments == OfZooms(Levels(g, points), zoom, end)
  {
    ghost var level := Levels(g, points);
    segments := [];
    for z := zoom to end
      invariant segments == OfZooms(level, zoom, z)
    {
      var more := AddPoints(g, z, points);
      segments := segments + more;
    }
  }

  /** All zoom levels of a tier. */
  method AddDrive<P>(g: Geometry<P>, tier: LodTier, points: seq<P>) returns (segments: seq<RawSegment>)
    requires tier.zoomMin <= tier.zoomMax
    ensures segments == Drawn(g, tier, points)
  {
    if |points| < 2 {
      return [];
    }
    segments := AddZooms(g, tier.zoomMin, tier.zoomMax + 1, points);
  }
}
