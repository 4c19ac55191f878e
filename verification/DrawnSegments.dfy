/** How often and why a segment is drawn: once for each line between neighbouring points on its tile. */
module DrawnSegments {
  import opened Outcomes
  import opened Simplify
  import opened Ledger
  import opened Drawing
  import GridWalk

  /** A segment joins the pixels of the two ends of a line on its tile, and these are different. */
  predicate Joins(round: real -> int, raw: RawSegment, line: Line) {
    && raw.x1 == round(line.startX - raw.tile.x as real * 512.0)
    && raw.y1 == round(line.startY - raw.tile.y as real * 512.0)
    && raw.x2 == round(line.endX - raw.tile.x as real * 512.0)
    && raw.y2 == round(line.endY - raw.tile.y as real * 512.0)
    && (raw.x1 != raw.x2 || raw.y1 != raw.y2)
  }

  /** A line is drawn as a segment on a tile that the grid walk visits. */
  ghost predicate DrawnAs(round: real -> int, line: Line, raw: RawSegment) {
    (raw.tile.x, raw.tile.y) in TilesOfLine(line, raw.tile.zoom) && Joins(round, raw, line)
  }

  // -------------------------------------------------------------------- a line

  lemma TileSegmentIs(round: real -> int, zoom: nat, line: Line, tile: (int, int), raw: RawSegment)
    requires GridWalk.InGrid(tile, GridWalk.Pow2(zoom))
    ensures multiset(TileSegment(round, zoom, line, tile))[raw]
         == if raw.tile == TileKey(zoom, tile.0, tile.1) && Joins(round, raw, line) then 1 else 0
  {
  }

  predicate Distinct(tiles: seq<(int, int)>) {
    forall i, j :: 0 <= i < j < |tiles| ==> tiles[i] != tiles[j]
  }

  lemma {:induction false} OnTilesCounts(round: real -> int, zoom: nat, line: Line, tiles: seq<(int, int)>,
                                         raw: RawSegment)
    requires AllInGrid(tiles, zoom) && Distinct(tiles)
    ensures multiset(OnTiles(round, zoom, line, tiles))[raw]
         == if raw.tile.zoom == zoom && (raw.tile.x, raw.tile.y) in tiles && Joins(round, raw, line) then 1 else 0
  {
    if tiles != [] {
      var init, last := tiles[..|tiles| - 1], tiles[|tiles| - 1];
      OnTilesCounts(round, zoom, line, init, raw);
      TileSegmentIs(round, zoom, line, last, raw);
      assert tiles == init + [last] && last !in init;
    }
  }

  lemma LineCounts(round: real -> int, zoom: nat, line: Line, raw: RawSegment)
    ensures multiset(LineDrawing(round, zoom)(line))[raw]
         == if raw.tile.zoom == zoom && DrawnAs(round, line, raw) then 1 else 0
  {
    var times := GridWalk.TilesAreCrossed(line.startX, line.startY, line.endX, line.endY, zoom);
    TilesOfLineAre(line, zoom);
    OnTilesCounts(round, zoom, line, TilesOfLine(line, zoom), raw);
  }

  /**
    * A line whose ends are at most 4095 tile steps apart is drawn on exactly the tiles that it crosses
    * along a positive length and on which its ends are different pixels.
    */
  lemma LineIsDrawnWhereItCrosses(round: real -> int, line: Line, raw: RawSegment)
    requires var x := GridWalk.Prepare(line.startX, line.endX, GridWalk.Pow2(raw.tile.zoom));
             var y := GridWalk.Prepare(line.startY, line.endY, GridWalk.Pow2(raw.tile.zoom));
             x.Steps() + y.Steps() < GridWalk.MAX_VISITS
    ensures var x := GridWalk.Prepare(line.startX, line.endX, GridWalk.Pow2(raw.tile.zoom));
            var y := GridWalk.Prepare(line.startY, line.endY, GridWalk.Pow2(raw.tile.zoom));
            DrawnAs(round, line, raw)
            <==> GridWalk.Crosses(x, y, (raw.tile.x as int, raw.tile.y as int)) && Joins(round, raw, line)
  {
    var times := GridWalk.TilesAreCrossed(line.startX, line.startY, line.endX, line.endY, raw.tile.zoom);
    TilesOfLineAre(line, raw.tile.zoom);
  }

  // ----------------------------------------------------------- counts in general

  function Hits(hit: Line -> bool, lines: seq<Line>): set<nat> {
    set j: nat | j < |lines| && hit(lines[j])
  }

  lemma HitsSnoc(hit: Line -> bool, lines: seq<Line>, line: Line)
    ensures |Hits(hit, lines + [line])| == |Hits(hit, lines)| + if hit(line) then 1 else 0
  {
    var all := lines + [line];
    assert all[|lines|] == line && forall j :: 0 <= j < |lines| ==> all[j] == lines[j];
    assert Hits(hit, all) == Hits(hit, lines) + if hit(line) then {|lines|} else {};
  }

  lemma {:induction false} LinesCount(draw: Line -> seq<RawSegment>, hit: Line -> bool, lines: seq<Line>,
                                      raw: RawSegment)
    requires forall line <- lines :: multiset(draw(line))[raw] == if hit(line) then 1 else 0
    ensures multiset(OfLines(draw, lines))[raw] == |Hits(hit, lines)|
  {
    if lines != [] {
      var init, last := lines[..|lines| - 1], lines[|lines| - 1];
      LinesCount(draw, hit, init, raw);
      HitsSnoc(hit, init, last);
      assert lines == init + [last] && last in lines;
    }
  }

  /** The neighbours with something in common. */
  function HitPairs<P>(hits: (P, P) -> set<nat>, points: seq<P>): set<(nat, nat)> {
    set i: nat, j: nat | i + 1 < |points| && j in hits(points[i], points[i + 1]) :: (i, j)
  }

  function Tagged(i: nat, js: set<nat>): set<(nat, nat)> {
    set j | j in js :: (i, j)
  }

  lemma {:induction false} TaggedSize(i: nat, js: set<nat>)
    ensures |Tagged(i, js)| == |js|
  {
    if js != {} {
      var x :| x in js;
      TaggedSize(i, js - {x});
      assert Tagged(i, js) == Tagged(i, js - {x}) + {(i, x)};
    }
  }

  lemma PairsSnoc<P>(hits: (P, P) -> set<nat>, points: seq<P>, p: P)
    requires points != []
    ensures |HitPairs(hits, points + [p])| == |HitPairs(hits, points)| + |hits(points[|points| - 1], p)|
  {
    var n, all := |points|, points + [p];
    var last := Tagged(n - 1, hits(points[n - 1], p));
    TaggedSize(n - 1, hits(points[n - 1], p));
    assert all[n] == p && forall i :: 0 <= i < n ==> all[i] == points[i];
    assert HitPairs(hits, all) == HitPairs(hits, points) + last;
    assert HitPairs(hits, points) !! last;
  }

  lemma {:induction false} PointsCount<P>(pair: (P, P) -> seq<RawSegment>, hits: (P, P) -> set<nat>, points: seq<P>,
                                          raw: RawSegment)
    requires forall p, q :: p in points && q in points ==> multiset(pair(p, q))[raw] == |hits(p, q)|
    ensures multiset(OfPoints(pair, points))[raw] == |HitPairs(hits, points)|
  {
    if |points| >= 2 {
      var init, last := points[..|points| - 1], points[|points| - 1];
      PointsCount(pair, hits, init, raw);
      PairsSnoc(hits, init, last);
      assert points == init + [last] && last in points && init[|init| - 1] in points;
    } else {
      assert HitPairs(hits, points) == {};
    }
  }

  lemma {:induction false} ZoomsCount(level: nat -> seq<RawSegment>, count: nat, zoom: nat, end: nat, raw: RawSegment)
    requires forall z: nat :: multiset(level(z))[raw] == if z == raw.tile.zoom then count else 0
    ensures multiset(OfZooms(level, zoom, end))[raw] == if zoom <= raw.tile.zoom < end then count else 0
    decreases end
  {
    if zoom < end {
      ZoomsCount(level, count, zoom, end - 1, raw);
    }
  }

  // --------------------------------------------------------------------- a run

  /** The lines between neighbouring points that are drawn as a segment. */
  ghost function DrawnBy<P>(g: Geometry<P>, points: seq<P>, raw: RawSegment): set<(nat, nat)> {
    HitPairs(DrawnBetween(g, raw), points)
  }

  ghost function DrawnBetween<P>(g: Geometry<P>, raw: RawSegment): (P, P) -> set<nat> {
    (p: P, q: P) => LinesDrawnAs(g, p, q, raw)
  }

  ghost function LinesDrawnAs<P>(g: Geometry<P>, p: P, q: P, raw: RawSegment): set<nat> {
    Hits(DrawnAsOf(g.round, raw), PairLines(g, raw.tile.zoom, p, q))
  }

  ghost function DrawnAsOf(round: real -> int, raw: RawSegment): Line -> bool {
    (line: Line) => DrawnAs(round, line, raw)
  }

  lemma HitsAre(hit: Line -> bool, lines: seq<Line>, j: nat)
    ensures j in Hits(hit, lines) <==> j < |lines| && hit(lines[j])
  {
  }

  /** What it means to be among them. */
  lemma DrawnByIs<P>(g: Geometry<P>, points: seq<P>, raw: RawSegment, i: nat, j: nat)
    ensures (i, j) in DrawnBy(g, points, raw)
       <==> && i + 1 < |points| && j < |PairLines(g, raw.tile.zoom, points[i], points[i + 1])|
            && DrawnAs(g.round, PairLines(g, raw.tile.zoom, points[i], points[i + 1])[j], raw)
  {
    if i + 1 < |points| {
      HitsAre(DrawnAsOf(g.round, raw), PairLines(g, raw.tile.zoom, points[i], points[i + 1]), j);
    }
  }

  lemma PairCounts<P>(g: Geometry<P>, zoom: nat, p: P, q: P, raw: RawSegment)
    ensures multiset(Pairs(g, zoom)(p, q))[raw] == if zoom == raw.tile.zoom then |LinesDrawnAs(g, p, q, raw)| else 0
  {
    var draw, lines := LineDrawing(g.round, zoom), PairLines(g, zoom, p, q);
    var hit := line => raw.tile.zoom == zoom && DrawnAs(g.round, line, raw);
    forall line | line in lines ensures multiset(draw(line))[raw] == if hit(line) then 1 else 0 {
      LineCounts(g.round, zoom, line, raw);
    }
    LinesCount(draw, hit, lines, raw);
    if zoom == raw.tile.zoom {
      assert Hits(hit, lines) == LinesDrawnAs(g, p, q, raw);
    } else {
      assert Hits(hit, lines) == {};
    }
  }

  lemma LevelCounts<P>(g: Geometry<P>, points: seq<P>, zoom: nat, raw: RawSegment)
    ensures multiset(Levels(g, points)(zoom))[raw] == if zoom == raw.tile.zoom then |DrawnBy(g, points, raw)| else 0
  {
    var hits := (p: P, q: P) => if zoom == raw.tile.zoom then LinesDrawnAs(g, p, q, raw) else {};
    forall p, q | p in points && q in points ensures multiset(Pairs(g, zoom)(p, q))[raw] == |hits(p, q)| {
      PairCounts(g, zoom, p, q, raw);
    }
    PointsCount(Pairs(g, zoom), hits, points, raw);
    if zoom == raw.tile.zoom {
      assert HitPairs(hits, points) == DrawnBy(g, points, raw);
    } else {
      assert HitPairs(hits, points) == {};
    }
  }

  /**
    * A segment at a zoom level of the tier is drawn once for every line between neighbouring points of
    * the run that is drawn as it, and no other segment is drawn.
    */
  lemma DrawnCounts<P>(g: Geometry<P>, tier: LodTier, points: seq<P>, raw: RawSegment)
    ensures multiset(Drawn(g, tier, points))[raw]
         == if tier.zoomMin <= raw.tile.zoom <= tier.zoomMax then |DrawnBy(g, points, raw)| else 0
  {
    var level, count := Levels(g, points), |DrawnBy(g, points, raw)|;
    forall z: nat ensures multiset(level(z))[raw] == if z == raw.tile.zoom then count else 0 {
      LevelCounts(g, points, z, raw);
    }
    ZoomsCount(level, count, tier.zoomMin, tier.zoomMax + 1, raw);
    if |points| < 2 {
      assert DrawnBy(g, points, raw) == {};
    }
  }
}
