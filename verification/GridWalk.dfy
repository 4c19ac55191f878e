/**
  * The grid walk over the tiles that a projected segment crosses (compute/src/raster.rs), in exact
  * arithmetic: comparisons with the machine epsilon are comparisons with zero.
  */
module GridWalk {
  import opened Outcomes
  import opened Products

  const SIZE := 512.0
  const NUDGE := 0.0001
  const MAX_VISITS := 4096

  function Pow2(n: nat): (r: nat)
    ensures r > 0
  {
    if n == 0 then 1 else 2 * Pow2(n - 1)
  }

  function Tile(x: real): int {
    (x / SIZE).Floor
  }

  predicate OnBoundary(x: real) {
    x == Tile(x) as real * SIZE
  }

  // ------------------------------------------------------------------ one axis

  /** One coordinate of the segment, at parameter 0 and at parameter 1. */
  datatype Axis = Axis(start: real, end: real) {
    function At(t: real): real {
      start + t * (end - start)
    }

    function Length(): real {
      if start <= end then end - start else start - end
    }

    function Direction(): int {
      if start < end then 1 else if end < start then -1 else 0
    }

    /** The signed tile offset of a number of steps, and the signed distance of a length. */
    function Moved(n: nat): int {
      if Direction() > 0 then n else if Direction() < 0 then 0 - n as int else 0
    }

    function Towards(distance: real): real {
      if Direction() > 0 then distance else if Direction() < 0 then -distance else 0.0
    }

    /** The number of boundaries between the two ends. */
    function Steps(): nat {
      if Tile(start) <= Tile(end) then Tile(end) - Tile(start) else Tile(start) - Tile(end)
    }

    /** The distance travelled at the n-th boundary after the first one. */
    function Crossing(n: nat): real {
      n as real * SIZE
      + if Direction() > 0 then (Tile(start) + 1) as real * SIZE - start else start - Tile(start) as real * SIZE
    }

    /** No end lies on a boundary that the segment would touch without crossing it. */
    predicate Proper() {
      && (end < start ==> !OnBoundary(start))
      && (start < end ==> !OnBoundary(end))
    }

    predicate Within(tiles: nat) {
      0 <= Tile(start) < tiles && 0 <= Tile(end) < tiles
    }
  }

  function Clamp(x: real, high: real): real
    requires 0.0 <= high
  {
    if x < 0.0 then 0.0 else if x > high then high else x
  }

  /** Both ends clamped to the world and moved off the boundaries they would only touch. */
  function Prepare(startWorld: real, endWorld: real, tiles: nat): Axis
    requires tiles > 0
  {
    var high := tiles as real * SIZE - NUDGE;
    var start0, end0 := Clamp(startWorld, high), Clamp(endWorld, high);
    var start := if OnBoundary(start0) && end0 < start0 then start0 - NUDGE else start0;
    var end := if OnBoundary(end0) && end0 > start then end0 - NUDGE else end0;
    Axis(start, end)
  }

  lemma TileIs(x: real, k: int)
    requires k as real * SIZE <= x < (k + 1) as real * SIZE
    ensures Tile(x) == k
  {
  }

  /** Just below a boundary there is no boundary. */
  lemma BelowBoundary(x: real)
    requires OnBoundary(x)
    ensures Tile(x - NUDGE) == Tile(x) - 1 && !OnBoundary(x - NUDGE)
  {
    TileIs(x - NUDGE, Tile(x) - 1);
  }

  /** Two boundaries differ by a whole tile. */
  lemma BoundariesApart(x: real, y: real)
    requires OnBoundary(x) && OnBoundary(y) && x < y
    ensures x + SIZE <= y
  {
    assert Tile(x) < Tile(y);
  }

  /** The nudges never leave the world and leave no end on a boundary it only touches. */
  lemma PreparedIsProper(startWorld: real, endWorld: real, tiles: nat)
    requires tiles > 0
    ensures Prepare(startWorld, endWorld, tiles).Proper()
    ensures Prepare(startWorld, endWorld, tiles).Within(tiles)
  {
    var high := tiles as real * SIZE - NUDGE;
    var start0, end0 := Clamp(startWorld, high), Clamp(endWorld, high);
    var axis := Prepare(startWorld, endWorld, tiles);
    NudgedIsInside(start0, tiles);
    NudgedIsInside(end0, tiles);
    if OnBoundary(start0) && end0 < start0 {
      BelowBoundary(start0);
    }
    if OnBoundary(end0) && end0 > axis.start {
      BelowBoundary(end0);
    }
    if OnBoundary(start0) && OnBoundary(end0) {
      if start0 < end0 {
        BoundariesApart(start0, end0);
      } else if end0 < start0 {
        BoundariesApart(end0, start0);
      }
    }
  }

  /** A coordinate moved to the nearer end of the world, if it is outside. */
  predicate IsClamped(x: real, tiles: nat, r: real) {
    var high := tiles as real * 512.0 - 0.0001;
    0.0 <= r <= high && (r == x || (x < 0.0 && r == 0.0) || (x > high && r == high))
  }

  /** An end that is kept, or moved by 0.0001 off the tile boundary it lies on when the segment goes down from there. */
  predicate IsMovedDown(r: real, moved: real, down: bool) {
    var onBoundary := r == (r / 512.0).Floor as real * 512.0;
    moved == if onBoundary && down then r - 0.0001 else r
  }

  /** What the walk starts from: both ends clamped, and moved off boundaries they only touch. */
  lemma PreparedEnds(startWorld: real, endWorld: real, tiles: nat) returns (start: real, end: real)
    requires tiles > 0
    ensures IsClamped(startWorld, tiles, start) && IsClamped(endWorld, tiles, end)
    ensures var axis := Prepare(startWorld, endWorld, tiles);
            && IsMovedDown(start, axis.start, end < start)
            && IsMovedDown(end, axis.end, axis.start < end)
  {
    var high := tiles as real * SIZE - NUDGE;
    start, end := Clamp(startWorld, high), Clamp(endWorld, high);
  }

  lemma NudgedIsInside(x: real, tiles: nat)
    requires 0.0 <= x <= tiles as real * SIZE - NUDGE
    ensures 0 <= Tile(x) < tiles
    ensures OnBoundary(x) && 0.0 < x ==> 0 <= Tile(x - NUDGE) < tiles
  {
    if OnBoundary(x) && 0.0 < x {
      BelowBoundary(x);
    }
  }

  // --------------------------------------------------- boundaries along an axis

  /** A boundary comes before the end exactly when it lies between the two end tiles. */
  lemma CrossingBeforeEnd(a: Axis, n: nat)
    requires a.Proper() && a.Direction() != 0
    ensures a.Crossing(n) < a.Length() <==> n < a.Steps()
    ensures Tile(a.end) == Tile(a.start) + a.Moved(a.Steps())
  {
  }

  /** Between two boundaries the tile is the one that the steps so far lead to. */
  lemma TileBetween(a: Axis, n: nat, travelled: real)
    requires a.Direction() != 0
    requires a.Crossing(n) - SIZE < travelled < a.Crossing(n)
    ensures Tile(a.start + a.Towards(travelled)) == Tile(a.start) + a.Moved(n)
  {
    TileIs(a.start + a.Towards(travelled), Tile(a.start) + a.Moved(n));
  }

  // ------------------------------------------------------------- times of steps

  /** The distance travelled at a parameter. */
  ghost function Travelled(t: real, length: real): real {
    Times(t, length)
  }

  lemma TravelledIs(t: real, length: real)
    ensures Travelled(t, length) == t * length
  {
    TimesIs(t, length);
  }

  lemma Scaled(a: real, b: real, length: real)
    requires length > 0.0
    ensures a < b <==> Travelled(a, length) < Travelled(b, length)
    ensures a == b <==> Travelled(a, length) == Travelled(b, length)
  {
    TravelledIs(a, length);
    TravelledIs(b, length);
    if a < b {
      assert (b - a) * length > 0.0;
    } else if b < a {
      assert (a - b) * length > 0.0;
    }
  }

  lemma ScaledUnits(length: real)
    ensures Travelled(0.0, length) == 0.0 && Travelled(1.0, length) == length
  {
    TravelledIs(0.0, length);
    TravelledIs(1.0, length);
  }

  lemma ScaledSum(a: real, b: real, length: real)
    ensures Travelled(a + b, length) == Travelled(a, length) + Travelled(b, length)
  {
    TravelledIs(a, length);
    TravelledIs(b, length);
    TravelledIs(a + b, length);
  }

  /** The parameter at which a distance has been travelled. */
  function Time(distance: real, length: real): real {
    if length == 0.0 then 0.0 else distance * (1.0 / length)
  }

  lemma TimeOfDistance(distance: real, length: real)
    requires length > 0.0
    ensures Travelled(Time(distance, length), length) == distance
  {
    TravelledIs(Time(distance, length), length);
    calc {
      (distance * (1.0 / length)) * length;
      distance * ((1.0 / length) * length);
      { assert (1.0 / length) * length == 1.0; }
      distance;
    }
  }

  /** The parameter of the first boundary; an axis that does not move has none. */
  function FirstTime(a: Axis): Option<real> {
    if a.Direction() > 0 then
      Some(Time((Tile(a.start) + 1) as real * SIZE - a.start, a.Length()))
    else if a.Direction() < 0 then
      Some(Time(a.start - Tile(a.start) as real * SIZE, a.Length()))
    else None
  }

  /** The parameter between two boundaries. */
  function Delta(a: Axis): real {
    if a.Direction() == 0 then 0.0 else Time(SIZE, a.Length())
  }

  function Later(a: Axis, time: Option<real>): Option<real> {
    match time
    case None => None
    case Some(t) => Some(t + Delta(a))
  }

  predicate Before(a: Option<real>, b: Option<real>) {
    a.Some? && (b.Some? ==> a.value < b.value)
  }

  /** After n steps, at time t: the next boundary is ahead and the last one is behind. */
  ghost predicate Ahead(a: Axis, n: nat, next: Option<real>, t: real) {
    && n <= a.Steps()
    && (next.Some? <==> a.Direction() != 0)
    && (next.Some? ==>
          && t < next.value
          && Travelled(next.value, a.Length()) == a.Crossing(n)
          && a.Crossing(n) - SIZE <= Travelled(t, a.Length()))
  }

  lemma AheadAtStart(a: Axis)
    requires a.Proper()
    ensures Ahead(a, 0, FirstTime(a), 0.0)
  {
    if a.Direction() != 0 {
      TimeOfDistance((Tile(a.start) + 1) as real * SIZE - a.start, a.Length());
      TimeOfDistance(a.start - Tile(a.start) as real * SIZE, a.Length());
      Scaled(0.0, FirstTime(a).value, a.Length());
      ScaledUnits(a.Length());
    }
  }

  lemma AheadLater(a: Axis, n: nat, next: Option<real>, t: real, u: real)
    requires Ahead(a, n, next, t) && t <= u && (next.Some? ==> u < next.value)
    ensures Ahead(a, n, next, u)
  {
    if next.Some? && t < u {
      Scaled(t, u, a.Length());
    }
  }

  /** The axis is at its last tile exactly when its next boundary is not before the end. */
  lemma AheadOfEnd(a: Axis, n: nat, next: Option<real>, t: real)
    requires a.Proper() && Ahead(a, n, next, t)
    ensures n == a.Steps() <==> (next.Some? ==> next.value >= 1.0)
    ensures Tile(a.end) == Tile(a.start) + a.Moved(a.Steps())
  {
    if next.Some? {
      CrossingBeforeEnd(a, n);
      Scaled(next.value, 1.0, a.Length());
      ScaledUnits(a.Length());
    }
  }

  lemma AheadSteps(a: Axis, n: nat, next: Option<real>, t: real)
    requires a.Proper() && Ahead(a, n, next, t) && next.Some? && next.value < 1.0
    ensures Ahead(a, n + 1, Later(a, next), next.value)
  {
    AheadOfEnd(a, n, next, t);
    TimeOfDistance(SIZE, a.Length());
    Scaled(0.0, Delta(a), a.Length());
    ScaledUnits(a.Length());
    ScaledSum(next.value, Delta(a), a.Length());
  }

  lemma Position(a: Axis, u: real)
    ensures a.At(u) == a.start + a.Towards(Travelled(u, a.Length()))
  {
    TravelledIs(u, a.Length());
    if a.end < a.start {
      assert u * (a.end - a.start) == -(u * (a.start - a.end));
    } else if a.end == a.start {
      assert u * (a.end - a.start) == 0.0;
    }
  }

  lemma AheadTile(a: Axis, n: nat, next: Option<real>, t: real, u: real)
    requires Ahead(a, n, next, t) && t < u && (next.Some? ==> u < next.value)
    ensures Tile(a.At(u)) == Tile(a.start) + a.Moved(n)
  {
    Position(a, u);
    if next.Some? {
      Scaled(t, u, a.Length());
      Scaled(u, next.value, a.Length());
      TileBetween(a, n, Travelled(u, a.Length()));
    }
  }

  // ------------------------------------------------------------------ the walk

  function TileAt(x: Axis, y: Axis, t: real): (int, int) {
    (Tile(x.At(t)), Tile(y.At(t)))
  }

  /** The segment is in one tile between two parameters. */
  ghost predicate Leg(x: Axis, y: Axis, tile: (int, int), lo: real, hi: real) {
    forall u :: lo < u < hi ==> TileAt(x, y, u) == tile
  }

  /** The tiles of consecutive stretches of the segment, from parameter 0 on. */
  ghost predicate Itinerary(x: Axis, y: Axis, tiles: seq<(int, int)>, times: seq<real>) {
    && |times| == |tiles| + 1 && times[0] == 0.0 && times[|tiles|] <= 1.0
    && (forall k :: 0 <= k < |tiles| ==> times[k] < times[k + 1])
    && (forall k :: 0 <= k < |tiles| ==> Leg(x, y, tiles[k], times[k], times[k + 1]))
    && (forall k :: 0 <= k < |tiles| - 1 ==> tiles[k] != tiles[k + 1])
  }

  predicate InGrid(tile: (int, int), tiles: nat) {
    0 <= tile.0 < tiles && 0 <= tile.1 < tiles
  }

  function TileAfter(x: Axis, y: Axis, nx: nat, ny: nat): (int, int) {
    (Tile(x.start) + x.Moved(nx), Tile(y.start) + y.Moved(ny))
  }

  function EndTile(x: Axis, y: Axis): (int, int) {
    (Tile(x.end), Tile(y.end))
  }

  /** At time t, after nx and ny steps, before the end. */
  ghost predicate Walking(x: Axis, y: Axis, nx: nat, ny: nat, nextX: Option<real>, nextY: Option<real>, t: real) {
    && x.Proper() && y.Proper()
    && Ahead(x, nx, nextX, t) && Ahead(y, ny, nextY, t)
    && 0.0 <= t < 1.0
  }

  lemma WalkStaysBetween(a: Axis, n: nat, tiles: nat)
    requires a.Proper() && a.Within(tiles) && n <= a.Steps()
    ensures 0 <= Tile(a.start) + a.Moved(n) < tiles
  {
    if a.Direction() != 0 {
      CrossingBeforeEnd(a, n);
    }
  }

  /** The walk is at the end tile exactly when no boundary is left before the end. */
  lemma AtEndTile(x: Axis, y: Axis, nx: nat, ny: nat, nextX: Option<real>, nextY: Option<real>, t: real)
    requires Walking(x, y, nx, ny, nextX, nextY, t)
    ensures TileAfter(x, y, nx, ny) == EndTile(x, y)
       <==> (nextX.Some? ==> nextX.value >= 1.0) && (nextY.Some? ==> nextY.value >= 1.0)
  {
    AheadOfEnd(x, nx, nextX, t);
    AheadOfEnd(y, ny, nextY, t);
  }

  lemma LegUntil(x: Axis, y: Axis, nx: nat, ny: nat, nextX: Option<real>, nextY: Option<real>, t: real, hi: real)
    requires Walking(x, y, nx, ny, nextX, nextY, t)
    requires (nextX.Some? ==> hi <= nextX.value) && (nextY.Some? ==> hi <= nextY.value)
    ensures Leg(x, y, TileAfter(x, y, nx, ny), t, hi)
  {
    forall u | t < u < hi ensures TileAt(x, y, u) == TileAfter(x, y, nx, ny) {
      AheadTile(x, nx, nextX, t, u);
      AheadTile(y, ny, nextY, t, u);
    }
  }

  lemma ItineraryGrows(x: Axis, y: Axis, tiles: seq<(int, int)>, times: seq<real>, tile: (int, int), hi: real)
    requires Itinerary(x, y, tiles, times)
    requires times[|tiles|] < hi <= 1.0 && Leg(x, y, tile, times[|tiles|], hi)
    requires tiles != [] ==> tiles[|tiles| - 1] != tile
    ensures Itinerary(x, y, tiles + [tile], times + [hi])
  {
  }

  /** What the walk has recorded before it visits the tile it is at. */
  ghost predicate Recorded(x: Axis, y: Axis, visited: seq<(int, int)>, times: seq<real>, here: (int, int), t: real) {
    && Itinerary(x, y, visited, times) && times[|visited|] == t
    && (visited + [here])[0] == TileAfter(x, y, 0, 0)
    && (visited != [] ==> visited[|visited| - 1] != here && visited[|visited| - 1] != EndTile(x, y))
  }

  /** Where a walk is: at a tile, with the parameters of its next boundaries. */
  datatype Cursor = Cursor(tile: (int, int), nextX: Option<real>, nextY: Option<real>)

  function Start(x: Axis, y: Axis): Cursor {
    Cursor((Tile(x.start), Tile(y.start)), FirstTime(x), FirstTime(y))
  }

  /** One step: over the nearer boundary, or over both when they are met together. */
  function Advance(x: Axis, y: Axis, c: Cursor): Cursor {
    var (i, j) := c.tile;
    if Before(c.nextX, c.nextY) then Cursor((i + x.Direction(), j), Later(x, c.nextX), c.nextY)
    else if Before(c.nextY, c.nextX) then Cursor((i, j + y.Direction()), c.nextX, Later(y, c.nextY))
    else Cursor((i + x.Direction(), j + y.Direction()), Later(x, c.nextX), Later(y, c.nextY))
  }

  /** The tiles of at most n visits, up to the end tile and inside the grid. */
  function Tour(x: Axis, y: Axis, tiles: nat, c: Cursor, n: nat): (visited: seq<(int, int)>)
    ensures forall k :: 0 <= k < |visited| ==> InGrid(visited[k], tiles)
    decreases n
  {
    if !InGrid(c.tile, tiles) || n == 0 then []
    else if c.tile == EndTile(x, y) then [c.tile]
    else [c.tile] + Tour(x, y, tiles, Advance(x, y, c), n - 1)
  }

  /** At time t, at a tile nx and ny steps from the start. */
  ghost predicate AtStep(x: Axis, y: Axis, c: Cursor, nx: nat, ny: nat, t: real) {
    Walking(x, y, nx, ny, c.nextX, c.nextY, t) && c.tile == TileAfter(x, y, nx, ny)
  }

  /** A step leaves the tile when the segment does, towards the end. */
  lemma StepFollowsSegment(x: Axis, y: Axis, c: Cursor, nx: nat, ny: nat, t: real)
    returns (mx: nat, my: nat, u: real)
    requires AtStep(x, y, c, nx, ny, t) && c.tile != EndTile(x, y)
    ensures AtStep(x, y, Advance(x, y, c), mx, my, u) && Advance(x, y, c).tile != c.tile
    ensures t < u && Leg(x, y, c.tile, t, u)
    ensures nx <= mx <= nx + 1 && ny <= my <= ny + 1 && nx + ny < mx + my
  {
    AtEndTile(x, y, nx, ny, c.nextX, c.nextY, t);
    if Before(c.nextX, c.nextY) {
      mx, my, u := nx + 1, ny, c.nextX.value;
      AheadSteps(x, nx, c.nextX, t);
      AheadLater(y, ny, c.nextY, t, u);
    } else if Before(c.nextY, c.nextX) {
      mx, my, u := nx, ny + 1, c.nextY.value;
      AheadSteps(y, ny, c.nextY, t);
      AheadLater(x, nx, c.nextX, t, u);
    } else {
      mx, my, u := nx + 1, ny + 1, c.nextX.value;
      AheadSteps(x, nx, c.nextX, t);
      AheadSteps(y, ny, c.nextY, t);
    }
    LegUntil(x, y, nx, ny, c.nextX, c.nextY, t, u);
  }

  /** What a walk promises: see `TilesAreCrossed`. */
  ghost predicate Walked(x: Axis, y: Axis, visited: seq<(int, int)>, times: seq<real>) {
    && Itinerary(x, y, visited, times)
    && 0 < |visited| <= MAX_VISITS
    && visited[0] == (Tile(x.start), Tile(y.start))
    && (times[|visited|] == 1.0 <==> visited[|visited| - 1] == EndTile(x, y))
    && (times[|visited|] < 1.0 ==> |visited| == MAX_VISITS)
    && (x.Steps() + y.Steps() < MAX_VISITS ==> times[|visited|] == 1.0)
  }

  /** At the last visit the walk is over, at the end tile or cut off. */
  lemma WalkEnds(x: Axis, y: Axis, c: Cursor, visited: seq<(int, int)>, times: seq<real>, nx: nat, ny: nat, t: real)
    returns (all: seq<real>)
    requires AtStep(x, y, c, nx, ny, t) && Recorded(x, y, visited, times, c.tile, t) && |visited| <= nx + ny
    requires c.tile == EndTile(x, y) && |visited| < MAX_VISITS
    ensures Walked(x, y, visited + [c.tile], all)
  {
    AtEndTile(x, y, nx, ny, c.nextX, c.nextY, t);
    LegUntil(x, y, nx, ny, c.nextX, c.nextY, t, 1.0);
    ItineraryGrows(x, y, visited, times, c.tile, 1.0);
    all := times + [1.0];
  }

  lemma WalkIsCutOff(x: Axis, y: Axis, c: Cursor, visited: seq<(int, int)>, times: seq<real>, nx: nat, ny: nat, t: real)
    requires AtStep(x, y, c, nx, ny, t) && Recorded(x, y, visited, times, c.tile, t)
    requires |visited| <= nx + ny && |visited| == MAX_VISITS
    ensures Walked(x, y, visited, times)
  {
  }

  lemma WalkGoesOn(x: Axis, y: Axis, c: Cursor, visited: seq<(int, int)>, times: seq<real>, nx: nat, ny: nat, t: real)
    returns (mx: nat, my: nat, u: real)
    requires AtStep(x, y, c, nx, ny, t) && Recorded(x, y, visited, times, c.tile, t) && |visited| <= nx + ny
    requires c.tile != EndTile(x, y)
    ensures AtStep(x, y, Advance(x, y, c), mx, my, u) && |visited| + 1 <= mx + my
    ensures Recorded(x, y, visited + [c.tile], times + [u], Advance(x, y, c).tile, u)
  {
    mx, my, u := StepFollowsSegment(x, y, c, nx, ny, t);
    ItineraryGrows(x, y, visited, times, c.tile, u);
  }

  lemma InGridNow(x: Axis, y: Axis, tiles: nat, c: Cursor, nx: nat, ny: nat, t: real)
    requires x.Within(tiles) && y.Within(tiles) && AtStep(x, y, c, nx, ny, t)
    ensures InGrid(c.tile, tiles)
  {
    WalkStaysBetween(x, nx, tiles);
    WalkStaysBetween(y, ny, tiles);
  }

  lemma TourOpens(x: Axis, y: Axis, tiles: nat, c: Cursor, n: nat, visited: seq<(int, int)>)
    requires InGrid(c.tile, tiles) && n > 0
    ensures visited + Tour(x, y, tiles, c, n)
         == if c.tile == EndTile(x, y) then visited + [c.tile]
            else (visited + [c.tile]) + Tour(x, y, tiles, Advance(x, y, c), n - 1)
  {
  }

  /** From any moment on, the tour completes a walk. */
  lemma {:induction false} TourGoesOn(x: Axis, y: Axis, tiles: nat, c: Cursor, left: nat, visited: seq<(int, int)>,
                                      times: seq<real>, nx: nat, ny: nat, t: real)
    returns (all: seq<real>)
    requires x.Within(tiles) && y.Within(tiles) && AtStep(x, y, c, nx, ny, t)
    requires Recorded(x, y, visited, times, c.tile, t)
    requires |visited| <= nx + ny && |visited| + left == MAX_VISITS
    ensures Walked(x, y, visited + Tour(x, y, tiles, c, left), all)
    decreases left
  {
    InGridNow(x, y, tiles, c, nx, ny, t);
    if left == 0 {
      WalkIsCutOff(x, y, c, visited, times, nx, ny, t);
      assert visited + [] == visited;
      all := times;
    } else {
      TourOpens(x, y, tiles, c, left, visited);
      if c.tile == EndTile(x, y) {
        all := WalkEnds(x, y, c, visited, times, nx, ny, t);
      } else {
        var mx, my, u := WalkGoesOn(x, y, c, visited, times, nx, ny, t);
        all := TourGoesOn(x, y, tiles, Advance(x, y, c), left - 1, visited + [c.tile], times + [u], mx, my, u);
      }
    }
  }

  /** A whole tour is a walk along the segment. */
  lemma TourIsWalked(x: Axis, y: Axis, tiles: nat) returns (times: seq<real>)
    requires x.Proper() && x.Within(tiles) && y.Proper() && y.Within(tiles)
    ensures Walked(x, y, Tour(x, y, tiles, Start(x, y), MAX_VISITS), times)
  {
    AheadAtStart(x);
    AheadAtStart(y);
    times := TourGoesOn(x, y, tiles, Start(x, y), MAX_VISITS, [], [0.0], 0, 0, 0.0);
    var tour := Tour(x, y, tiles, Start(x, y), MAX_VISITS);
    assert [] + tour == tour;
  }

  /** The tiles of a segment at a zoom level. */
  function TilesOf(startX: real, startY: real, endX: real, endY: real, zoom: nat): (visited: seq<(int, int)>)
    ensures forall k :: 0 <= k < |visited| ==> InGrid(visited[k], Pow2(zoom))
  {
    var x, y := Prepare(startX, endX, Pow2(zoom)), Prepare(startY, endY, Pow2(zoom));
    Tour(x, y, Pow2(zoom), Start(x, y), MAX_VISITS)
  }

  /**
    * The visited tiles are those of the segment's consecutive stretches, without repeats, and the last
    * one is the end tile unless the walk is cut off at 4096 visits. It is not when the end tile is at
    * most 4095 tile steps away, and then the visited tiles are exactly the crossed ones.
    */
  lemma TilesAreCrossed(startX: real, startY: real, endX: real, endY: real, zoom: nat) returns (times: seq<real>)
    ensures var x, y := Prepare(startX, endX, Pow2(zoom)), Prepare(startY, endY, Pow2(zoom));
            var visited := TilesOf(startX, startY, endX, endY, zoom);
            && Walked(x, y, visited, times)
            && (forall i, j :: 0 <= i < j < |visited| ==> visited[i] != visited[j])
            && (x.Steps() + y.Steps() < MAX_VISITS ==> forall tile :: tile in visited <==> Crosses(x, y, tile))
  {
    var x, y := Prepare(startX, endX, Pow2(zoom)), Prepare(startY, endY, Pow2(zoom));
    PreparedIsProper(startX, endX, Pow2(zoom));
    PreparedIsProper(startY, endY, Pow2(zoom));
    times := TourIsWalked(x, y, Pow2(zoom));
    var visited := TilesOf(startX, startY, endX, endY, zoom);
    forall i, j | 0 <= i < j < |visited| ensures visited[i] != visited[j] {
      NoTileTwice(x, y, visited, times, i, j);
    }
    if times[|visited|] == 1.0 {
      forall tile ensures tile in visited <==> Crosses(x, y, tile) {
        VisitsExactlyCrossed(x, y, visited, times, tile);
      }
    }
  }

  method VisitCrossedTiles(startX: real, startY: real, endX: real, endY: real, zoom: nat)
    returns (visited: seq<(int, int)>)
    ensures visited == TilesOf(startX, startY, endX, endY, zoom)
  {
    var tiles := Pow2(zoom);
    visited := Walk(Prepare(startX, endX, tiles), Prepare(startY, endY, tiles), tiles, MAX_VISITS);
  }

  /** Walks from tile to tile, always over the nearer boundary. */
  method Walk(x: Axis, y: Axis, tiles: nat, visits: nat) returns (visited: seq<(int, int)>)
    ensures visited == Tour(x, y, tiles, Start(x, y), visits)
  {
    var here, end := (Tile(x.start), Tile(y.start)), (Tile(x.end), Tile(y.end));
    var nextX, nextY := FirstTime(x), FirstTime(y);
    ghost var all := Tour(x, y, tiles, Start(x, y), visits);
    ghost var left := visits;
    visited := [];
    assert visited + all == all;
    while InGrid(here, tiles) && |visited| < visits
      invariant |visited| + left == visits
      invariant visited + Tour(x, y, tiles, Cursor(here, nextX, nextY), left) == all
      decreases left
    {
      TourOpens(x, y, tiles, Cursor(here, nextX, nextY), left, visited);
      visited, left := visited + [here], left - 1;
      if here == end {
        return;
      }
      here, nextX, nextY := StepOver(x, y, here, nextX, nextY);
    }
    assert visited + [] == visited;
  }

  method StepOver(x: Axis, y: Axis, here: (int, int), nextX: Option<real>, nextY: Option<real>)
    returns (there: (int, int), laterX: Option<real>, laterY: Option<real>)
    ensures Cursor(there, laterX, laterY) == Advance(x, y, Cursor(here, nextX, nextY))
  {
    there, laterX, laterY := here, nextX, nextY;
    if Before(nextX, nextY) {
      there, laterX := (here.0 + x.Direction(), here.1), Later(x, nextX);
    } else if Before(nextY, nextX) {
      there, laterY := (here.0, here.1 + y.Direction()), Later(y, nextY);
    } else {
      there := (here.0 + x.Direction(), here.1 + y.Direction());
      laterX, laterY := Later(x, nextX), Later(y, nextY);
    }
  }

  // ------------------------------------------------------- what a walk has seen

  /** The segment is in the tile along a positive length of parameters. */
  ghost predicate Crosses(x: Axis, y: Axis, tile: (int, int)) {
    exists lo, hi :: 0.0 <= lo < hi <= 1.0 && Leg(x, y, tile, lo, hi)
  }

  lemma {:induction false} FindStretch(times: seq<real>, t: real, n: nat) returns (k: nat)
    requires n < |times| && times[0] <= t < times[n]
    ensures k < n && times[k] <= t < times[k + 1]
  {
    k := n - 1;
    if t < times[n - 1] {
      k := FindStretch(times, t, n - 1);
    }
  }

  lemma SharedParameter(x: Axis, y: Axis, a: (int, int), b: (int, int), lo: real, hi: real, lo': real, hi': real)
    requires Leg(x, y, a, lo, hi) && Leg(x, y, b, lo', hi')
    requires lo < hi && lo' < hi' && lo' <= lo < hi'
    ensures a == b
  {
    var u := if hi < hi' then (lo + hi) / 2.0 else (lo + hi') / 2.0;
    assert TileAt(x, y, u) == a;
    assert TileAt(x, y, u) == b;
  }

  /** A walk that is not cut off visits exactly the tiles that the segment crosses. */
  lemma VisitsExactlyCrossed(x: Axis, y: Axis, visited: seq<(int, int)>, times: seq<real>, tile: (int, int))
    requires Itinerary(x, y, visited, times) && times[|visited|] == 1.0
    ensures tile in visited <==> Crosses(x, y, tile)
  {
    if tile in visited {
      var k :| 0 <= k < |visited| && visited[k] == tile;
      TimesAscend(x, y, visited, times, 0, k);
      TimesAscend(x, y, visited, times, k + 1, |visited|);
      assert Leg(x, y, tile, times[k], times[k + 1]);
    }
    if Crosses(x, y, tile) {
      var lo, hi :| 0.0 <= lo < hi <= 1.0 && Leg(x, y, tile, lo, hi);
      var k := FindStretch(times, lo, |visited|);
      SharedParameter(x, y, tile, visited[k], lo, hi, times[k], times[k + 1]);
    }
  }

  lemma {:induction false} TimesAscend(x: Axis, y: Axis, tiles: seq<(int, int)>, times: seq<real>, i: nat, j: nat)
    requires Itinerary(x, y, tiles, times) && i <= j <= |tiles|
    ensures times[i] <= times[j] && (i < j ==> times[i] < times[j])
    decreases j
  {
    if i < j {
      TimesAscend(x, y, tiles, times, i, j - 1);
      assert times[j - 1] < times[j - 1 + 1];
    }
  }

  /** A coordinate that returns to a tile has not left it. */
  lemma AxisDoesNotReturn(a: Axis, t: real, u: real, v: real)
    requires t <= u <= v && Tile(a.At(t)) == Tile(a.At(v))
    ensures Tile(a.At(u)) == Tile(a.At(t))
  {
    var d := a.end - a.start;
    if d >= 0.0 {
      assert (u - t) * d >= 0.0 && (v - u) * d >= 0.0;
    } else {
      assert (u - t) * -d >= 0.0 && (v - u) * -d >= 0.0;
    }
  }

  function Middle(times: seq<real>, k: nat): real
    requires k + 1 < |times|
  {
    (times[k] + times[k + 1]) / 2.0
  }

  /** No tile is visited twice. */
  lemma NoTileTwice(x: Axis, y: Axis, visited: seq<(int, int)>, times: seq<real>, i: nat, j: nat)
    requires Itinerary(x, y, visited, times) && i < j < |visited|
    ensures visited[i] != visited[j]
  {
    TimesAscend(x, y, visited, times, i + 1, j);
    var t, u, v := Middle(times, i), Middle(times, i + 1), Middle(times, j);
    assert Leg(x, y, visited[i], times[i], times[i + 1]) && TileAt(x, y, t) == visited[i];
    assert Leg(x, y, visited[i + 1], times[i + 1], times[i + 2]) && TileAt(x, y, u) == visited[i + 1];
    assert Leg(x, y, visited[j], times[j], times[j + 1]) && TileAt(x, y, v) == visited[j];
    if visited[i] == visited[j] {
      if i + 1 < j {
        TimesAscend(x, y, visited, times, i + 2, j);
      }
      AxisDoesNotReturn(x, t, u, v);
      AxisDoesNotReturn(y, t, u, v);
    }
  }
}
