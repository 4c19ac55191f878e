/** From accumulated tiers to the published output (compute/src/lib.rs). */
module Publish {
  import opened Outcomes
  import opened Bytes
  import opened Ledger
  import opened Packing
  import Sorting

  function TileOrder(tile: TileKey): seq<int> {
    [tile.zoom, tile.x, tile.y]
  }

  function ShardOrder(shard: Shard): seq<int> {
    TileOrder(shard.tile)
  }

  lemma TileOrderIsInjective(a: TileKey, b: TileKey)
    requires TileOrder(a) == TileOrder(b)
    ensures a == b
  {
    assert TileOrder(a)[0] == a.zoom && TileOrder(a)[1] == a.x && TileOrder(a)[2] == a.y;
  }

  lemma TileOrderSeparates(tiles: set<TileKey>)
    ensures Sorting.Separates(TileOrder, tiles)
  {
    forall a, b | a in tiles && b in tiles && TileOrder(a) == TileOrder(b)
      ensures a == b
    {
      TileOrderIsInjective(a, b);
    }
  }

  /** The shards of the listed tiles; a tile without a selected segment is left out. */
  ghost function ShardsOf(weights: TierWeights, tiles: seq<TileKey>): seq<Shard>
    requires forall tile :: tile in tiles ==> tile in weights
  {
    if tiles == [] then []
    else
      var rest := ShardsOf(weights, tiles[1..]);
      if Budgeted(weights[tiles[0]], MAX_SEGMENTS_PER_TILE) == [] then rest
      else [Shard(tiles[0], TileBlob(weights[tiles[0]]))] + rest
  }

  /** `finalize_tier`: the tiles in key order. */
  ghost function FinalizeTier(weights: TierWeights): seq<Shard> {
    TileOrderSeparates(weights.Keys);
    Sorting.SortedMembers(TileOrder, weights.Keys);
    ShardsOf(weights, Sorting.Sorted(TileOrder, weights.Keys))
  }

  /** The tiers one after another, with the payload bound checked after each. */
  ghost function Collect(tiers: seq<Tier>): Option<seq<Shard>> {
    if tiers == [] then Some([])
    else
      var before :- Collect(tiers[..|tiers| - 1]);
      var all := before + FinalizeTier(tiers[|tiers| - 1].weights);
      if PayloadBound(all) then Some(all) else None
  }

  ghost function AllShards(tiers: seq<Tier>): seq<Shard> {
    if tiers == [] then [] else AllShards(tiers[..|tiers| - 1]) + FinalizeTier(tiers[|tiers| - 1].weights)
  }

  // ------------------------------------------------------ one shard for a tile

  ghost predicate CompactTier(weights: TierWeights) {
    forall tile :: tile in weights ==> CompactSegments(weights[tile])
  }

  lemma SelectionIsNonempty(weights: SegmentWeights)
    requires weights != map[]
    ensures Budgeted(weights, MAX_SEGMENTS_PER_TILE) != []
  {
    SelectionIsBest(weights, MAX_SEGMENTS_PER_TILE);
    assert |weights| > 0;
  }

  /** No tile is dropped: each listed tile gives one shard with the blob of its segments. */
  lemma {:induction false} ShardsAreTiles(weights: TierWeights, tiles: seq<TileKey>)
    requires forall tile :: tile in tiles ==> tile in weights
    requires CompactTier(weights)
    ensures var shards := ShardsOf(weights, tiles);
            && |shards| == |tiles|
            && forall i :: 0 <= i < |shards| ==> shards[i] == Shard(tiles[i], TileBlob(weights[tiles[i]]))
  {
    if tiles != [] {
      assert CompactSegments(weights[tiles[0]]);
      SelectionIsNonempty(weights[tiles[0]]);
      ShardsAreTiles(weights, tiles[1..]);
    }
  }

  /** The shards of a tier: one for each tile, strictly ascending, each acceptable to the consumer. */
  lemma TierShards(weights: TierWeights)
    requires CompactTier(weights)
    ensures var shards := FinalizeTier(weights);
            && |shards| == |weights|
            && Sorting.Ascending(ShardOrder, shards)
            && (forall i :: 0 <= i < |shards| ==>
                  && shards[i].tile in weights && shards[i].blob == TileBlob(weights[shards[i].tile])
                  && ConsumerAccepts(shards[i].blob))
  {
    TileOrderSeparates(weights.Keys);
    Sorting.SortedMembers(TileOrder, weights.Keys);
    Sorting.SortedAscends(TileOrder, weights.Keys);
    var tiles := Sorting.Sorted(TileOrder, weights.Keys);
    ShardsAreTiles(weights, tiles);
    var shards := FinalizeTier(weights);
    forall i | 0 <= i < |shards|
      ensures shards[i].tile in weights && ConsumerAccepts(shards[i].blob)
    {
      assert tiles[i] in tiles;
      assert CompactSegments(weights[tiles[i]]);
      TileBlobIsAccepted(weights[tiles[i]]);
    }
  }

  /** The tiers' zoom ranges lie one above the other. */
  ghost predicate Stacked(tiers: seq<Tier>) {
    forall s, t, a, b :: 0 <= s < t < |tiers| && a in tiers[s].weights && b in tiers[t].weights ==> a.zoom < b.zoom
  }

  lemma AscendingConcat(a: seq<Shard>, b: seq<Shard>)
    requires Sorting.Ascending(ShardOrder, a) && Sorting.Ascending(ShardOrder, b)
    requires forall x, y :: x in a && y in b ==> x.tile.zoom < y.tile.zoom
    ensures Sorting.Ascending(ShardOrder, a + b)
  {
    forall i, j | 0 <= i < j < |a + b|
      ensures Sorting.Less(ShardOrder((a + b)[i]), ShardOrder((a + b)[j]))
    {
      if i < |a| <= j {
        assert a[i] in a && b[j - |a|] in b;
      }
    }
  }

  ghost predicate IsShardOf(tiers: seq<Tier>, shard: Shard) {
    exists t ::
      0 <= t < |tiers| && shard.tile in tiers[t].weights && shard.blob == TileBlob(tiers[t].weights[shard.tile])
  }

  function TileTotal(tiers: seq<Tier>): nat {
    if tiers == [] then 0 else TileTotal(tiers[..|tiers| - 1]) + |tiers[|tiers| - 1].weights|
  }

  lemma {:induction false} ShardsBelong(tiers: seq<Tier>, x: Shard)
    requires Compact(tiers) && x in AllShards(tiers)
    ensures IsShardOf(tiers, x) && ConsumerAccepts(x.blob)
  {
    var n := |tiers| - 1;
    var init, weights := tiers[..n], tiers[n].weights;
    if x in AllShards(init) {
      ShardsBelong(init, x);
      var t :| 0 <= t < |init| && x.tile in init[t].weights && x.blob == TileBlob(init[t].weights[x.tile]);
      assert tiers[t] == init[t];
    } else {
      TierShards(weights);
      var j :| 0 <= j < |FinalizeTier(weights)| && FinalizeTier(weights)[j] == x;
      assert tiers[n].weights == weights;
    }
  }

  lemma EarlierTiersComeFirst(tiers: seq<Tier>, n: nat, x: Shard, y: Shard)
    requires Compact(tiers) && Stacked(tiers) && n < |tiers|
    requires x in AllShards(tiers[..n]) && y in FinalizeTier(tiers[n].weights)
    ensures x.tile.zoom < y.tile.zoom
  {
    ShardsBelong(tiers[..n], x);
    var t :| 0 <= t < n && x.tile in tiers[..n][t].weights;
    assert tiers[..n][t] == tiers[t];
    TierShards(tiers[n].weights);
    var j :| 0 <= j < |FinalizeTier(tiers[n].weights)| && FinalizeTier(tiers[n].weights)[j] == y;
  }

  lemma {:induction false} ShardsAscend(tiers: seq<Tier>)
    requires Compact(tiers) && Stacked(tiers)
    ensures |AllShards(tiers)| == TileTotal(tiers) && Sorting.Ascending(ShardOrder, AllShards(tiers))
  {
    if tiers != [] {
      var n := |tiers| - 1;
      ShardsAscend(tiers[..n]);
      TierShards(tiers[n].weights);
      var a, b := AllShards(tiers[..n]), FinalizeTier(tiers[n].weights);
      forall x, y | x in a && y in b ensures x.tile.zoom < y.tile.zoom {
        EarlierTiersComeFirst(tiers, n, x, y);
      }
      AscendingConcat(a, b);
    }
  }

  /** All shards: as many as tiles, already strictly ascending, each of a stored tile and acceptable. */
  lemma ShardsOfAllTiers(tiers: seq<Tier>)
    requires Compact(tiers) && Stacked(tiers)
    ensures var shards := AllShards(tiers);
            && |shards| == TileTotal(tiers)
            && Sorting.Ascending(ShardOrder, shards)
            && (forall x :: x in shards ==> IsShardOf(tiers, x) && ConsumerAccepts(x.blob))
  {
    ShardsAscend(tiers);
    forall x | x in AllShards(tiers) ensures IsShardOf(tiers, x) && ConsumerAccepts(x.blob) {
      ShardsBelong(tiers, x);
    }
  }

  lemma {:induction false} PrefixBound(a: seq<Shard>, b: seq<Shard>)
    requires PayloadBound(a + b)
    ensures PayloadBound(a)
    decreases |b|
  {
    if b == [] {
      assert a + b == a;
    } else {
      assert (a + b)[..|a + b| - 1] == a + b[..|b| - 1];
      PrefixBound(a, b[..|b| - 1]);
    }
  }

  /** Checking the bound after every tier amounts to checking it once at the end. */
  lemma {:induction false} CollectExactly(tiers: seq<Tier>)
    ensures Collect(tiers) == if tiers == [] || PayloadBound(AllShards(tiers)) then Some(AllShards(tiers)) else None
  {
    if tiers != [] {
      var init, last := tiers[..|tiers| - 1], FinalizeTier(tiers[|tiers| - 1].weights);
      CollectExactly(init);
      if PayloadBound(AllShards(tiers)) {
        PrefixBound(AllShards(init), last);
      }
    }
  }

  // ------------------------------------------------------------------- output

  datatype Diagnostics = Diagnostics(visitorInvocations: nat, driveCount: nat, inputPointCount: nat,
                                     producedTileCount: nat)

  datatype TileOutput =
    | ReadyEmpty(driveCount: nat, diagnostics: Diagnostics)
    | ReadyData(driveCount: nat, tileCount: nat, payload: ByteString, diagnostics: Diagnostics)

  datatype FinishError = DrivesDiverged | CountOverflow | OverBound | BadBlob

  ghost function SortShards(shards: seq<Shard>): seq<Shard>
    requires Sorting.Separates(ShardOrder, Elements(shards))
  {
    Sorting.Sorted(ShardOrder, Elements(shards))
  }

  ghost predicate DrivesAgree(tiers: seq<Tier>) {
    forall t :: 0 <= t < |tiers| ==> tiers[t].drives == tiers[0].drives
  }

  /** What follows the visitor: the consistency check, packing, sorting and encoding. */
  ghost function Finish(tiers: seq<Tier>, points: nat): Result<TileOutput, FinishError>
    requires tiers != [] && Sorting.Separates(ShardOrder, Elements(AllShards(tiers)))
  {
    if !DrivesAgree(tiers) then Failure(DrivesDiverged)
    else
      match Collect(tiers)
      case None => Failure(OverBound)
      case Some(shards) =>
        CollectExactly(tiers);
        var observed := tiers[0].drives;
        if observed > MAX_I64 then Failure(CountOverflow)
        else
          var diagnostics := Diagnostics(1, observed, points, |shards|);
          if shards == [] then Success(ReadyEmpty(observed, diagnostics))
          else
            match EncodePayload(SortShards(shards))
            case None => Failure(BadBlob)
            case Some(payload) => Success(ReadyData(observed, |shards|, payload, diagnostics))
  }

  lemma AscendingSeparates(shards: seq<Shard>)
    requires Sorting.Ascending(ShardOrder, shards)
    ensures Sorting.Separates(ShardOrder, Elements(shards))
    ensures SortShards(shards) == shards
  {
    forall x, y | x in Elements(shards) && y in Elements(shards) && ShardOrder(x) == ShardOrder(y)
      ensures x == y
    {
      var i :| 0 <= i < |shards| && shards[i] == x;
      var j :| 0 <= j < |shards| && shards[j] == y;
      if i < j {
        Sorting.LessIsStrict(ShardOrder(x), ShardOrder(y));
      } else if j < i {
        Sorting.LessIsStrict(ShardOrder(y), ShardOrder(x));
      }
    }
    Sorting.AscendingIsSorted(ShardOrder, Elements(shards), shards);
  }

  lemma AcceptedIsAligned(shards: seq<Shard>)
    requires forall x :: x in shards ==> ConsumerAccepts(x.blob)
    ensures AllAligned(shards)
  {
    forall i | 0 <= i < |shards|
      ensures AlignedBlob(shards[i].blob)
    {
      assert shards[i] in shards;
    }
  }
}
