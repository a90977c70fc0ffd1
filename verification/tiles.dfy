/**
 Tile-set assembly (Downloader.cs `GenerateTiles` and `GetCoordinatesAround`).
 The spherical-Mercator projection and the WGS-84 geodesic forward
 calculation are floating-point code and stay uninterpreted: they are passed
 in as functions, so every property below holds for any projection and any
 geodesic calculator.
 */
module Tiles {

  /** A geographic coordinate in degrees. */
  datatype Coordinate = Coordinate(latitude: real, longitude: real)

  /** A raster tile; equality is structural, which is what the tile set deduplicates on. */
  datatype Tile = Tile(x: int, y: int, zoom: int)

  /** One request of the corridor loop: a distance in meters and a start bearing in degrees. */
  datatype Offset = Offset(distance: int, bearing: int)

  /** The integer part of `WorldToTilePos`: (x, y) for a coordinate at a zoom level. */
  type Projection = (Coordinate, int) -> (int, int)

  /** `CalculateEndingGlobalCoordinates(WGS84, origin, bearing, distance)`. */
  type Geodesic = (Coordinate, int, int) -> Coordinate

  /** The bearings the corridor loop walks, in order. */
  const Bearings: seq<int> := [0, 90, 180, 270]

  /** Spacing of the corridor samples, in meters. */
  const StepMeters: int := 500

  /** Radius of the corridor around every route point (one mile, in meters). */
  const CorridorRadius: real := 1609.34

  /** The corridor is only added for zoom levels above this one. */
  const CorridorZoomThreshold: int := 12

  /**
   Largest distance for which `GetCoordinatesAround`'s `int` counter never
   wraps. Beyond it `i += 500` wraps negative and the loop asks for wrapped
   distances; it ends after several wraps for distances up to 2147483644 and
   never ends above that.
   */
  const MaxCorridorDistance: real := 2147483500.0

  /** `WorldToTilePos`: the tile carries the zoom it was projected at. */
  function WorldToTilePos(project: Projection, c: Coordinate, zoom: int): (t: Tile)
    ensures t.zoom == zoom
    ensures (t.x, t.y) == project(c, zoom)
  {
    Tile(project(c, zoom).0, project(c, zoom).1, zoom)
  }

  /** The four bearings at one step of the corridor loop. */
  function Ring(i: int): (ring: seq<Offset>)
    ensures |ring| == 4
    ensures forall b :: 0 <= b < 4 ==> ring[b] == Offset(i, Bearings[b])
  {
    [Offset(i, 0), Offset(i, 90), Offset(i, 180), Offset(i, 270)]
  }

  /** The corridor loop from its `n`-th step (distance `500 * n`) on. */
  function OffsetsFrom(n: nat, distance: real): seq<Offset>
    requires n >= 1
    decreases if (StepMeters * n) as real < distance then distance.Floor - StepMeters * n + 1 else 0
  {
    if (StepMeters * n) as real < distance then Ring(StepMeters * n) + OffsetsFrom(n + 1, distance) else []
  }

  /** The loop from step `n` yields the rings `n, n + 1, ...` for as long as `500 * m < distance`. */
  lemma {:induction false} OffsetsFromShape(n: nat, distance: real)
    requires n >= 1
    ensures |OffsetsFrom(n, distance)| % 4 == 0
    ensures forall k :: 0 <= k < |OffsetsFrom(n, distance)| ==>
      OffsetsFrom(n, distance)[k] == Offset(StepMeters * (n + k / 4), Bearings[k % 4])
    ensures forall m :: n <= m ==> ((StepMeters * m) as real < distance <==> 4 * (m - n + 1) <= |OffsetsFrom(n, distance)|)
    decreases if (StepMeters * n) as real < distance then distance.Floor - StepMeters * n + 1 else 0
  {
    if (StepMeters * n) as real < distance {
      OffsetsFromShape(n + 1, distance);
      var rest := OffsetsFrom(n + 1, distance);
      var offs := Ring(StepMeters * n) + rest;
      assert OffsetsFrom(n, distance) == offs;
      forall k | 4 <= k < |offs|
        ensures offs[k] == Offset(StepMeters * (n + k / 4), Bearings[k % 4])
      {
        assert offs[k] == rest[k - 4];
        assert (k - 4) / 4 == k / 4 - 1 && (k - 4) % 4 == k % 4;
      }
      forall m | n < m
        ensures (StepMeters * m) as real < distance <==> 4 * (m - n + 1) <= |offs|
      {
        assert 4 * (m - n + 1) <= |offs| <==> 4 * (m - (n + 1) + 1) <= |rest|;
      }
    } else {
      forall m | n <= m
        ensures !((StepMeters * m) as real < distance)
      {
        assert StepMeters * n <= StepMeters * m;
      }
    }
  }

  /**
   `GetCoordinatesAround`'s request list: for `i = 500, 1000, ...` while
   `i < distance`, the bearings 0, 90, 180, 270 in that order.
   */
  function CorridorOffsets(distance: real): (offs: seq<Offset>)
    requires distance <= MaxCorridorDistance
    ensures |offs| % 4 == 0
    ensures forall k :: 0 <= k < |offs| ==> offs[k] == Offset(StepMeters * (k / 4 + 1), Bearings[k % 4])
    ensures forall m :: 1 <= m ==> ((StepMeters * m) as real < distance <==> 4 * m <= |offs|)
    ensures forall o :: o in offs ==> 0 < o.distance && (o.distance as real) < distance
  {
    var offs := OffsetsFrom(1, distance);
    OffsetsFromShape(1, distance);
    assert forall k :: 0 <= k < |offs| ==> (offs[k].distance as real) < distance by {
      forall k | 0 <= k < |offs|
        ensures (offs[k].distance as real) < distance
      {
        var m := k / 4 + 1;
        assert 4 * m <= |offs|;
        assert offs[k].distance == StepMeters * m;
      }
    }
    offs
  }

  /** The one-mile corridor asks for exactly twelve points: 500, 1000 and 1500 meters in each direction. */
  lemma OneMileCorridor()
    ensures CorridorOffsets(CorridorRadius) ==
      [Offset(500, 0), Offset(500, 90), Offset(500, 180), Offset(500, 270),
       Offset(1000, 0), Offset(1000, 90), Offset(1000, 180), Offset(1000, 270),
       Offset(1500, 0), Offset(1500, 90), Offset(1500, 180), Offset(1500, 270)]
  {
    var r4 := OffsetsFrom(4, CorridorRadius);
    assert r4 == [];
    var r3 := OffsetsFrom(3, CorridorRadius);
    assert r3 == Ring(1500) + r4;
    var r2 := OffsetsFrom(2, CorridorRadius);
    assert r2 == Ring(1000) + r3;
    assert OffsetsFrom(1, CorridorRadius) == Ring(500) + r2;
  }

  /** The tiles of the corridor samples `offs` around `c`, in loop order. */
  function CorridorTiles(project: Projection, endpoint: Geodesic, c: Coordinate, zoom: int, offs: seq<Offset>): seq<Tile>
  {
    seq(|offs|, k requires 0 <= k < |offs| => WorldToTilePos(project, endpoint(c, offs[k].bearing, offs[k].distance), zoom))
  }

  lemma CorridorTilesMembership(project: Projection, endpoint: Geodesic, c: Coordinate, zoom: int, offs: seq<Offset>, t: Tile)
    ensures t in CorridorTiles(project, endpoint, c, zoom, offs) <==>
      exists o :: o in offs && t == WorldToTilePos(project, endpoint(c, o.bearing, o.distance), zoom)
  {
    var ts := CorridorTiles(project, endpoint, c, zoom, offs);
    if t in ts {
      var k :| 0 <= k < |ts| && ts[k] == t;
      assert offs[k] in offs;
    }
    if exists o :: o in offs && t == WorldToTilePos(project, endpoint(c, o.bearing, o.distance), zoom) {
      var o :| o in offs && t == WorldToTilePos(project, endpoint(c, o.bearing, o.distance), zoom);
      var k :| 0 <= k < |offs| && offs[k] == o;
      assert ts[k] == t;
    }
  }

  /** The tiles one `(coordinate, zoom)` iteration of `GenerateTiles` offers, in order. */
  function TilesAt(project: Projection, endpoint: Geodesic, c: Coordinate, zoom: int): seq<Tile>
  {
    [WorldToTilePos(project, c, zoom)] +
    if zoom > CorridorZoomThreshold then CorridorTiles(project, endpoint, c, zoom, CorridorOffsets(CorridorRadius)) else []
  }

  /**
   `t` is required by route point `c` at `zoom`: it is the point's own tile,
   or, above the threshold zoom, the tile of one of its corridor samples.
   */
  ghost predicate Covers(project: Projection, endpoint: Geodesic, c: Coordinate, zoom: int, t: Tile) {
    || t == WorldToTilePos(project, c, zoom)
    || (zoom > CorridorZoomThreshold &&
        exists o :: o in CorridorOffsets(CorridorRadius) && t == WorldToTilePos(project, endpoint(c, o.bearing, o.distance), zoom))
  }

  /** `t` is required by some route point at some requested zoom. */
  ghost predicate Required(project: Projection, endpoint: Geodesic, coords: seq<Coordinate>, zooms: seq<int>, t: Tile) {
    exists c, z :: c in coords && z in zooms && Covers(project, endpoint, c, z, t)
  }

  lemma TilesAtCovers(project: Projection, endpoint: Geodesic, c: Coordinate, zoom: int, t: Tile)
    ensures t in TilesAt(project, endpoint, c, zoom) <==> Covers(project, endpoint, c, zoom, t)
  {
    hide CorridorOffsets, OffsetsFrom, WorldToTilePos;
    var offs := CorridorOffsets(CorridorRadius);
    var corridor := if zoom > CorridorZoomThreshold then CorridorTiles(project, endpoint, c, zoom, offs) else [];
    assert TilesAt(project, endpoint, c, zoom) == [WorldToTilePos(project, c, zoom)] + corridor;
    if zoom > CorridorZoomThreshold {
      CorridorTilesMembership(project, endpoint, c, zoom, offs, t);
    }
  }

  /** Inner loop of `GenerateTiles`: every zoom level for one route point, in order. */
  function ZoomCandidates(project: Projection, endpoint: Geodesic, c: Coordinate, zooms: seq<int>): seq<Tile>
    decreases |zooms|
  {
    if |zooms| == 0 then []
    else TilesAt(project, endpoint, c, zooms[0]) + ZoomCandidates(project, endpoint, c, zooms[1..])
  }

  /** Outer loop of `GenerateTiles`: every tile offered for insertion, in insertion order. */
  function Candidates(project: Projection, endpoint: Geodesic, coords: seq<Coordinate>, zooms: seq<int>): seq<Tile>
    decreases |coords|
  {
    if |coords| == 0 then []
    else ZoomCandidates(project, endpoint, coords[0], zooms) + Candidates(project, endpoint, coords[1..], zooms)
  }

  lemma {:induction false} ZoomCandidatesCover(project: Projection, endpoint: Geodesic, c: Coordinate, zooms: seq<int>, t: Tile)
    ensures t in ZoomCandidates(project, endpoint, c, zooms) <==> exists z :: z in zooms && Covers(project, endpoint, c, z, t)
    decreases |zooms|
  {
    if |zooms| > 0 {
      TilesAtCovers(project, endpoint, c, zooms[0], t);
      ZoomCandidatesCover(project, endpoint, c, zooms[1..], t);
      if exists z :: z in zooms && Covers(project, endpoint, c, z, t) {
        var z :| z in zooms && Covers(project, endpoint, c, z, t);
        if z != zooms[0] {
          assert z in zooms[1..];
        }
      }
    }
  }

  lemma {:induction false} CandidatesRequired(project: Projection, endpoint: Geodesic, coords: seq<Coordinate>, zooms: seq<int>, t: Tile)
    ensures t in Candidates(project, endpoint, coords, zooms) <==> Required(project, endpoint, coords, zooms, t)
    decreases |coords|
  {
    if |coords| > 0 {
      ZoomCandidatesCover(project, endpoint, coords[0], zooms, t);
      CandidatesRequired(project, endpoint, coords[1..], zooms, t);
      if Required(project, endpoint, coords, zooms, t) {
        var c, z :| c in coords && z in zooms && Covers(project, endpoint, c, z, t);
        if c != coords[0] {
          assert c in coords[1..];
        }
      }
      if Required(project, endpoint, coords[1..], zooms, t) {
        var c, z :| c in coords[1..] && z in zooms && Covers(project, endpoint, c, z, t);
        assert c in coords;
      }
    }
  }

  predicate NoDuplicates(s: seq<Tile>) {
    forall i, j :: 0 <= i < j < |s| ==> s[i] != s[j]
  }

  /**
   Insertion into a `HashSet` that has seen `seen`: each tile is kept at its
   first occurrence. (Enumerating a `HashSet` without removals yields its
   elements in insertion order, which is the order the session walks.)
   */
  function Dedup(s: seq<Tile>, seen: set<Tile>): (r: seq<Tile>)
    ensures NoDuplicates(r)
    ensures forall t :: t in r <==> t in s && t !in seen
    ensures |r| <= |s|
    decreases |s|
  {
    if |s| == 0 then []
    else if s[0] in seen then Dedup(s[1..], seen)
    else [s[0]] + Dedup(s[1..], seen + {s[0]})
  }

  /**
   `GenerateTiles`: every tile of every route point at every requested zoom,
   plus the one-mile corridor above zoom 12, each tile once.
   */
  function GenerateTiles(project: Projection, endpoint: Geodesic, coords: seq<Coordinate>, zooms: seq<int>): (tiles: seq<Tile>)
    ensures NoDuplicates(tiles)
    ensures forall t :: t in tiles <==> Required(project, endpoint, coords, zooms, t)
    ensures forall t :: t in tiles ==> t.zoom in zooms
  {
    var cands := Candidates(project, endpoint, coords, zooms);
    var tiles := Dedup(cands, {});
    assert forall t :: t in tiles <==> Required(project, endpoint, coords, zooms, t) by {
      forall t
        ensures t in tiles <==> Required(project, endpoint, coords, zooms, t)
      {
        CandidatesRequired(project, endpoint, coords, zooms, t);
      }
    }
    tiles
  }

  /** One route point at one zoom level up to 12 needs exactly its own tile. */
  lemma SinglePointCoarseZoom(project: Projection, endpoint: Geodesic, c: Coordinate, zoom: int)
    requires zoom <= CorridorZoomThreshold
    ensures GenerateTiles(project, endpoint, [c], [zoom]) == [WorldToTilePos(project, c, zoom)]
  {
    var own := WorldToTilePos(project, c, zoom);
    assert ZoomCandidates(project, endpoint, c, [zoom]) == [own] + [];
    assert Candidates(project, endpoint, [c], [zoom]) == [own] + [];
    assert Dedup([own], {}) == [own] + Dedup([], {own});
  }

  /** Above zoom 12 one route point needs its own tile and at most twelve corridor tiles besides. */
  lemma SinglePointFineZoom(project: Projection, endpoint: Geodesic, c: Coordinate, zoom: int)
    requires zoom > CorridorZoomThreshold
    ensures var tiles := GenerateTiles(project, endpoint, [c], [zoom]);
      1 <= |tiles| <= 13 && tiles[0] == WorldToTilePos(project, c, zoom)
  {
    var offs := CorridorOffsets(CorridorRadius);
    assert |offs| == 12 by {
      assert (StepMeters * 3) as real < CorridorRadius;
      assert !((StepMeters * 4) as real < CorridorRadius);
    }
    var own := WorldToTilePos(project, c, zoom);
    var ts := TilesAt(project, endpoint, c, zoom);
    assert |ts| == 13 && ts[0] == own;
    assert ZoomCandidates(project, endpoint, c, [zoom]) == ts + [];
    assert Candidates(project, endpoint, [c], [zoom]) == ts + [];
    var none: set<Tile> := {};
    assert none + {own} == {own};
    assert Dedup(ts, none) == [own] + Dedup(ts[1..], none + {own});
    assert Dedup(ts, {}) == [own] + Dedup(ts[1..], {own});
  }
}
