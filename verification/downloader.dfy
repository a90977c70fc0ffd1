/**
 One download session (Downloader.cs `DownloadTiles` and `DownloadTileAsync`).
 Everything a tile does before its download is awaited runs synchronously
 inside the `foreach` over the tile array, so the subdomain cursor, the
 existence check, the quota and the counter of skipped tiles advance in tile
 order; the session is modelled as that sequential walk. The file system,
 the extension of an address and the route hash are collaborators passed in.
 */
module Downloader {
  import opened Results
  import opened Tiles
  import opened Address
  import opened Progress
  import opened Storage

  /** The parts of `MapSource` a session reads (`Name`, `Address`) and writes (`Ammount`). */
  datatype MapSource = MapSource(name: string, address: string, amount: int)

  /**
   What the session consults but does not compute: the projection and the
   geodesic calculator, `ComputeHash`, `File.Exists` and `Path.GetExtension`.
   */
  datatype Collaborators = Collaborators(
    project: Projection,
    endpoint: Geodesic,
    computeHash: seq<Coordinate> -> string,
    fileExists: string -> bool,
    extension: string -> string)

  /** The downloader's `subDomainNum`, `counter` and `total`, and the source's quota. */
  datatype Bookkeeping = Bookkeeping(cursor: nat, counter: int, total: int, amount: int)

  /** What happened to one tile: found on disk, or sent to the download. */
  datatype TileAction =
    | Skipped(tile: Tile, address: string, fileName: string)
    | Fetched(tile: Tile, address: string, fileName: string)

  /** One tile's effect on the bookkeeping. */
  datatype TileStep = TileStep(state: Bookkeeping, action: TileAction, event: Option<ProgressEvent>)

  /**
   `DownloadTileAsync` for one tile: resolve the address (advancing the
   cursor), derive the file name, then either count a file that already
   exists, or take one from the quota, download, and count it.
   */
  function DownloadTile(st: Bookkeeping, folder: string, template: string, tile: Tile, env: Collaborators): (r: Result<TileStep, AddressError>)
    requires 0 <= st.counter < st.total <= MaxInt32
    ensures r.Failure? <==> GetAddress(template, tile, st.cursor).Failure?
    ensures r.Failure? ==> r.error == GetAddress(template, tile, st.cursor).error
    ensures r.Success? ==>
      var resolved := GetAddress(template, tile, st.cursor).value;
      var name := FileName(folder, tile, env.extension(resolved.address));
      && r.value.state.cursor == resolved.cursor
      && r.value.state.counter == st.counter + 1
      && r.value.state.total == st.total
      && r.value.event == IncreaseCounter(st.counter, st.total).event
      && (env.fileExists(name) ==>
            r.value.state.amount == st.amount && r.value.action == Skipped(tile, resolved.address, name))
      && (!env.fileExists(name) ==>
            r.value.state.amount == st.amount - 1 && r.value.action == Fetched(tile, resolved.address, name))
  {
    match GetAddress(template, tile, st.cursor)
    case Failure(e) => Failure(e)
    case Success(resolved) =>
      var name := FileName(folder, tile, env.extension(resolved.address));
      var step := IncreaseCounter(st.counter, st.total);
      if env.fileExists(name) then
        Success(TileStep(Bookkeeping(resolved.cursor, step.counter, st.total, st.amount), Skipped(tile, resolved.address, name), step.event))
      else
        Success(TileStep(Bookkeeping(resolved.cursor, step.counter, st.total, st.amount - 1), Fetched(tile, resolved.address, name), step.event))
  }

  /** Where the walk over the tiles ended, what it reported, and the first fault if any tile faulted. */
  datatype Trace = Trace(state: Bookkeeping, events: seq<ProgressEvent>, actions: seq<TileAction>, fault: Option<AddressError>)

  /**
   The `foreach` over the tile array. A tile whose address cannot be
   resolved faults its own task and changes nothing; the walk goes on with
   the next tile, and `Task.WhenAll` later reports the first fault.
   */
  function RunTiles(st: Bookkeeping, folder: string, template: string, tiles: seq<Tile>, env: Collaborators): Trace
    requires 0 <= st.counter && st.counter + |tiles| <= st.total <= MaxInt32
    decreases |tiles|
  {
    if |tiles| == 0 then Trace(st, [], [], None)
    else
      match DownloadTile(st, folder, template, tiles[0], env)
      case Failure(e) =>
        var rest := RunTiles(st, folder, template, tiles[1..], env);
        Trace(rest.state, rest.events, rest.actions, Some(e))
      case Success(step) =>
        var rest := RunTiles(step.state, folder, template, tiles[1..], env);
        Trace(rest.state, Fired(step.event) + rest.events, [step.action] + rest.actions, rest.fault)
  }

  /** Why a session ends in an exception. */
  datatype SessionError =
    | AddressFault(error: AddressError)
    /** More tiles than a `HashSet` can hold (taken as `int.MaxValue`): `GenerateTiles` cannot finish. */
    | TooManyTiles

  /**
   The folder name or the exception, the source as the session leaves it,
   the downloader's cursor and counter afterwards, the notifications and the
   per-tile actions in tile order.
   */
  datatype Session = Session(
    result: Result<string, SessionError>,
    source: MapSource,
    cursor: nat,
    counter: int,
    events: seq<ProgressEvent>,
    actions: seq<TileAction>)

  /**
   `DownloadTiles`: reset the cursor and the counter, build the tile set,
   set the total, walk the tiles, and return the folder name unless a tile
   faulted. A tile set too large for a `HashSet` cannot be built at all, so
   such a session ends in an exception before any tile is fetched; the model
   places that limit at `int.MaxValue` tiles, the most any .NET collection
   can count.
   */
  function DownloadTiles(coords: seq<Coordinate>, zooms: seq<int>, source: MapSource, env: Collaborators): Session
  {
    var folder := FolderName(source.name, env.computeHash(coords));
    var tiles := GenerateTiles(env.project, env.endpoint, coords, zooms);
    if |tiles| > MaxInt32 then Session(Failure(TooManyTiles), source, 0, 0, [], [])
    else
      var trace := RunTiles(Bookkeeping(0, 0, |tiles|, source.amount), folder, source.address, tiles, env);
      var result := if trace.fault.Some? then Failure(AddressFault(trace.fault.value)) else Success(folder);
      Session(result, source.(amount := trace.state.amount), trace.state.cursor, trace.state.counter, trace.events, trace.actions)
  }

  /** The number of tiles that went to the download, each taking one unit of the quota. */
  function FetchedCount(actions: seq<TileAction>): nat
    decreases |actions|
  {
    if |actions| == 0 then 0
    else (if actions[0].Fetched? then 1 else 0) + FetchedCount(actions[1..])
  }

  /** The cursor can address a letter of the template's group (always true without a group). */
  predicate CursorFits(template: string, cursor: nat) {
    SubdomainLetters(template).None? || cursor < |SubdomainLetters(template).value|
  }

  /** The cursor `k` resolutions after `c` in a group of `n` letters. */
  function Rotate(c: nat, n: nat, k: nat): (r: nat)
    requires c < n
    ensures r < n
    decreases k
  {
    if k == 0 then c else Rotate(NextIndex(c, n), n, k - 1)
  }

  /** Euclidean remainders are unique. */
  lemma ModUnique(y: int, d: int, m: int, n: int)
    requires n > 0 && 0 <= m < n && y == d * n + m
    ensures y % n == m
  {
    var d', m' := y / n, y % n;
    assert n * (d - d') == m' - m;
    MulSign(n, d - d');
  }

  /** Advancing a wrapped cursor by `k` is advancing the unwrapped one. */
  lemma ModNext(c: nat, k: nat, n: nat)
    requires n > 0
    ensures ((c + 1) % n + k) % n == (c + 1 + k) % n
  {
    var q, r := (c + 1) / n, (c + 1) % n;
    var q2, r2 := (r + k) / n, (r + k) % n;
    assert c + 1 + k == (q + q2) * n + r2;
    ModUnique(c + 1 + k, q + q2, r2, n);
  }

  /** Rotating by `k` is adding `k` modulo the number of letters. */
  lemma {:induction false} RotateModulo(c: nat, n: nat, k: nat)
    requires c < n
    ensures Rotate(c, n, k) == (c + k) % n
    decreases k
  {
    if k == 0 {
      ModUnique(c, 0, c, n);
    } else {
      RotateModulo(NextIndex(c, n), n, k - 1);
      NextIndexModulo(c, n);
      ModNext(c, k - 1, n);
    }
  }

  /**
   What every tile the walk handled went through: its file name is derived
   from its address, it was skipped exactly when that file existed, the
   counter rose once per handled tile and the quota fell once per download.
   */
  lemma {:induction false} RunTilesLedger(st: Bookkeeping, folder: string, template: string, tiles: seq<Tile>, env: Collaborators)
    requires 0 <= st.counter && st.counter + |tiles| <= st.total <= MaxInt32
    ensures var tr := RunTiles(st, folder, template, tiles, env);
      && tr.state.total == st.total
      && tr.state.counter == st.counter + |tr.actions|
      && tr.state.amount == st.amount - FetchedCount(tr.actions)
      && |tr.actions| <= |tiles|
      && (forall a :: a in tr.actions ==>
            && a.tile in tiles
            && a.fileName == FileName(folder, a.tile, env.extension(a.address))
            && (a.Skipped? <==> env.fileExists(a.fileName)))
    decreases |tiles|
  {
    if |tiles| > 0 {
      var tr := RunTiles(st, folder, template, tiles, env);
      match DownloadTile(st, folder, template, tiles[0], env)
      case Failure(_) =>
        RunTilesLedger(st, folder, template, tiles[1..], env);
        forall a | a in tr.actions ensures a.tile in tiles {
          assert a.tile in tiles[1..];
        }
      case Success(step) =>
        var rest := RunTiles(step.state, folder, template, tiles[1..], env);
        RunTilesLedger(step.state, folder, template, tiles[1..], env);
        assert tr.actions == [step.action] + rest.actions;
        assert tr.actions[1..] == rest.actions;
        forall a | a in tr.actions ensures a.tile in tiles {
          if a != step.action {
            assert a in rest.actions;
            assert a.tile in tiles[1..];
          }
        }
    }
  }

  /** The walk over no tiles changes nothing. */
  lemma WalkEnd(st: Bookkeeping, folder: string, template: string, tiles: seq<Tile>, env: Collaborators)
    requires 0 <= st.counter && st.counter + |tiles| <= st.total <= MaxInt32 && |tiles| == 0
    ensures RunTiles(st, folder, template, tiles, env) == Trace(st, [], [], None)
    ensures Advance(st.counter, st.total, |tiles|).events == []
  {
  }

  /**
   A first tile whose cursor fits: its address resolves, the counter rises,
   the cursor still fits, and the rest of the walk starts from its state.
   */
  lemma FitsStep(st: Bookkeeping, folder: string, template: string, tiles: seq<Tile>, env: Collaborators)
    returns (step: TileStep, rest: Trace)
    requires 0 <= st.counter && st.counter + |tiles| <= st.total <= MaxInt32 && |tiles| > 0
    requires CursorFits(template, st.cursor)
    ensures CursorFits(template, step.state.cursor)
    ensures step.state.counter == st.counter + 1 && step.state.total == st.total
    ensures step.event == IncreaseCounter(st.counter, st.total).event
    ensures rest == RunTiles(step.state, folder, template, tiles[1..], env)
    ensures RunTiles(st, folder, template, tiles, env) ==
      Trace(rest.state, Fired(step.event) + rest.events, [step.action] + rest.actions, rest.fault)
  {
    assert GetAddress(template, tiles[0], st.cursor).Success?;
    step := DownloadTile(st, folder, template, tiles[0], env).value;
    rest := RunTiles(step.state, folder, template, tiles[1..], env);
  }

  /** With a cursor that fits the subdomain group no tile faults, and every tile is counted once. */
  lemma {:induction false} RunTilesComplete(st: Bookkeeping, folder: string, template: string, tiles: seq<Tile>, env: Collaborators)
    requires 0 <= st.counter && st.counter + |tiles| <= st.total <= MaxInt32
    requires CursorFits(template, st.cursor)
    ensures var tr := RunTiles(st, folder, template, tiles, env);
      && tr.fault.None?
      && |tr.actions| == |tiles|
      && tr.state.counter == st.counter + |tiles|
    decreases |tiles|
  {
    hide *;
    if |tiles| > 0 {
      var step, rest := FitsStep(st, folder, template, tiles, env);
      RunTilesComplete(step.state, folder, template, tiles[1..], env);
    } else {
      WalkEnd(st, folder, template, tiles, env);
    }
  }

  /**
   With a cursor that fits the subdomain group the notifications are those
   of as many counter increments as there are tiles.
   */
  lemma {:induction false} RunTilesEvents(st: Bookkeeping, folder: string, template: string, tiles: seq<Tile>, env: Collaborators)
    requires 0 <= st.counter && st.counter + |tiles| <= st.total <= MaxInt32
    requires CursorFits(template, st.cursor)
    ensures RunTiles(st, folder, template, tiles, env).events == Advance(st.counter, st.total, |tiles|).events
    decreases |tiles|
  {
    hide *;
    if |tiles| > 0 {
      var step, rest := FitsStep(st, folder, template, tiles, env);
      RunTilesEvents(step.state, folder, template, tiles[1..], env);
      AdvanceStep(st.counter, st.total, |tiles|);
    } else {
      WalkEnd(st, folder, template, tiles, env);
    }
  }

  /** Without a subdomain group the cursor is never touched. */
  lemma {:induction false} RunTilesCursorKept(st: Bookkeeping, folder: string, template: string, tiles: seq<Tile>, env: Collaborators)
    requires 0 <= st.counter && st.counter + |tiles| <= st.total <= MaxInt32
    requires SubdomainLetters(template).None?
    ensures RunTiles(st, folder, template, tiles, env).state.cursor == st.cursor
    decreases |tiles|
  {
    if |tiles| > 0 {
      var next := DownloadTile(st, folder, template, tiles[0], env).value.state;
      RunTilesCursorKept(next, folder, template, tiles[1..], env);
    }
  }

  /** One rotation more is one rotation from the next cursor. */
  lemma RotateNext(c: nat, n: nat, k: nat)
    requires c < n
    ensures Rotate(c, n, 0) == c
    ensures Rotate(c, n, k + 1) == Rotate(NextIndex(c, n), n, k)
  {
  }

  /**
   A first tile under a subdomain group: it gets the letter at the cursor,
   the cursor moves to the next letter, and the rest of the walk starts
   from its state.
   */
  lemma RoundRobinStep(st: Bookkeeping, folder: string, template: string, tiles: seq<Tile>, env: Collaborators, letters: string)
    returns (step: TileStep, rest: Trace)
    requires 0 <= st.counter && st.counter + |tiles| <= st.total <= MaxInt32 && |tiles| > 0
    requires SubdomainLetters(template) == Some(letters) && st.cursor < |letters|
    ensures step.state.cursor == NextIndex(st.cursor, |letters|) && step.state.cursor < |letters|
    ensures step.state.counter == st.counter + 1 && step.state.total == st.total
    ensures step.action.tile == tiles[0]
    ensures step.action.address == AddressWith(template, letters[st.cursor], tiles[0])
    ensures rest == RunTiles(step.state, folder, template, tiles[1..], env)
    ensures RunTiles(st, folder, template, tiles, env) ==
      Trace(rest.state, Fired(step.event) + rest.events, [step.action] + rest.actions, rest.fault)
  {
    assert GetAddress(template, tiles[0], st.cursor).Success?;
    step := DownloadTile(st, folder, template, tiles[0], env).value;
    rest := RunTiles(step.state, folder, template, tiles[1..], env);
  }

  /**
   With a subdomain group the `k`-th tile is handled `k`-th and gets the
   letter `k` places after the starting cursor: the letters are dealt round
   robin in tile order, and the cursor ends one letter further on per tile.
   */
  lemma {:induction false} RunTilesRoundRobin(st: Bookkeeping, folder: string, template: string, tiles: seq<Tile>, env: Collaborators, letters: string)
    requires 0 <= st.counter && st.counter + |tiles| <= st.total <= MaxInt32
    requires SubdomainLetters(template) == Some(letters) && st.cursor < |letters|
    ensures var tr := RunTiles(st, folder, template, tiles, env);
      && |tr.actions| == |tiles|
      && tr.state.cursor == Rotate(st.cursor, |letters|, |tiles|)
      && (forall k :: 0 <= k < |tiles| ==>
            && tr.actions[k].tile == tiles[k]
            && tr.actions[k].address == AddressWith(template, letters[Rotate(st.cursor, |letters|, k)], tiles[k]))
    decreases |tiles|
  {
    hide *;
    if |tiles| > 0 {
      var step, rest := RoundRobinStep(st, folder, template, tiles, env, letters);
      RunTilesRoundRobin(step.state, folder, template, tiles[1..], env, letters);
      var tr := RunTiles(st, folder, template, tiles, env);
      RotateNext(st.cursor, |letters|, |tiles| - 1);
      forall k | 0 <= k < |tiles|
        ensures tr.actions[k].tile == tiles[k]
        ensures tr.actions[k].address == AddressWith(template, letters[Rotate(st.cursor, |letters|, k)], tiles[k])
      {
        if k > 0 {
          RotateNext(st.cursor, |letters|, k - 1);
          assert tr.actions[k] == rest.actions[k - 1];
          assert tiles[k] == tiles[1..][k - 1];
        }
      }
    } else {
      WalkEnd(st, folder, template, tiles, env);
      RotateNext(st.cursor, |letters|, 0);
    }
  }

  /** A first tile without a subdomain group: its placeholders are filled in and the rest of the walk follows. */
  lemma PlainStep(st: Bookkeeping, folder: string, template: string, tiles: seq<Tile>, env: Collaborators)
    returns (step: TileStep, rest: Trace)
    requires 0 <= st.counter && st.counter + |tiles| <= st.total <= MaxInt32 && |tiles| > 0
    requires SubdomainLetters(template).None?
    ensures step.state.counter == st.counter + 1 && step.state.total == st.total
    ensures step.action.tile == tiles[0] && step.action.address == Substitute(template, tiles[0])
    ensures rest == RunTiles(step.state, folder, template, tiles[1..], env)
    ensures RunTiles(st, folder, template, tiles, env) ==
      Trace(rest.state, Fired(step.event) + rest.events, [step.action] + rest.actions, rest.fault)
  {
    step := DownloadTile(st, folder, template, tiles[0], env).value;
    rest := RunTiles(step.state, folder, template, tiles[1..], env);
  }

  /** Without a subdomain group the `k`-th tile is handled `k`-th with the template's placeholders filled in. */
  lemma {:induction false} RunTilesPlain(st: Bookkeeping, folder: string, template: string, tiles: seq<Tile>, env: Collaborators)
    requires 0 <= st.counter && st.counter + |tiles| <= st.total <= MaxInt32
    requires SubdomainLetters(template).None?
    ensures var tr := RunTiles(st, folder, template, tiles, env);
      && |tr.actions| == |tiles|
      && (forall k :: 0 <= k < |tiles| ==>
            tr.actions[k].tile == tiles[k] && tr.actions[k].address == Substitute(template, tiles[k]))
    decreases |tiles|
  {
    hide *;
    if |tiles| > 0 {
      var step, rest := PlainStep(st, folder, template, tiles, env);
      RunTilesPlain(step.state, folder, template, tiles[1..], env);
      var tr := RunTiles(st, folder, template, tiles, env);
      forall k | 0 < k < |tiles|
        ensures tr.actions[k].tile == tiles[k] && tr.actions[k].address == Substitute(template, tiles[k])
      {
        assert tr.actions[k] == rest.actions[k - 1];
        assert tiles[k] == tiles[1..][k - 1];
      }
    } else {
      WalkEnd(st, folder, template, tiles, env);
    }
  }

  /** With an empty group `[]` every tile faults and nothing else happens. */
  lemma {:induction false} RunTilesEmptyGroup(st: Bookkeeping, folder: string, template: string, tiles: seq<Tile>, env: Collaborators)
    requires 0 <= st.counter && st.counter + |tiles| <= st.total <= MaxInt32
    requires SubdomainLetters(template) == Some([])
    ensures var tr := RunTiles(st, folder, template, tiles, env);
      && tr.state == st && tr.events == [] && tr.actions == []
      && (|tiles| > 0 ==> tr.fault == Some(SubdomainOutOfRange([], st.cursor)))
      && (|tiles| == 0 ==> tr.fault.None?)
    decreases |tiles|
  {
    if |tiles| > 0 {
      RunTilesEmptyGroup(st, folder, template, tiles[1..], env);
    }
  }

  /** Every action counts towards the quota exactly when it is a download. */
  lemma {:induction false} FetchedCountBounds(actions: seq<TileAction>)
    ensures FetchedCount(actions) <= |actions|
    ensures FetchedCount(actions) == 0 <==> forall k :: 0 <= k < |actions| ==> actions[k].Skipped?
    decreases |actions|
  {
    if |actions| > 0 {
      FetchedCountBounds(actions[1..]);
      if forall k :: 0 <= k < |actions| ==> actions[k].Skipped? {
        assert forall k :: 0 <= k < |actions[1..]| ==> actions[1..][k] == actions[k + 1];
      }
      if FetchedCount(actions) == 0 {
        forall k | 0 <= k < |actions|
          ensures actions[k].Skipped?
        {
          if k > 0 {
            assert actions[k] == actions[1..][k - 1];
          }
        }
      }
    }
  }

  /** A fresh session starts at letter zero, which fits every group except the empty one. */
  lemma CursorFitsStart(template: string)
    ensures CursorFits(template, 0) <==> SubdomainLetters(template) != Some([])
  {
  }

  /**
   How `DownloadTiles` is put together when the tile count fits an `int`:
   the folder from the name and the route hash, a fresh bookkeeping with
   the tile count as total, and the walk's outcome.
   */
  lemma SessionWalk(coords: seq<Coordinate>, zooms: seq<int>, source: MapSource, env: Collaborators)
    returns (tiles: seq<Tile>, folder: string, start: Bookkeeping, trace: Trace)
    requires |GenerateTiles(env.project, env.endpoint, coords, zooms)| <= MaxInt32
    ensures tiles == GenerateTiles(env.project, env.endpoint, coords, zooms)
    ensures folder == FolderName(source.name, env.computeHash(coords))
    ensures start == Bookkeeping(0, 0, |tiles|, source.amount)
    ensures trace == RunTiles(start, folder, source.address, tiles, env)
    ensures DownloadTiles(coords, zooms, source, env) ==
      Session(if trace.fault.Some? then Failure(AddressFault(trace.fault.value)) else Success(folder),
              source.(amount := trace.state.amount), trace.state.cursor, trace.state.counter, trace.events, trace.actions)
  {
    tiles := GenerateTiles(env.project, env.endpoint, coords, zooms);
    folder := FolderName(source.name, env.computeHash(coords));
    start := Bookkeeping(0, 0, |tiles|, source.amount);
    trace := RunTiles(start, folder, source.address, tiles, env);
  }

  /**
   A session fails exactly when the tiles overflow the count or there is a
   tile and the template's subdomain group is empty; otherwise it returns
   the route's folder name.
   */
  lemma SessionOutcome(coords: seq<Coordinate>, zooms: seq<int>, source: MapSource, env: Collaborators)
    ensures var tiles := GenerateTiles(env.project, env.endpoint, coords, zooms);
      var s := DownloadTiles(coords, zooms, source, env);
      && (s.result.Failure? <==> |tiles| > MaxInt32 || (|tiles| > 0 && SubdomainLetters(source.address) == Some([])))
      && (|tiles| > MaxInt32 ==> s.result == Failure(TooManyTiles))
      && (|tiles| <= MaxInt32 && s.result.Failure? ==> s.result.error == AddressFault(SubdomainOutOfRange([], 0)))
      && (s.result.Success? ==> s.result.value == FolderName(source.name, env.computeHash(coords)))
  {
    if |GenerateTiles(env.project, env.endpoint, coords, zooms)| <= MaxInt32 {
      hide *;
      var tiles, folder, start, trace := SessionWalk(coords, zooms, source, env);
      if SubdomainLetters(source.address) == Some([]) {
        RunTilesEmptyGroup(start, folder, source.address, tiles, env);
      } else {
        CursorFitsStart(source.address);
        RunTilesComplete(start, folder, source.address, tiles, env);
      }
    }
  }

  /**
   What a session that gets to walk its tiles leaves behind: the counter
   counts the handled tiles, the quota is down by the downloads and nothing
   else of the source changes, and every handled tile is one of the
   generated tiles, stored under its own file name and skipped exactly when
   that file already existed.
   */
  lemma SessionLedger(coords: seq<Coordinate>, zooms: seq<int>, source: MapSource, env: Collaborators)
    requires |GenerateTiles(env.project, env.endpoint, coords, zooms)| <= MaxInt32
    ensures var tiles := GenerateTiles(env.project, env.endpoint, coords, zooms);
      var folder := FolderName(source.name, env.computeHash(coords));
      var s := DownloadTiles(coords, zooms, source, env);
      && s.counter == |s.actions| <= |tiles|
      && s.source == source.(amount := source.amount - FetchedCount(s.actions))
      && (forall a :: a in s.actions ==>
            && a.tile in tiles
            && a.fileName == FileName(folder, a.tile, env.extension(a.address))
            && (a.Skipped? <==> env.fileExists(a.fileName)))
  {
    hide *;
    var tiles, folder, start, trace := SessionWalk(coords, zooms, source, env);
    RunTilesLedger(start, folder, source.address, tiles, env);
  }

  /**
   The subdomain letter the `k`-th tile of a session gets: letter `k` modulo
   the group. Without a group the letter is never used, so any will do.
   */
  function SessionLetter(template: string, k: nat): char
  {
    match SubdomainLetters(template)
    case Some(letters) => if |letters| > 0 then letters[k % |letters|] else '-'
    case None => '-'
  }

  /**
   Every handled tile's address is the template with the tile's
   round-robin letter in place of the group and the placeholders filled in.
   */
  lemma SessionAddresses(coords: seq<Coordinate>, zooms: seq<int>, source: MapSource, env: Collaborators)
    requires |GenerateTiles(env.project, env.endpoint, coords, zooms)| <= MaxInt32
    ensures var s := DownloadTiles(coords, zooms, source, env);
      forall k :: 0 <= k < |s.actions| ==>
        s.actions[k].address == AddressWith(source.address, SessionLetter(source.address, k), s.actions[k].tile)
  {
    var s := DownloadTiles(coords, zooms, source, env);
    var g := SubdomainLetters(source.address);
    hide *;
    if g.None? {
      SessionPlain(coords, zooms, source, env);
      forall k | 0 <= k < |s.actions|
        ensures s.actions[k].address == AddressWith(source.address, SessionLetter(source.address, k), s.actions[k].tile)
      {
        PlainAddressWith(source.address, SessionLetter(source.address, k), s.actions[k].tile);
      }
    } else if |g.value| == 0 {
      assert g == Some([]);
      var tiles, folder, start, trace := SessionWalk(coords, zooms, source, env);
      RunTilesEmptyGroup(start, folder, source.address, tiles, env);
    } else {
      SessionRoundRobin(coords, zooms, source, env, g.value);
      forall k | 0 <= k < |s.actions|
        ensures s.actions[k].address == AddressWith(source.address, SessionLetter(source.address, k), s.actions[k].tile)
      {
        SessionLetterRoundRobin(source.address, g.value, k);
      }
    }
  }

  /** With a non-empty group the session letter is the group's letter `k` modulo its length. */
  lemma SessionLetterRoundRobin(template: string, letters: string, k: nat)
    requires SubdomainLetters(template) == Some(letters) && |letters| > 0
    ensures SessionLetter(template, k) == letters[k % |letters|]
  {
  }

  /**
   A repeat run: when the file that each generated tile's address names is
   already on disk, whichever subdomain letter the address gets, a session
   downloads nothing and leaves the quota alone. Files of other routes, and
   files under other extensions, play no part.
   */
  lemma SessionCached(coords: seq<Coordinate>, zooms: seq<int>, source: MapSource, env: Collaborators)
    requires |GenerateTiles(env.project, env.endpoint, coords, zooms)| <= MaxInt32
    requires forall t, letter :: t in GenerateTiles(env.project, env.endpoint, coords, zooms) ==>
      env.fileExists(FileName(FolderName(source.name, env.computeHash(coords)), t, env.extension(AddressWith(source.address, letter, t))))
    ensures var s := DownloadTiles(coords, zooms, source, env);
      && s.source == source
      && forall k :: 0 <= k < |s.actions| ==> s.actions[k].Skipped?
  {
    var s := DownloadTiles(coords, zooms, source, env);
    hide *;
    SessionLedger(coords, zooms, source, env);
    SessionAddresses(coords, zooms, source, env);
    forall k | 0 <= k < |s.actions|
      ensures s.actions[k].Skipped?
    {
      assert s.actions[k] in s.actions;
    }
    FetchedCountBounds(s.actions);
  }

  /**
   With a subdomain group of `n` letters the `k`-th generated tile is handled
   `k`-th with letter `k % n`, and the downloader's cursor is left at the
   tile count modulo `n`.
   */
  lemma SessionRoundRobin(coords: seq<Coordinate>, zooms: seq<int>, source: MapSource, env: Collaborators, letters: string)
    requires |GenerateTiles(env.project, env.endpoint, coords, zooms)| <= MaxInt32
    requires SubdomainLetters(source.address) == Some(letters) && |letters| > 0
    ensures var tiles := GenerateTiles(env.project, env.endpoint, coords, zooms);
      var s := DownloadTiles(coords, zooms, source, env);
      && |s.actions| == |tiles|
      && s.cursor == |tiles| % |letters|
      && (forall k :: 0 <= k < |tiles| ==>
            && s.actions[k].tile == tiles[k]
            && s.actions[k].address == AddressWith(source.address, letters[k % |letters|], tiles[k]))
  {
    hide *;
    var tiles, folder, start, trace := SessionWalk(coords, zooms, source, env);
    RunTilesRoundRobin(start, folder, source.address, tiles, env, letters);
    RotateModulo(0, |letters|, |tiles|);
    forall k | 0 <= k < |tiles|
      ensures trace.actions[k].address == AddressWith(source.address, letters[k % |letters|], tiles[k])
    {
      RotateModulo(0, |letters|, k);
    }
  }

  /**
   Without a subdomain group the `k`-th generated tile is handled `k`-th with
   the template's placeholders filled in, and the cursor stays at zero.
   */
  lemma SessionPlain(coords: seq<Coordinate>, zooms: seq<int>, source: MapSource, env: Collaborators)
    requires |GenerateTiles(env.project, env.endpoint, coords, zooms)| <= MaxInt32
    requires SubdomainLetters(source.address).None?
    ensures var tiles := GenerateTiles(env.project, env.endpoint, coords, zooms);
      var s := DownloadTiles(coords, zooms, source, env);
      && |s.actions| == |tiles|
      && s.cursor == 0
      && (forall k :: 0 <= k < |tiles| ==>
            s.actions[k].tile == tiles[k] && s.actions[k].address == Substitute(source.address, tiles[k]))
  {
    hide *;
    var tiles, folder, start, trace := SessionWalk(coords, zooms, source, env);
    RunTilesPlain(start, folder, source.address, tiles, env);
    RunTilesCursorKept(start, folder, source.address, tiles, env);
  }

  /**
   A session whose tiles all resolve reports its progress as the counter
   climbs from zero to the tile count: at most one notification per
   percent, with rising counts, the last one reporting the whole count.
   */
  lemma SessionNotifications(coords: seq<Coordinate>, zooms: seq<int>, source: MapSource, env: Collaborators)
    requires 0 < |GenerateTiles(env.project, env.endpoint, coords, zooms)| <= MaxExactTotal
    requires SubdomainLetters(source.address) != Some([])
    ensures var n := |GenerateTiles(env.project, env.endpoint, coords, zooms)|;
      var s := DownloadTiles(coords, zooms, source, env);
      && s.counter == n
      && s.events == Advance(0, n, n).events
      && 0 < |s.events| <= 100
      && s.events[|s.events| - 1] == ProgressEvent(n, n)
      && (forall i :: 0 <= i < |s.events| ==> s.events[i].total == n && 0 < s.events[i].current <= n)
      && (forall i, j :: 0 <= i < j < |s.events| ==> s.events[i].current < s.events[j].current)
  {
    assert MaxExactTotal <= MaxInt32;
    hide *;
    var tiles, folder, start, trace := SessionWalk(coords, zooms, source, env);
    CursorFitsStart(source.address);
    RunTilesComplete(start, folder, source.address, tiles, env);
    RunTilesEvents(start, folder, source.address, tiles, env);
    SessionProgress(|tiles|);
    AdvanceEventsIncreasing(0, |tiles|, |tiles|);
    forall i | 0 <= i < |trace.events|
      ensures trace.events[i].total == |tiles| && 0 < trace.events[i].current <= |tiles|
    {
      assert trace.events[i] in trace.events;
    }
  }

  /** Actions that follow distinct tiles one for one are stored under distinct file names. */
  lemma DistinctFileNames(actions: seq<TileAction>, tiles: seq<Tile>, folder: string, env: Collaborators)
    requires NoDuplicates(tiles) && |actions| == |tiles|
    requires forall k :: 0 <= k < |tiles| ==> actions[k].tile == tiles[k]
    requires forall a :: a in actions ==> a.fileName == FileName(folder, a.tile, env.extension(a.address))
    requires forall address :: ValidExtension(env.extension(address))
    ensures forall i, j :: 0 <= i < j < |actions| ==> actions[i].fileName != actions[j].fileName
  {
    forall i, j | 0 <= i < j < |actions|
      ensures actions[i].fileName != actions[j].fileName
    {
      var a, b := actions[i], actions[j];
      assert a in actions && b in actions;
      if a.fileName == b.fileName {
        FileNameInjective(folder, a.tile, env.extension(a.address), folder, b.tile, env.extension(b.address));
      }
    }
  }

  /**
   When the extensions are ones `Path.GetExtension` can produce and the
   group is usable, no two tiles of a session are stored under the same
   file name.
   */
  lemma SessionDistinctFiles(coords: seq<Coordinate>, zooms: seq<int>, source: MapSource, env: Collaborators)
    requires |GenerateTiles(env.project, env.endpoint, coords, zooms)| <= MaxInt32
    requires SubdomainLetters(source.address) != Some([])
    requires forall address :: ValidExtension(env.extension(address))
    ensures var s := DownloadTiles(coords, zooms, source, env);
      forall i, j :: 0 <= i < j < |s.actions| ==> s.actions[i].fileName != s.actions[j].fileName
  {
    hide *;
    var tiles := GenerateTiles(env.project, env.endpoint, coords, zooms);
    var folder := FolderName(source.name, env.computeHash(coords));
    var s := DownloadTiles(coords, zooms, source, env);
    SessionLedger(coords, zooms, source, env);
    match SubdomainLetters(source.address) {
      case None => SessionPlain(coords, zooms, source, env);
      case Some(letters) => SessionRoundRobin(coords, zooms, source, env, letters);
    }
    DistinctFileNames(s.actions, tiles, folder, env);
  }
}
