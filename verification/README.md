# Offline map downloader: tile session model

A Dafny model of the download session of the OfflineMapCreator downloader
(`com.atgardner.Downloader/Downloader.cs`). One session takes a route, a set
of zoom levels and a map source, and does the following:

- it builds the set of tiles the route needs;
- it resolves each tile's address from the source's template, dealing out the
  subdomain letters round robin;
- it names the file the tile is stored in;
- it skips tiles whose file already exists and takes one unit of the source's
  quota for every other tile;
- it reports progress whenever the integer percentage rises.

The model is functional. The downloader's fields `subDomainNum`, `counter` and
`total`, and the source's `Ammount`, are a `Bookkeeping` record threaded through
pure step functions. The session is a fold of those steps over the tile sequence.

Everything a tile does before its download is awaited runs synchronously in
the `foreach` of `DownloadTiles`. That covers address resolution, the existence
check and the quota decrement. So these steps happen in tile order, and the
sequential fold is faithful to them.

Modules, one file each:

- `Results` (`results.dfy`): `Option` and `Result`.
- `Text` (`text.dfy`): ordinal `String.Replace` and `Int32.ToString()`, with a
  parser that shows the decimal rendering is injective.
- `SubdomainPattern` (`subdomain.dfy`): the regular expression `\[(.*)\]`
  evaluated as a backtracking engine does. The leftmost `[` that has a `]` after
  it on its line wins, and the greedy `.*` stops at the last `]` before a line
  feed.
- `Tiles` (`tiles.dfy`): the corridor offsets, the tiles of one route point, and
  `GenerateTiles` as an insertion-ordered deduplication. The projection and the
  geodesic calculator are uninterpreted parameters.
- `Address` (`address.dfy`): `GetAddress`, the subdomain cursor, and a
  piece-by-piece reference reading of the placeholders.
- `Progress` (`progress.dfy`): `IncreaseCounter` with the 32-bit product
  `100 * counter` and truncating division. It also has a run of increments
  (`Advance`) and an exact-arithmetic reference (`Notified`).
- `Storage` (`storage.dfy`): the folder and file names, with a decoder that
  shows a file name determines its tile.
- `Downloader` (`downloader.dfy`): `DownloadTileAsync`, the walk over the tiles,
  and `DownloadTiles`.

Three behaviours of the code that the model keeps as they are:

- **Percentage arithmetic.** `100 * counter` is a 32-bit product, so it wraps
  once a counter exceeds 21474836. The model wraps too (`Progress.Wrap32`). The
  whole-session progress properties are proved for totals up to that bound,
  where the wrapped and the exact percentage agree.
- **Empty group.** An empty group `[]` makes `Substring` throw. The model turns
  that throw into an error result for the tile. The walk goes on with the next
  tile, and the session reports the first such error, as `Task.WhenAll` does.
- **Bracket span.** The pattern `\[(.*)\]` is greedy. A match starts at the
  first `[` that has a `]` later on its own line, and runs to the last `]` on
  that line. `Replace` puts the letter in place of that whole span, including
  any brackets and text between them.

## Model

| member | source | states |
|---|---|---|
| Text.ReplaceAll | com.atgardner.Downloader/Downloader.cs:166 | ordinal replace-all: a string without the pattern's first character is returned unchanged, and a same-length replacement keeps the length |
| Text.ReplaceAllJoin | com.atgardner.Downloader/Downloader.cs:166 | on text made of pattern-free parts separated by the pattern, replace-all puts the replacement exactly where each separator was and changes nothing else |
| Text.ReplaceAllFreePrefix | com.atgardner.Downloader/Downloader.cs:166 | a prefix that cannot start an occurrence is copied through unchanged by every `Replace` of the chain |
| Text.IntToString | com.atgardner.Downloader/Downloader.cs:166 | `ToString()` of an int is non-empty and starts with `-` exactly for negatives. Every other character is a digit, and there is no leading zero except in `0` itself |
| Text.IntToStringRoundTrip | com.atgardner.Downloader/Downloader.cs:166 | parsing the decimal rendering of any integer gives the integer back |
| Text.IntToStringInjective | com.atgardner.Downloader/Downloader.cs:87 | distinct integers have distinct renderings, so the zoom, x and y path segments identify the tile |
| SubdomainPattern.LineEnd | com.atgardner.Downloader/Downloader.cs:18 | the greedy `.*` can reach exactly up to the first line feed at or after its start |
| SubdomainPattern.LastClose | com.atgardner.Downloader/Downloader.cs:18 | backtracking out of `.*` stops at the last `]` in reach, and there is none after it |
| SubdomainPattern.MatchFrom | com.atgardner.Downloader/Downloader.cs:18 | `Regex.Match` finds a bracket span exactly when one exists. It starts at the leftmost possible `[`, and no longer span from that `[` exists |
| SubdomainPattern.NoMatchUnchanged | com.atgardner.Downloader/Downloader.cs:158-163 | without a match the template is left as it is |
| SubdomainPattern.SingleLineGreedy | com.atgardner.Downloader/Downloader.cs:157-163 | on a template without line feeds whose first `[` comes before its last `]`, the match runs from that `[` to that `]`. Group 1 is everything between them, and `Replace` puts the letter in place of the whole span |
| Address.SubdomainLetters | com.atgardner.Downloader/Downloader.cs:157-160 | a group is found exactly when the template has a bracket span. The group is the text strictly inside the leftmost span, taken at its longest |
| Address.NextIndexModulo | com.atgardner.Downloader/Downloader.cs:162 | the cursor step equals `(subDomainNum + 1) % subDomain.Length` on every index in range |
| Address.GetAddress | com.atgardner.Downloader/Downloader.cs:155-167 | without a group: the cursor is kept and only the placeholders are filled in. With a group: a cursor past the letters (an empty group in particular) is an error. Otherwise the letter at the cursor replaces the span and the cursor moves to the next letter, staying in range |
| Address.ExampleLetters | com.atgardner.Downloader/Downloader.cs:157-160 | the group of `http://[abc].tile.com/{z}/{x}/{y}.png` is `abc` |
| Address.ExampleReplacement | com.atgardner.Downloader/Downloader.cs:163 | a letter replaces `[abc]` in that template, and nothing else changes |
| Address.ExampleRoundRobin | com.atgardner.Downloader/Downloader.cs:161-163 | three calls from a fresh cursor use `a`, `b`, `c` and bring the cursor back to 0 |
| Address.KeyMismatch | com.atgardner.Downloader/Downloader.cs:166 | one placeholder never starts with the key of a different placeholder |
| Address.ReplaceAllKey | com.atgardner.Downloader/Downloader.cs:166 | a placeholder at the front is replaced when it is the one sought, and copied whole otherwise |
| Address.SubstituteHole | com.atgardner.Downloader/Downloader.cs:166 | the chain of four `Replace` calls turns a leading `{z}` or `{zoom}` into the zoom and `{x}`/`{y}` into the coordinates. Any other placeholder is kept, and the rest is substituted independently |
| Address.SubstituteLit | com.atgardner.Downloader/Downloader.cs:166 | a literal character other than `{` is copied by the chain |
| Address.Placeholders | com.atgardner.Downloader/Downloader.cs:166 | on any template whose literal text has no `{`, the chain equals the piece-by-piece reference reading `Fill` |
| Tiles.OffsetsFromShape | com.atgardner.Downloader/Downloader.cs:136-142 | from step `n` on, the loop asks for distance `500·(n + k/4)` at bearing `k % 4`. It continues exactly while the distance stays below the limit |
| Tiles.CorridorOffsets | com.atgardner.Downloader/Downloader.cs:134-144 | `GetCoordinatesAround` asks for distances 500, 1000, … strictly below the limit, each with bearings 0, 90, 180, 270 in that order, four per distance |
| Tiles.OneMileCorridor | com.atgardner.Downloader/Downloader.cs:136-141 | for the 1609.34 m of the call in `GenerateTiles` the corridor is exactly twelve points: 500, 1000 and 1500 m in each of the four directions |
| Tiles.CorridorTilesMembership | com.atgardner.Downloader/Downloader.cs:68-70 | a tile is among the corridor tiles exactly when some corridor offset projects to it |
| Tiles.TilesAtCovers | com.atgardner.Downloader/Downloader.cs:60-76 | one (coordinate, zoom) iteration offers exactly the point's own tile, plus the corridor tiles above zoom 12 |
| Tiles.ZoomCandidatesCover | com.atgardner.Downloader/Downloader.cs:58-77 | the inner loop offers exactly the tiles one route point needs at some requested zoom |
| Tiles.CandidatesRequired | com.atgardner.Downloader/Downloader.cs:54-78 | the outer loop offers exactly the tiles some route point needs at some requested zoom |
| Tiles.Dedup | com.atgardner.Downloader/Downloader.cs:53-75 | inserting into the `HashSet` keeps each tile once. It keeps exactly the offered tiles not seen before, and the result is no longer than the input |
| Tiles.GenerateTiles | com.atgardner.Downloader/Downloader.cs:51-81 | the tile set has no duplicates and holds exactly the required tiles: own tiles at every zoom and corridor tiles above zoom 12. Every tile's zoom is a requested one |
| Tiles.SinglePointCoarseZoom | com.atgardner.Downloader/Downloader.cs:60-66 | one point at a zoom up to 12 needs exactly its own tile |
| Tiles.SinglePointFineZoom | com.atgardner.Downloader/Downloader.cs:60-76 | above zoom 12 one point needs its own tile first and at most twelve corridor tiles besides |
| Progress.Wrap32 | com.atgardner.Downloader/Downloader.cs:115-117 | the wrapped product is an `int`, and equals the exact value whenever that fits |
| Progress.Wrap32Congruent | com.atgardner.Downloader/Downloader.cs:115-117 | wrapping changes a value by a multiple of 2^32 |
| Progress.QuotBounds | com.atgardner.Downloader/Downloader.cs:115-117 | `/` on non-negative operands is floor division |
| Progress.TruncDivBounds | com.atgardner.Downloader/Downloader.cs:115-117 | C# `/` on `int` truncates toward zero for either sign of the dividend |
| Progress.IncreaseCounter | com.atgardner.Downloader/Downloader.cs:113-122 | the counter stays an `int` and rises by one below `int.MaxValue`. A notification carrying the new counter and the total fires exactly when the 32-bit percentage strictly rises |
| Progress.IncreaseCounterExact | com.atgardner.Downloader/Downloader.cs:113-122 | below the overflow bound the counter rises by one. The notification fires exactly when the exact percentage rises, and always on the last increment |
| Progress.PercentExact | com.atgardner.Downloader/Downloader.cs:115-117 | for totals up to 21474836 and counters up to the total, the 32-bit percentage equals the exact one and is at most 100 |
| Progress.ExactPercentMonotone | com.atgardner.Downloader/Downloader.cs:115-118 | the exact percentage never falls as the counter rises |
| Progress.AdvanceCounter | com.atgardner.Downloader/Downloader.cs:113-122 | `n` increments from `c` leave the counter at `c + n` |
| Progress.AdvanceNotified | com.atgardner.Downloader/Downloader.cs:113-122 | the notifications of a run of increments equal the exact-arithmetic reference `Notified` |
| Progress.AdvanceEventsWithin | com.atgardner.Downloader/Downloader.cs:118-120 | every notification of a run carries the total and a counter inside the run, at a higher percentage than the start |
| Progress.AdvanceEventsIncreasing | com.atgardner.Downloader/Downloader.cs:116-120 | the counters in the notifications strictly increase |
| Progress.AdvanceEventsRising | com.atgardner.Downloader/Downloader.cs:115-118 | each notification is at a strictly higher percentage than the one before it |
| Progress.AdvanceEventCount | com.atgardner.Downloader/Downloader.cs:118 | a run fires at most as many notifications as percentage points it climbs |
| Progress.AdvanceFinal | com.atgardner.Downloader/Downloader.cs:118-120 | a run that reaches the total ends with the notification `(total, total)` |
| Progress.SessionProgress | com.atgardner.Downloader/Downloader.cs:113-122 | from zero, `total` increments end at `total` and never pass it. They fire at most 100 notifications, and the last one is `(total, total)` |
| Storage.FileNameRoundTrip | com.atgardner.Downloader/Downloader.cs:86-87 | with an extension `Path.GetExtension` can return, the file name `folder/zoom/x/y{ext}` decodes back to its folder, tile and extension |
| Storage.FileNameInjective | com.atgardner.Downloader/Downloader.cs:87 | two different (folder, tile, extension) triples never share a file name |
| Downloader.DownloadTile | com.atgardner.Downloader/Downloader.cs:83-111 | one tile faults exactly when its address does. Otherwise the cursor is the address's next cursor and the counter rises by one, with the increment's notification. The file is named from the tile and the address's extension; an existing file is skipped with the quota kept, a missing one is fetched with the quota down by one |
| Downloader.RotateModulo | com.atgardner.Downloader/Downloader.cs:162 | `k` cursor steps from `c` land on `(c + k) % n` |
| Downloader.RunTilesLedger | com.atgardner.Downloader/Downloader.cs:83-98 | in the walk, every handled tile is one of the tiles, named from its address and skipped exactly when its file exists. The counter rises by the handled tiles and the quota falls by the downloads |
| Downloader.RunTilesComplete | com.atgardner.Downloader/Downloader.cs:36-45 | with a cursor inside the group (or no group), no tile faults and every tile is handled and counted |
| Downloader.RunTilesEvents | com.atgardner.Downloader/Downloader.cs:36-45 | with such a cursor the walk notifies exactly as a run of one increment per tile does |
| Downloader.RunTilesCursorKept | com.atgardner.Downloader/Downloader.cs:157-158 | without a group the walk never moves the cursor |
| Downloader.RunTilesRoundRobin | com.atgardner.Downloader/Downloader.cs:157-163 | with a group the `k`-th tile is handled `k`-th with the letter `k` steps after the starting cursor, and the cursor ends `|tiles|` steps on |
| Downloader.RunTilesPlain | com.atgardner.Downloader/Downloader.cs:155-167 | without a group the `k`-th tile is handled `k`-th with only the placeholders filled in |
| Downloader.RunTilesEmptyGroup | com.atgardner.Downloader/Downloader.cs:157-163 | with an empty group every tile faults and nothing else changes, and the reported fault is the first tile's |
| Downloader.FetchedCountBounds | com.atgardner.Downloader/Downloader.cs:96 | the quota used is at most the number of handled tiles, and is zero exactly when every tile was skipped |
| Downloader.CursorFitsStart | com.atgardner.Downloader/Downloader.cs:31 | the reset cursor 0 addresses a letter of every group except the empty one |
| Downloader.SessionOutcome | com.atgardner.Downloader/Downloader.cs:27-49 | a session fails exactly when there are more tiles than an `int` counts (the tile set cannot be built) or there is a tile and the group is empty, and the error is the empty group's. Otherwise it returns `Name-hash` |
| Downloader.SessionLedger | com.atgardner.Downloader/Downloader.cs:27-49 | after a session the counter counts the handled tiles, and only the quota of the source changed, down by the downloads. Every handled tile is a generated tile, stored under its own file name and skipped exactly when that file existed |
| Downloader.SessionCached | com.atgardner.Downloader/Downloader.cs:88-96 | when the file each generated tile's address names already exists, whatever letter that address gets, nothing is downloaded and the source is left as it was; other files play no part |
| Downloader.SessionAddresses | com.atgardner.Downloader/Downloader.cs:85 | the `k`-th handled tile's address is the template with letter `k` modulo the group in place of the span and the tile's placeholders filled in; without a group any letter gives that same placeholder-only address |
| Downloader.SessionRoundRobin | com.atgardner.Downloader/Downloader.cs:157-163 | with `n` letters the `k`-th generated tile gets letter `k % n`, and the cursor ends at the tile count modulo `n` |
| Downloader.SessionPlain | com.atgardner.Downloader/Downloader.cs:155-167 | without a group every tile gets the template with its placeholders filled in, and the cursor stays at 0 |
| Downloader.SessionNotifications | com.atgardner.Downloader/Downloader.cs:113-122 | a session whose tiles all resolve counts to the tile count. It fires between 1 and 100 notifications, with rising counters and the right total, and the last is `(n, n)` |
| Downloader.DistinctFileNames | com.atgardner.Downloader/Downloader.cs:87 | actions that follow distinct tiles one for one are stored under distinct file names |
| Downloader.SessionDistinctFiles | com.atgardner.Downloader/Downloader.cs:83-87 | no two tiles of a session are written to the same file |

## Left out

- `WorldToTilePos`'s floating-point arithmetic (`Log`, `Tan`, `Cos`, `1 << zoom`) is not modelled. The projection is an uninterpreted parameter, so every property holds for any projection.
- The WGS-84 forward geodesic calculation belongs to an external library. It is an uninterpreted parameter `endpoint(origin, bearing, distance)`.
- `ComputeHash` (binary serialisation, MD5, Base64) is not modelled. The route hash is a parameter `computeHash`.
- `File.Exists`, `Path.GetExtension`, `Directory.CreateDirectory` and `Path.GetDirectoryName` are file-system and path calls. Existence and extension are parameters, and the directory creation is not modelled.
- Concurrency is not modelled: `Task.WhenAll`, `Task.Delay`, and the unsynchronised `counter++` of fetched tiles after their delay. The model runs the tasks in tile order. Under real interleavings the counter updates may race.
- Event delivery (`FireTileDownloaded` and its handler), `Console.WriteLine` and `source.LastAccess = DateTime.Today` are not modelled. The model records the notifications as a sequence.
- `CompositePackager.cs` only fans calls out to packagers that are not part of this model.
- Tiles.CorridorOffsets: requires a distance of at most 2147483500, the largest for which the `int` counter never wraps. Beyond it `i += 500` wraps negative and the loop asks for wrapped, partly negative distances; it ends after several wraps for distances up to 2147483644 and never ends above that. The session only uses 1609.34.
- Progress.SessionProgress: stated only for totals up to 21474836. Beyond that, `100 * counter` wraps and the percentages are no longer the intended ones; `Progress.IncreaseCounter` still models the wrap for every total.
- Downloader.SessionNotifications: same total bound as `Progress.SessionProgress`, for the same reason.
- C# strings are UTF-16. `Substring(subDomainNum, 1)` and `subDomain.Length` (lines 161-162) count code units, so a subdomain letter outside the Basic Multilingual Plane is two units in the source and one character in the model.
- `Int32.ToString()` and `string.Format` (lines 87 and 166) write a negative number with the current culture's `NegativeSign`. The model always writes `-`. Negative tile numbers occur for latitudes beyond about ±85.05°.
- Address.Placeholders: proved only for templates whose literal text has no `{`, so that every `{` opens a brace-free `{name}`. A template with a stray `{`, such as `http://h/{a{x}.png`, has no piece reading, so `Fill` says nothing about it. The source still replaces its `{x}`, giving `http://h/{a5.png`. `Address.Substitute` is the exact four-call chain of `Replace` for every template, so the model computes that result, but no lemma states it.
- Downloader.DownloadTile: `Path.GetExtension`, `Path.GetDirectoryName`, `Directory.CreateDirectory` and `ComputeHash` are taken never to throw. In the source, `Path.GetExtension` can reject an address with a character such as `|`, `"`, `<`, `>` or a control character, after `GetAddress` has already moved the cursor. The directory calls can fail on an invalid or too-long path or a denied access, before `Ammount--` and the counter step. Such a tile faults with the cursor advanced, and the last notification never fires. The "exactly when its address does" statements of `Downloader.DownloadTile`, `Downloader.SessionOutcome` and the walk lemmas hold only under this assumption.
- Downloader.SessionOutcome: the `TooManyTiles` threshold of `int.MaxValue` tiles is an idealisation. A `HashSet` stops growing at 2,146,435,069 elements, and memory usually runs out far sooner. So for tile counts just below `int.MaxValue` the model reports success where the program throws. Below the real limit the two agree.
- `MapSource.Ammount` is an `int`, modelled as unbounded. A quota driven below `int.MinValue` would wrap in the source.
- `HashSet` enumeration order is taken to be insertion order, which is what the set yields when nothing is removed. `Tiles.GenerateTiles` returns the tiles in that order.
- The cursor step is written as `NextIndex` (the next index, wrapping to 0) rather than `%`. `Address.NextIndexModulo` proves the two agree on every index the cursor can hold.


