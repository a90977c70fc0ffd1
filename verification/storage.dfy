/**
 How a session names its output on disk: one folder per route and one file
 per tile under `{zoom}/{x}/{y}`, keeping the extension of the tile's
 address. The decoder below is the partner that shows a file name
 determines the tile it stores.
 */
module Storage {
  import opened Results
  import opened Text
  import opened Tiles

  /** `"{Name}-{hash}"`: the output folder of a route. */
  function FolderName(name: string, hash: string): string {
    name + "-" + hash
  }

  /** `"{folder}/{zoom}/{x}/{y}{ext}"`: where a tile is stored. */
  function FileName(folder: string, tile: Tile, ext: string): string {
    folder + "/" + IntToString(tile.zoom) + "/" + IntToString(tile.x) + "/" + IntToString(tile.y) + ext
  }

  /** What `Path.GetExtension` can return: nothing, or a dot followed by no directory separator. */
  predicate ValidExtension(ext: string) {
    ext == [] || (ext[0] == '.' && Free(ext, '/'))
  }

  /** The parts a file name is built from. */
  datatype FileKey = FileKey(folder: string, tile: Tile, extension: string)

  /** The length of the longest prefix of `s` made of numeral characters. */
  function NumeralRun(s: string): (n: nat)
    ensures n <= |s|
    ensures forall k :: 0 <= k < n ==> IsNumeral(s[k])
    ensures n < |s| ==> !IsNumeral(s[n])
  {
    if |s| == 0 || !IsNumeral(s[0]) then 0 else 1 + NumeralRun(s[1..])
  }

  /** Splits `s` around its last separator. */
  function SplitLast(s: string): (r: Option<(string, string)>)
    ensures r.Some? ==> Free(r.value.1, '/') && s == r.value.0 + "/" + r.value.1
    ensures r.None? ==> Free(s, '/')
  {
    match LastIndexOf(s, '/')
    case None => None
    case Some(i) =>
      assert s == s[..i] + "/" + s[i + 1..];
      Some((s[..i], s[i + 1..]))
  }

  /** Splits a file name at its last three separators and reads the numbers back. */
  function ParseFileName(name: string): Option<FileKey> {
    match SplitLast(name)
    case None => None
    case Some((front, last)) =>
      match SplitLast(front)
      case None => None
      case Some((outer, xs)) =>
        match SplitLast(outer)
        case None => None
        case Some((folder, zs)) =>
          var n := NumeralRun(last);
          match (ParseInt(zs), ParseInt(xs), ParseInt(last[..n]))
          case (Some(z), Some(x), Some(y)) => Some(FileKey(folder, Tile(x, y, z), last[n..]))
          case _ => None
  }

  /** A decimal rendering contains no separator. */
  lemma NumeralsFree(n: int)
    ensures Free(IntToString(n), '/')
  {
  }

  /** Splitting `a + "/" + b` at its last separator gives back `a` and `b`. */
  lemma SplitLastJoin(a: string, b: string)
    requires Free(b, '/')
    ensures SplitLast(a + "/" + b) == Some((a, b))
  {
    LastIndexOfJoin(a, '/', b);
    assert a + "/" + b == a + ['/'] + b;
    assert (a + "/" + b)[..|a|] == a;
    assert (a + "/" + b)[|a| + 1..] == b;
  }

  /** The numeral run of numerals followed by a non-numeral is exactly the numerals. */
  lemma {:induction false} NumeralRunJoin(a: string, b: string)
    requires forall k :: 0 <= k < |a| ==> IsNumeral(a[k])
    requires b == [] || !IsNumeral(b[0])
    ensures NumeralRun(a + b) == |a|
    decreases |a|
  {
    if |a| == 0 {
      assert a + b == b;
    } else {
      assert (a + b)[1..] == a[1..] + b;
      NumeralRunJoin(a[1..], b);
    }
  }

  /** The file name of a tile decodes to the folder, the tile and the extension it was built from. */
  lemma FileNameRoundTrip(folder: string, tile: Tile, ext: string)
    requires ValidExtension(ext)
    ensures ParseFileName(FileName(folder, tile, ext)) == Some(FileKey(folder, tile, ext))
  {
    var zs, xs, ys := IntToString(tile.zoom), IntToString(tile.x), IntToString(tile.y);
    var outer := folder + "/" + zs;
    var front := outer + "/" + xs;
    var name := FileName(folder, tile, ext);
    assert name == front + "/" + (ys + ext);
    NumeralsFree(tile.zoom);
    NumeralsFree(tile.x);
    NumeralsFree(tile.y);
    assert Free(ys + ext, '/') by {
      forall k | 0 <= k < |ys + ext|
        ensures (ys + ext)[k] != '/'
      {
        if k >= |ys| {
          assert (ys + ext)[k] == ext[k - |ys|];
        }
      }
    }
    SplitLastJoin(front, ys + ext);
    SplitLastJoin(outer, xs);
    SplitLastJoin(folder, zs);
    NumeralRunJoin(ys, ext);
    assert (ys + ext)[..|ys|] == ys;
    assert (ys + ext)[|ys|..] == ext;
    IntToStringRoundTrip(tile.zoom);
    IntToStringRoundTrip(tile.x);
    IntToStringRoundTrip(tile.y);
  }

  /** Different tiles (or folders, or extensions) are never stored under the same name. */
  lemma FileNameInjective(f1: string, t1: Tile, e1: string, f2: string, t2: Tile, e2: string)
    requires ValidExtension(e1) && ValidExtension(e2)
    requires FileName(f1, t1, e1) == FileName(f2, t2, e2)
    ensures f1 == f2 && t1 == t2 && e1 == e2
  {
    FileNameRoundTrip(f1, t1, e1);
    FileNameRoundTrip(f2, t2, e2);
  }
}
