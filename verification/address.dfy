/**
 Address resolution (Downloader.cs `GetAddress`): the subdomain group of the
 template is replaced by one letter chosen round-robin, then the `{z}`,
 `{zoom}`, `{x}` and `{y}` placeholders are filled in with the tile.
 */
module Address {
  import opened Results
  import opened Text
  import opened SubdomainPattern
  import opened Tiles

  /** `Substring(cursor, 1)` past the end of the letter group throws `ArgumentOutOfRangeException`. */
  datatype AddressError = SubdomainOutOfRange(letters: string, cursor: nat)

  /** A resolved address and the cursor the next call starts from. */
  datatype Resolved = Resolved(address: string, cursor: nat)

  /** The chained `Replace` calls that fill in the placeholders. */
  function Substitute(template: string, tile: Tile): string
  {
    var zoomed := ReplaceAll(template, "{z}", "{zoom}");
    var withZoom := ReplaceAll(zoomed, "{zoom}", IntToString(tile.zoom));
    var withX := ReplaceAll(withZoom, "{x}", IntToString(tile.x));
    ReplaceAll(withX, "{y}", IntToString(tile.y))
  }

  /** The letters of the first subdomain group of `template`, if it has one. */
  function SubdomainLetters(template: string): (letters: Option<string>)
    ensures letters.Some? <==> exists i, j :: IsMatch(template, i, j)
    ensures letters.Some? ==> exists i, j :: FirstMatch(template, i, j) && letters.value == template[i + 1..j]
  {
    match MatchFrom(template, 0)
    case None => None
    case Some(m) =>
      assert FirstMatch(template, m.start, m.stop);
      Some(Group(template, m))
  }

  /**
   The cursor after letter `i` of `n`: the next one, wrapping to the first.
   On an index inside the group this is `(i + 1) % n`; it is written without
   the remainder so that proofs about long walks stay linear.
   */
  function NextIndex(i: nat, n: nat): nat
    requires i < n
  {
    if i + 1 == n then 0 else i + 1
  }

  /** `NextIndex` is the source's `(subDomainNum + 1) % letters.Length` on every index it can see. */
  lemma NextIndexModulo(i: nat, n: nat)
    requires i < n
    ensures NextIndex(i, n) == (i + 1) % n
  {
  }

  /**
   `GetAddress`: with a subdomain group, the letter at the cursor replaces
   every match and the cursor moves on modulo the number of letters
   (`NextIndex`, which `NextIndexModulo` relates to `%`); a
   cursor past the letters (in particular an empty group `[]`) is an error
   and leaves the cursor where it was. Without a group the cursor is kept
   and only the placeholders are filled in.
   */
  function GetAddress(template: string, tile: Tile, cursor: nat): (r: Result<Resolved, AddressError>)
    ensures SubdomainLetters(template).None? ==> r == Success(Resolved(Substitute(template, tile), cursor))
    ensures SubdomainLetters(template).Some? ==>
      var letters := SubdomainLetters(template).value;
      && (r.Failure? <==> |letters| <= cursor)
      && (r.Failure? ==> r.error == SubdomainOutOfRange(letters, cursor))
      && (r.Success? ==> r.value.cursor < |letters| && r.value.cursor == NextIndex(cursor, |letters|))
      && (r.Success? ==> r.value.address == Substitute(ReplaceMatches(template, 0, letters[cursor]), tile))
  {
    match SubdomainLetters(template)
    case None => Success(Resolved(Substitute(template, tile), cursor))
    case Some(letters) =>
      if cursor + 1 > |letters| then Failure(SubdomainOutOfRange(letters, cursor))
      else
        var letter := letters[cursor];
        Success(Resolved(Substitute(ReplaceMatches(template, 0, letter), tile), NextIndex(cursor, |letters|)))
  }

  /** The address a given subdomain letter produces for a tile. */
  function AddressWith(template: string, letter: char, tile: Tile): string
  {
    Substitute(ReplaceMatches(template, 0, letter), tile)
  }

  /** Without a subdomain group every letter gives the same address: the template with its placeholders filled in. */
  lemma PlainAddressWith(template: string, letter: char, tile: Tile)
    requires SubdomainLetters(template).None?
    ensures AddressWith(template, letter, tile) == Substitute(template, tile)
  {
    assert MatchFrom(template, 0).None?;
    NoMatchUnchanged(template, letter);
  }

  /** Where the brackets of the example template `http://[abc].tile.com/{z}/{x}/{y}.png` are. */
  lemma ExampleShape(t: string)
    requires t == "http://[abc].tile.com/{z}/{x}/{y}.png"
    ensures forall k :: 0 <= k < |t| ==> t[k] != '\n'
    ensures forall k :: 0 <= k < 7 ==> t[k] != '['
    ensures forall k :: 11 < k < |t| ==> t[k] != ']'
    ensures t[7] == '[' && t[11] == ']' && |t| == 37
    ensures t[8] == 'a' && t[9] == 'b' && t[10] == 'c'
  {
  }

  /** The example template's subdomain group is `abc`. */
  lemma ExampleLetters(t: string)
    requires t == "http://[abc].tile.com/{z}/{x}/{y}.png"
    ensures SubdomainLetters(t) == Some("abc")
  {
    ExampleShape(t);
    SingleLineGreedy(t, 7, 11, 'a');
    assert t[8..11] == "abc";
  }

  /** A letter takes the place of the whole bracket span of the example template. */
  lemma ExampleReplacement(t: string, letter: char)
    requires t == "http://[abc].tile.com/{z}/{x}/{y}.png"
    ensures ReplaceMatches(t, 0, letter) == "http://" + [letter] + ".tile.com/{z}/{x}/{y}.png"
  {
    var prefix, suffix := "http://", ".tile.com/{z}/{x}/{y}.png";
    assert t[..7] == prefix by {
      forall k | 0 <= k < 7
        ensures t[k] == prefix[k]
      {
      }
    }
    assert t[12..] == suffix by {
      forall k | 0 <= k < 25
        ensures t[12 + k] == suffix[k]
      {
      }
    }
    ExampleShape(t);
    SingleLineGreedy(t, 7, 11, letter);
  }

  /**
   Three calls on the example template from a fresh cursor use `a`, `b`,
   `c` and bring the cursor back to 0, so the fourth call uses `a` again.
   */
  lemma ExampleRoundRobin(t: string, tile: Tile)
    requires t == "http://[abc].tile.com/{z}/{x}/{y}.png"
    ensures GetAddress(t, tile, 0) == Success(Resolved(AddressWith(t, 'a', tile), 1))
    ensures GetAddress(t, tile, 1) == Success(Resolved(AddressWith(t, 'b', tile), 2))
    ensures GetAddress(t, tile, 2) == Success(Resolved(AddressWith(t, 'c', tile), 0))
  {
    ExampleLetters(t);
  }

  /** A template read as literal characters and `{name}` placeholders. */
  datatype Piece = Lit(c: char) | Hole(name: string)

  function Key(name: string): string {
    "{" + name + "}"
  }

  /** A placeholder name that contains no brace. */
  predicate PlainName(name: string) {
    Free(name, '{') && Free(name, '}')
  }

  /** Literal text never contains `{`, so every `{` starts a placeholder. */
  predicate WellFormed(p: Piece) {
    match p
    case Lit(c) => c != '{'
    case Hole(name) => PlainName(name)
  }

  function RenderPiece(p: Piece): string {
    match p
    case Lit(c) => [c]
    case Hole(name) => Key(name)
  }

  /** The template text the pieces spell. */
  function Render(ps: seq<Piece>): string
    decreases |ps|
  {
    if |ps| == 0 then [] else RenderPiece(ps[0]) + Render(ps[1..])
  }

  /** What a piece stands for once the tile is known: `{z}` and `{zoom}` the zoom, `{x}` and `{y}` the coordinates. */
  function FillPiece(p: Piece, tile: Tile): string {
    match p
    case Lit(c) => [c]
    case Hole(name) =>
      if name == "z" || name == "zoom" then IntToString(tile.zoom)
      else if name == "x" then IntToString(tile.x)
      else if name == "y" then IntToString(tile.y)
      else Key(name)
  }

  /** Reference reading of placeholder substitution, piece by piece. */
  function Fill(ps: seq<Piece>, tile: Tile): string
    decreases |ps|
  {
    if |ps| == 0 then [] else FillPiece(ps[0], tile) + Fill(ps[1..], tile)
  }

  /** A placeholder never starts with the key of another placeholder name. */
  lemma KeyMismatch(m: string, rest: string, n: string)
    requires PlainName(m) && PlainName(n) && m != n
    ensures !StartsWith(Key(m) + rest, Key(n))
  {
    var s := Key(m) + rest;
    var kn := Key(n);
    var k: nat;
    if |n| < |m| {
      k := |n| + 1;
      assert s[k] == m[|n|];
    } else if |n| > |m| {
      k := |m| + 1;
      assert kn[k] == n[|m|];
    } else {
      var i :| 0 <= i < |m| && m[i] != n[i];
      k := i + 1;
      assert s[k] == m[i] && kn[k] == n[i];
    }
    assert k < |kn| && k < |s| && s[k] != kn[k];
    if |kn| <= |s| {
      assert s[..|kn|][k] != kn[k];
    }
  }

  /** The placeholder sought, at the front, is replaced. */
  lemma ReplaceAllSameKey(m: string, rest: string, rep: string)
    ensures ReplaceAll(Key(m) + rest, Key(m), rep) == rep + ReplaceAll(rest, Key(m), rep)
  {
    var s := Key(m) + rest;
    var km := Key(m);
    assert s[..|km|] == km;
    assert s[|km|..] == rest;
    hide *;
    ReplaceAllHit(s, km, rep);
  }

  /** A different placeholder at the front is copied whole. */
  lemma ReplaceAllOtherKey(m: string, rest: string, n: string, rep: string)
    requires PlainName(m) && PlainName(n) && m != n
    ensures ReplaceAll(Key(m) + rest, Key(n), rep) == Key(m) + ReplaceAll(rest, Key(n), rep)
  {
    var s := Key(m) + rest;
    var kn := Key(n);
    KeyMismatch(m, rest, n);
    KeyShape(m, n);
    hide *;
    ReplaceAllCopy('{', m + "}", rest, kn, rep);
  }

  /** A key is `{`, then the name and `}`; after the opening brace no other key can start. */
  lemma KeyShape(m: string, n: string)
    requires PlainName(m)
    ensures Key(m) == ['{'] + (m + "}")
    ensures |Key(n)| > 0 && Key(n)[0] == '{' && Free(m + "}", Key(n)[0])
  {
  }

  /** A placeholder is replaced when it is the one sought and copied whole otherwise. */
  lemma ReplaceAllKey(m: string, rest: string, n: string, rep: string)
    requires PlainName(m) && PlainName(n)
    ensures ReplaceAll(Key(m) + rest, Key(n), rep) == (if m == n then rep else Key(m)) + ReplaceAll(rest, Key(n), rep)
  {
    if m == n {
      ReplaceAllSameKey(m, rest, rep);
    } else {
      ReplaceAllOtherKey(m, rest, n, rep);
    }
  }

  /** The four placeholder patterns as keys. */
  lemma PatternKeys()
    ensures "{z}" == Key("z") && "{zoom}" == Key("zoom") && "{x}" == Key("x") && "{y}" == Key("y")
    ensures PlainName("z") && PlainName("zoom") && PlainName("x") && PlainName("y")
  {
  }

  /** Substitution consumes one placeholder and fills it in exactly as `FillPiece` does. */
  lemma SubstituteHole(m: string, rest: string, tile: Tile)
    requires PlainName(m)
    ensures Substitute(Key(m) + rest, tile) == FillPiece(Hole(m), tile) + Substitute(rest, tile)
  {
    PatternKeys();
    var z, x, y := IntToString(tile.zoom), IntToString(tile.x), IntToString(tile.y);
    var r1 := ReplaceAll(rest, "{z}", "{zoom}");
    var r2 := ReplaceAll(r1, "{zoom}", z);
    var r3 := ReplaceAll(r2, "{x}", x);
    var m1 := if m == "z" then "zoom" else m;
    ReplaceAllKey(m, rest, "z", "{zoom}");
    ReplaceAllKey(m1, r1, "zoom", z);
    if m1 == "zoom" {
      ReplaceAllFreePrefix(z, r2, "{x}", x);
      ReplaceAllFreePrefix(z, r3, "{y}", y);
    } else {
      ReplaceAllKey(m1, r2, "x", x);
      if m1 == "x" {
        ReplaceAllFreePrefix(x, r3, "{y}", y);
      } else {
        ReplaceAllKey(m1, r3, "y", y);
      }
    }
  }

  /** Substitution copies a literal character that cannot start a placeholder. */
  lemma SubstituteLit(c: char, rest: string, tile: Tile)
    requires c != '{'
    ensures Substitute([c] + rest, tile) == [c] + Substitute(rest, tile)
  {
    var r1 := ReplaceAll(rest, "{z}", "{zoom}");
    var r2 := ReplaceAll(r1, "{zoom}", IntToString(tile.zoom));
    var r3 := ReplaceAll(r2, "{x}", IntToString(tile.x));
    ReplaceAllFreePrefix([c], rest, "{z}", "{zoom}");
    ReplaceAllFreePrefix([c], r1, "{zoom}", IntToString(tile.zoom));
    ReplaceAllFreePrefix([c], r2, "{x}", IntToString(tile.x));
    ReplaceAllFreePrefix([c], r3, "{y}", IntToString(tile.y));
  }

  /**
   On any template whose literal text has no `{`, the chained `Replace`
   calls turn every `{z}` and `{zoom}` into the zoom, every `{x}` and `{y}`
   into the tile's coordinates, and leave everything else as it was.
   */
  lemma {:induction false} Placeholders(ps: seq<Piece>, tile: Tile)
    requires forall k :: 0 <= k < |ps| ==> WellFormed(ps[k])
    ensures Substitute(Render(ps), tile) == Fill(ps, tile)
    decreases |ps|
  {
    if |ps| > 0 {
      Placeholders(ps[1..], tile);
      match ps[0]
      case Lit(c) => SubstituteLit(c, Render(ps[1..]), tile);
      case Hole(m) => SubstituteHole(m, Render(ps[1..]), tile);
    }
  }
}
