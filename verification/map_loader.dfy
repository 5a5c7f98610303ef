/** `load_environment_from_string` (environment.rs): the text map format. The
    string is trimmed, cut into lines, each line into whitespace-separated
    codes; a first pass checks the shape, a second decodes the codes row by
    row into terrain and items and finds the single start cell. */
module MapLoader {
  import opened Wrappers
  import opened Types
  import opened Grids
  import opened World

  /** Why a map text was refused; the source reports these as message strings. */
  datatype LoadError =
    | EmptyMap
    | ZeroWidth
    | InconsistentWidth(row: nat, expected: nat, found: nat)
    | UnknownCode(code: string, x: nat, y: nat)
    | MultipleStarts
    | NoStart

  /** Rust's `char::is_whitespace` (the Unicode White_Space property), which
      `trim` and `split_whitespace` both use. */
  predicate IsWhitespace(c: char)
  {
    || ('\t' <= c <= '\r') || c == ' ' || c == '\U{0085}' || c == '\U{00A0}' || c == '\U{1680}'
    || ('\U{2000}' <= c <= '\U{200A}') || c == '\U{2028}' || c == '\U{2029}' || c == '\U{202F}'
    || c == '\U{205F}' || c == '\U{3000}'
  }

  /** The first place at or after `i` that holds a non-blank, or the end of
      `s` when there is none: where `trim` starts its result. */
  function SkipBlanks(s: string, i: nat): (n: nat)
    requires i <= |s|
    ensures i <= n <= |s|
    ensures forall k | i <= k < n :: IsWhitespace(s[k])
    ensures n == |s| || !IsWhitespace(s[n])
    decreases |s| - i
  {
    if i < |s| && IsWhitespace(s[i]) then SkipBlanks(s, i + 1) else i
  }

  /** The place just after the last non-blank before `j` and not before
      `lo`, or `lo` when there is none: where `trim` ends its result. */
  function BackBlanks(s: string, lo: nat, j: nat): (m: nat)
    requires lo <= j <= |s|
    ensures lo <= m <= j
    ensures forall k | m <= k < j :: IsWhitespace(s[k])
    ensures m == lo || !IsWhitespace(s[m - 1])
    decreases j
  {
    if j > lo && IsWhitespace(s[j - 1]) then BackBlanks(s, lo, j - 1) else j
  }

  /** Every character is whitespace. */
  predicate Blank(s: string)
  {
    forall k | 0 <= k < |s| :: IsWhitespace(s[k])
  }

  /** `trim`: a piece of `s` with only whitespace cut off on either side,
      which is empty or starts and ends with a non-blank. */
  function Trim(s: string): (r: string)
    ensures |r| <= |s|
    ensures |r| == 0 || (!IsWhitespace(r[0]) && !IsWhitespace(r[|r| - 1]))
    ensures (|r| == 0) <==> Blank(s)
  {
    var i := SkipBlanks(s, 0);
    var j := BackBlanks(s, i, |s|);
    TrimPiece(s, i, j);
    s[i..j]
  }

  /** Cutting the blanks before `i` and from `j` on, where `s[i]` and
      `s[j - 1]` are non-blanks unless the piece is empty, cuts only blanks,
      and cuts everything exactly when `s` is all blanks. */
  lemma TrimPiece(s: string, i: nat, j: nat)
    requires i <= j <= |s|
    requires forall k | 0 <= k < i :: IsWhitespace(s[k])
    requires forall k | j <= k < |s| :: IsWhitespace(s[k])
    requires i == |s| || !IsWhitespace(s[i])
    requires j == i || !IsWhitespace(s[j - 1])
    ensures Blank(s[..i]) && Blank(s[j..])
    ensures j == i <==> Blank(s)
  {
    assert forall k | 0 <= k < i :: s[..i][k] == s[k];
    assert forall k | 0 <= k < |s| - j :: s[j..][k] == s[j + k];
  }

  /** The length of the run of non-blanks that starts `s`. */
  function WordLength(s: string): (n: nat)
    ensures n <= |s|
    ensures forall k | 0 <= k < n :: !IsWhitespace(s[k])
    ensures n == |s| || IsWhitespace(s[n])
  {
    if |s| == 0 || IsWhitespace(s[0]) then 0 else 1 + WordLength(s[1..])
  }

  /** The characters of `s` that are not whitespace, in order. */
  function NonBlank(s: string): string
  {
    if |s| == 0 then [] else (if IsWhitespace(s[0]) then [] else [s[0]]) + NonBlank(s[1..])
  }

  function Concat(ws: seq<string>): string
  {
    if |ws| == 0 then [] else ws[0] + Concat(ws[1..])
  }

  lemma {:induction false} NonBlankSplit(s: string, n: nat)
    requires n <= |s| && forall k | 0 <= k < n :: !IsWhitespace(s[k])
    ensures NonBlank(s) == s[..n] + NonBlank(s[n..])
    decreases n
  {
    if n > 0 {
      NonBlankSplit(s[1..], n - 1);
      assert s[1..][n - 1..] == s[n..];
      assert s[..n] == [s[0]] + s[1..][..n - 1];
    }
  }

  /** A non-empty run of non-blanks. */
  predicate IsWord(w: string)
  {
    |w| > 0 && forall k | 0 <= k < |w| :: !IsWhitespace(w[k])
  }

  /** How many runs of non-blanks `s` has, counted by a left-to-right scan:
      a run begins at a non-blank that follows a blank (`afterBlank`) or the
      start. */
  function RunStarts(s: string, afterBlank: bool): nat
  {
    if |s| == 0 then 0
    else (if afterBlank && !IsWhitespace(s[0]) then 1 else 0) + RunStarts(s[1..], IsWhitespace(s[0]))
  }

  /** Inside a word no run begins. */
  lemma {:induction false} RunStartsInWord(s: string, n: nat)
    requires n <= |s| && forall k | 0 <= k < n :: !IsWhitespace(s[k])
    ensures RunStarts(s, false) == RunStarts(s[n..], false)
    decreases n
  {
    if n > 0 {
      RunStartsInWord(s[1..], n - 1);
      assert s[1..][n - 1..] == s[n..];
    }
  }

  /** `split_whitespace`: the maximal runs of non-blanks. Every word is
      non-empty and blank-free, together they spell `s` without its
      whitespace, and there are as many words as runs. */
  function SplitWhitespace(s: string): (r: seq<string>)
    ensures forall i | 0 <= i < |r| :: IsWord(r[i])
    ensures Concat(r) == NonBlank(s)
    ensures |r| == RunStarts(s, true)
    decreases |s|
  {
    if |s| == 0 then []
    else if IsWhitespace(s[0]) then SplitWhitespace(s[1..])
    else
      var n := WordLength(s);
      NonBlankSplit(s, n);
      RunStartsInWord(s[1..], n - 1);
      assert s[1..][n - 1..] == s[n..];
      assert RunStarts(s[n..], false) == RunStarts(s[n..], true);
      var rest := SplitWhitespace(s[n..]);
      assert Concat([s[..n]] + rest) == s[..n] + Concat(rest) by {
        assert ([s[..n]] + rest)[1..] == rest;
      }
      [s[..n]] + rest
  }

  /** Words laid out with gaps: `gaps[0] ws[0] gaps[1] ... ws[n-1] gaps[n]`. */
  function Interleave(gaps: seq<string>, ws: seq<string>): string
    requires |gaps| == |ws| + 1
    decreases |ws|
  {
    if |ws| == 0 then gaps[0] else gaps[0] + ws[0] + Interleave(gaps[1..], ws[1..])
  }

  /** Leading whitespace does not change the split. */
  lemma {:induction false} SplitSkipsBlanks(b: string, t: string)
    requires Blank(b)
    ensures SplitWhitespace(b + t) == SplitWhitespace(t)
    decreases |b|
  {
    if |b| > 0 {
      assert (b + t)[0] == b[0] && IsWhitespace(b[0]) && (b + t)[1..] == b[1..] + t;
      assert SplitWhitespace(b + t) == SplitWhitespace(b[1..] + t);
      assert Blank(b[1..]) by {
        forall k | 0 <= k < |b[1..]|
          ensures IsWhitespace(b[1..][k])
        {
          assert b[1..][k] == b[k + 1];
        }
      }
      SplitSkipsBlanks(b[1..], t);
    } else {
      assert b + t == t;
    }
  }

  /** A word followed by nothing or by whitespace is split off whole. */
  lemma {:induction false} SplitWord(w: string, t: string)
    requires IsWord(w) && (|t| == 0 || IsWhitespace(t[0]))
    ensures SplitWhitespace(w + t) == [w] + SplitWhitespace(t)
  {
    WordLengthOf(w, t);
    assert (w + t)[..|w|] == w && (w + t)[|w|..] == t;
  }

  lemma {:induction false} WordLengthOf(w: string, t: string)
    requires IsWord(w) && (|t| == 0 || IsWhitespace(t[0]))
    ensures WordLength(w + t) == |w|
    decreases |w|
  {
    assert (w + t)[1..] == w[1..] + t;
    if |w| > 1 {
      WordLengthOf(w[1..], t);
    }
  }

  /** Splitting is the inverse of laying words out with gaps: whitespace
      gaps, non-empty between words, are exactly what the split removes. */
  lemma {:induction false} SplitJoinRoundTrip(gaps: seq<string>, ws: seq<string>)
    requires |gaps| == |ws| + 1
    requires forall i | 0 <= i < |gaps| :: Blank(gaps[i])
    requires forall i | 0 < i < |ws| :: |gaps[i]| > 0
    requires forall i | 0 <= i < |ws| :: IsWord(ws[i])
    ensures SplitWhitespace(Interleave(gaps, ws)) == ws
    decreases |ws|
  {
    if |ws| == 0 {
      assert gaps[0] + [] == gaps[0];
      SplitSkipsBlanks(gaps[0], []);
    } else {
      var rest := Interleave(gaps[1..], ws[1..]);
      assert forall i | 0 < i < |ws[1..]| :: |gaps[1..][i]| > 0 by {
        forall i | 0 < i < |ws[1..]|
          ensures |gaps[1..][i]| > 0
        {
          assert gaps[1..][i] == gaps[i + 1];
        }
      }
      SplitJoinRoundTrip(gaps[1..], ws[1..]);
      InterleaveHead(gaps[1..], ws[1..]);
      assert gaps[0] + ws[0] + rest == gaps[0] + (ws[0] + rest);
      SplitSkipsBlanks(gaps[0], ws[0] + rest);
      SplitWord(ws[0], rest);
      assert [ws[0]] + ws[1..] == ws;
    }
  }

  /** A layout whose first gap is blank, and non-empty when a word follows,
      is empty or starts with whitespace. */
  lemma InterleaveHead(gaps: seq<string>, ws: seq<string>)
    requires |gaps| == |ws| + 1 && Blank(gaps[0]) && (|ws| > 0 ==> |gaps[0]| > 0)
    ensures var l := Interleave(gaps, ws); |l| == 0 || IsWhitespace(l[0])
  {
    if |ws| > 0 {
      assert Interleave(gaps, ws)[0] == gaps[0][0];
    }
  }

  /** Trailing whitespace does not change the split either. */
  lemma {:induction false} SplitDropsTrailing(u: string, b: string)
    requires Blank(b)
    ensures SplitWhitespace(u + b) == SplitWhitespace(u)
    decreases |u|
  {
    if |u| == 0 {
      assert u + b == b + [] && u == [];
      SplitSkipsBlanks(b, []);
    } else if IsWhitespace(u[0]) {
      assert (u + b)[1..] == u[1..] + b;
      SplitDropsTrailing(u[1..], b);
    } else {
      var n := WordLength(u);
      WordLengthTrailing(u, b);
      assert (u + b)[..n] == u[..n] && (u + b)[n..] == u[n..] + b;
      SplitDropsTrailing(u[n..], b);
    }
  }

  lemma {:induction false} WordLengthTrailing(u: string, b: string)
    requires Blank(b)
    ensures WordLength(u + b) == WordLength(u)
    decreases |u|
  {
    if |u| > 0 && !IsWhitespace(u[0]) {
      assert (u + b)[1..] == u[1..] + b;
      WordLengthTrailing(u[1..], b);
    } else if |u| == 0 {
      assert u + b == b;
    }
  }

  /** Trimming a line first does not change its words. */
  lemma SplitTrim(t: string)
    ensures SplitWhitespace(Trim(t)) == SplitWhitespace(t)
  {
    var a, b := TrimmedParts(t);
    SplitSkipsBlanks(a, Trim(t) + b);
    SplitDropsTrailing(Trim(t), b);
  }

  /** The text is its trimmed form with blank text put back on both
      sides. */
  lemma TrimmedParts(t: string) returns (a: string, b: string)
    ensures t == a + (Trim(t) + b) && Blank(a) && Blank(b)
  {
    var i := SkipBlanks(t, 0);
    var j := BackBlanks(t, i, |t|);
    TrimPiece(t, i, j);
    a, b := t[..i], t[j..];
    assert t == t[..i] + (t[i..j] + t[j..]);
  }

  /** `sep` joined between consecutive pieces. */
  function Join(parts: seq<string>, sep: char): string
    requires |parts| > 0
  {
    if |parts| == 1 then parts[0] else parts[0] + [sep] + Join(parts[1..], sep)
  }

  /** The first index of `sep` in `s`, if any. */
  function IndexOf(s: string, sep: char): (r: Option<nat>)
    ensures r.None? <==> sep !in s
    ensures r.Some? ==> r.value < |s| && s[r.value] == sep && sep !in s[..r.value]
  {
    if |s| == 0 then None
    else if s[0] == sep then Some(0)
    else
      match IndexOf(s[1..], sep)
      case None => None
      case Some(i) =>
        assert s[..i + 1] == [s[0]] + s[1..][..i];
        Some(i + 1)
  }

  /** `str::split` on one character: the pieces hold no separator and joining
      them back gives `s`. */
  function SplitOn(s: string, sep: char): (r: seq<string>)
    ensures |r| > 0 && Join(r, sep) == s
    ensures forall i | 0 <= i < |r| :: sep !in r[i]
    decreases |s|
  {
    match IndexOf(s, sep)
    case None => [s]
    case Some(i) =>
      var rest := SplitOn(s[i + 1..], sep);
      assert s == s[..i] + [sep] + s[i + 1..];
      assert ([s[..i]] + rest)[1..] == rest;
      [s[..i]] + rest
  }

  /** `trim().lines()`: no lines for a blank text, else the pieces of the
      trimmed text between newlines, which joined by newlines give it back. A
      carriage return that `lines` would strip is blank and is dropped by the
      word split that follows anyway. */
  function Lines(s: string): (r: seq<string>)
    ensures |r| == 0 <==> Blank(s)
    ensures |r| > 0 ==> Join(r, '\n') == Trim(s) && forall i | 0 <= i < |r| :: '\n' !in r[i]
  {
    var t := Trim(s);
    if |t| == 0 then [] else SplitOn(t, '\n')
  }

  /** The codes of the map, row by row: each line's words (the per-line
      `trim` changes none of them). */
  function Rows(s: string): (rows: seq<seq<string>>)
    ensures |rows| == |Lines(s)|
    ensures forall y | 0 <= y < |rows| :: rows[y] == SplitWhitespace(Lines(s)[y])
  {
    LineWords(Lines(s))
  }

  /** Each line trimmed, then split into its words. */
  function LineWords(lines: seq<string>): (rows: seq<seq<string>>)
    ensures |rows| == |lines|
    ensures forall y | 0 <= y < |rows| :: rows[y] == SplitWhitespace(lines[y])
  {
    if |lines| == 0 then []
    else
      SplitTrim(lines[0]);
      [SplitWhitespace(Trim(lines[0]))] + LineWords(lines[1..])
  }

  /** What one map code places on its cell: a terrain and perhaps an item. */
  datatype Tile = Tile(cell: CellType, item: Option<Item>)

  /** The map legend. `ST`, `BL` and `DP` are plain floor, `WL` and `WA`
      walls, `PL` a goal and `CH` a chip on floor, `D?` a closed door and
      `K?` a key on floor of colour G(reen), Y(ellow), B(lue) or R(ed). */
  function Decode(code: string): Option<Tile>
  {
    match code
    case "ST" => Some(Tile(Floor, None))
    case "BL" => Some(Tile(Floor, None))
    case "WL" => Some(Tile(Wall, None))
    case "WA" => Some(Tile(Wall, None))
    case "DP" => Some(Tile(Floor, None))
    case "PL" => Some(Tile(Floor, Some(Goal)))
    case "CH" => Some(Tile(Floor, Some(Chip)))
    case "DG" => Some(Tile(Door(false, Some(Green)), None))
    case "DY" => Some(Tile(Door(false, Some(Yellow)), None))
    case "DB" => Some(Tile(Door(false, Some(Blue)), None))
    case "DR" => Some(Tile(Door(false, Some(Red)), None))
    case "KG" => Some(Tile(Floor, Some(Key(Green))))
    case "KY" => Some(Tile(Floor, Some(Key(Yellow))))
    case "KB" => Some(Tile(Floor, Some(Key(Blue))))
    case "KR" => Some(Tile(Floor, Some(Key(Red))))
    case _ => None
  }

  /** The door and key codes of one colour letter. */
  function Colour(letter: char): Option<DoorKeyType>
  {
    match letter
    case 'G' => Some(Green)
    case 'Y' => Some(Yellow)
    case 'B' => Some(Blue)
    case 'R' => Some(Red)
    case _ => None
  }

  /** The legend, read per tile kind: a code decodes to a closed door or a key
      exactly when it is `D` or `K` followed by a colour letter; it decodes to
      an item-free wall exactly for `WL`/`WA`; and no code yields an item on
      anything but floor nor an open or unkeyed door. */
  lemma DecodeLegend(code: string)
    ensures forall k: DoorKeyType :: Decode(code) == Some(Tile(Door(false, Some(k)), None)) <==>
              |code| == 2 && code[0] == 'D' && Colour(code[1]) == Some(k)
    ensures forall k: DoorKeyType :: Decode(code) == Some(Tile(Floor, Some(Key(k)))) <==>
              |code| == 2 && code[0] == 'K' && Colour(code[1]) == Some(k)
    ensures Decode(code) == Some(Tile(Wall, None)) <==> code == "WL" || code == "WA"
    ensures Decode(code).Some? && Decode(code).value.item.Some? ==> Decode(code).value.cell == Floor
    ensures Decode(code).Some? && Decode(code).value.cell.Door? ==>
              !Decode(code).value.cell.open && Decode(code).value.cell.doorType.Some?
  {
    if |code| == 2 && (code[0] == 'D' || code[0] == 'K') {
      assert code == [code[0], code[1]];
    }
  }

  /** Cell (x, y) comes before cell (x', y') in row-major order. */
  predicate Before(x: nat, y: nat, x': nat, y': nat)
  {
    y < y' || (y == y' && x < x')
  }

  /** Every row has as many codes as the first, and the first has some. */
  predicate Rectangular(rows: seq<seq<string>>)
  {
    |rows| > 0 && |rows[0]| > 0 && forall y | 0 <= y < |rows| :: |rows[y]| == |rows[0]|
  }

  /** Every code strictly before (x, y) in row-major order is in the legend. */
  ghost predicate KnownBefore(rows: seq<seq<string>>, x: nat, y: nat)
    requires Rectangular(rows)
  {
    forall x': nat, y': nat | x' < |rows[0]| && y' < |rows| && Before(x', y', x, y) :: Decode(rows[y'][x']).Some?
  }

  /** `start` is the one `ST` strictly before (x, y), or there is none. */
  ghost predicate StartBefore(rows: seq<seq<string>>, x: nat, y: nat, start: Option<Position>)
    requires Rectangular(rows)
  {
    && (start.Some? ==>
          && start.value.x < |rows[0]| && start.value.y < |rows|
          && Before(start.value.x, start.value.y, x, y)
          && rows[start.value.y][start.value.x] == "ST")
    && forall x': nat, y': nat | x' < |rows[0]| && y' < |rows| && Before(x', y', x, y) && rows[y'][x'] == "ST" ::
         start == Some(Position(x', y'))
  }

  /** The terrain and items hold the decoded tiles of the cells before (x, y)
      and the defaults (floor, no item) everywhere else. */
  ghost predicate FilledBefore(env: Environment, rows: seq<seq<string>>, x: nat, y: nat)
    requires Rectangular(rows)
  {
    && env.terrain.width == |rows[0]| && env.terrain.height == |rows|
    && env.items.width == |rows[0]| && env.items.height == |rows|
    && forall p: Position | IsValidPos(env.terrain, p) ::
         if Before(p.x, p.y, x, y) && Decode(rows[p.y][p.x]).Some? then
           AtPos(env.terrain, p) == Decode(rows[p.y][p.x]).value.cell
           && AtPos(env.items, p) == Decode(rows[p.y][p.x]).value.item
         else
           AtPos(env.terrain, p) == Floor && AtPos(env.items, p) == None
  }

  /** The error the shape pass reports: `EmptyMap` exactly for no rows,
      `ZeroWidth` for a first row without codes, otherwise the first row whose
      code count differs from the first row's. */
  ghost predicate ShapeReport(rows: seq<seq<string>>, e: LoadError)
  {
    && (e == EmptyMap <==> |rows| == 0)
    && (|rows| > 0 && |rows[0]| == 0 ==> e == ZeroWidth)
    && (e.InconsistentWidth? ==>
          && |rows| > 0 && |rows[0]| > 0
          && e.row < |rows| && e.expected == |rows[0]| && e.found == |rows[e.row]|
          && e.found != e.expected
          && forall y | 0 <= y < e.row :: |rows[y]| == |rows[0]|)
    && (e.EmptyMap? || e.ZeroWidth? || e.InconsistentWidth?)
  }

  /** The shape pass: refuses exactly the maps that are not rectangular, with
      the error `ShapeReport` describes. */
  method CheckShape(rows: seq<seq<string>>) returns (r: Option<LoadError>)
    ensures r.None? <==> Rectangular(rows)
    ensures r.Some? ==> ShapeReport(rows, r.value)
  {
    if |rows| == 0 {
      return Some(EmptyMap);
    }
    var width := 0;
    var y := 0;
    while y < |rows|
      invariant 0 <= y <= |rows|
      invariant y > 0 ==> width == |rows[0]| && width > 0
      invariant forall y' | 0 <= y' < y :: |rows[y']| == width
    {
      if y == 0 {
        width := |rows[0]|;
        if width == 0 {
          return Some(ZeroWidth);
        }
      } else if |rows[y]| != width {
        return Some(InconsistentWidth(y, width, |rows[y]|));
      }
      y := y + 1;
    }
    return None;
  }

  /** Writes a decoded tile into cell `p`: its terrain, and its item when it
      has one (a tile without an item leaves the item layer alone). */
  function Place(env: Environment, p: Position, tile: Tile): (r: Environment)
    requires Shaped(env) && IsValidPos(env.terrain, p)
    ensures Shaped(r) && r.agents == env.agents && r.agentLocations == env.agentLocations
    ensures r.nextEntityId == env.nextEntityId
    ensures r.terrain.width == env.terrain.width && r.terrain.height == env.terrain.height
    ensures AtPos(r.terrain, p) == tile.cell
    ensures AtPos(r.items, p) == if tile.item.Some? then tile.item else AtPos(env.items, p)
    ensures forall q: Position | IsValidPos(env.terrain, q) && q != p ::
              AtPos(r.terrain, q) == AtPos(env.terrain, q) && AtPos(r.items, q) == AtPos(env.items, q)
  {
    var env' := env.(terrain := Update(env.terrain, p, tile.cell));
    if tile.item.Some? then env'.(items := Update(env'.items, p, tile.item)) else env'
  }

  /** Placing the tile of cell (x, y) extends the filled prefix by that cell. */
  lemma PlaceStep(env: Environment, rows: seq<seq<string>>, x: nat, y: nat)
    requires Rectangular(rows) && x < |rows[0]| && y < |rows|
    requires Shaped(env) && FilledBefore(env, rows, x, y) && Decode(rows[y][x]).Some?
    ensures FilledBefore(Place(env, Position(x, y), Decode(rows[y][x]).value), rows, x + 1, y)
  {
    var pos := Position(x, y);
    var tile := Decode(rows[y][x]).value;
    var r := Place(env, pos, tile);
    forall p: Position | IsValidPos(r.terrain, p)
      ensures if Before(p.x, p.y, x + 1, y) && Decode(rows[p.y][p.x]).Some? then
                AtPos(r.terrain, p) == Decode(rows[p.y][p.x]).value.cell
                && AtPos(r.items, p) == Decode(rows[p.y][p.x]).value.item
              else
                AtPos(r.terrain, p) == Floor && AtPos(r.items, p) == None
    {
      if p != pos {
        assert AtPos(r.terrain, p) == AtPos(env.terrain, p);
        assert AtPos(r.items, p) == AtPos(env.items, p);
      }
    }
  }

  /** A legend code at (x, y) extends the known prefix; the start seen so far
      is kept, or becomes (x, y) at the first `ST`. */
  lemma Advance(rows: seq<seq<string>>, x: nat, y: nat, start: Option<Position>)
    requires Rectangular(rows) && x < |rows[0]| && y < |rows|
    requires KnownBefore(rows, x, y) && StartBefore(rows, x, y, start) && Decode(rows[y][x]).Some?
    requires rows[y][x] == "ST" ==> start.None?
    ensures KnownBefore(rows, x + 1, y)
    ensures StartBefore(rows, x + 1, y, if rows[y][x] == "ST" then Some(Position(x, y)) else start)
  {
  }

  /** Finishing row y is starting row y + 1. */
  lemma RowDone(env: Environment, rows: seq<seq<string>>, y: nat, start: Option<Position>)
    requires Rectangular(rows) && y < |rows|
    requires KnownBefore(rows, |rows[0]|, y) && StartBefore(rows, |rows[0]|, y, start)
    requires FilledBefore(env, rows, |rows[0]|, y)
    ensures KnownBefore(rows, 0, y + 1) && StartBefore(rows, 0, y + 1, start)
    ensures FilledBefore(env, rows, 0, y + 1)
  {
    assert forall x': nat, y': nat | x' < |rows[0]| :: Before(x', y', |rows[0]|, y) == Before(x', y', 0, y + 1);
  }

  /** The error the decoding pass reports for a rectangular map: the first
      code outside the legend, met before any second `ST`; a second `ST`, met
      when every code before it is known; or no `ST` in a map of known codes. */
  ghost predicate DecodeReport(rows: seq<seq<string>>, e: LoadError)
    requires Rectangular(rows)
  {
    && (e.UnknownCode? ==>
          && e.x < |rows[0]| && e.y < |rows| && rows[e.y][e.x] == e.code && Decode(e.code).None?
          && KnownBefore(rows, e.x, e.y) && exists st :: StartBefore(rows, e.x, e.y, st))
    && (e.MultipleStarts? ==>
          exists x: nat, y: nat, start: Position | x < |rows[0]| && y < |rows| ::
            && rows[y][x] == "ST" && KnownBefore(rows, x, y) && StartBefore(rows, x, y, Some(start)))
    && (e.NoStart? ==> KnownBefore(rows, 0, |rows|) && StartBefore(rows, 0, |rows|, None))
    && (e.UnknownCode? || e.MultipleStarts? || e.NoStart?)
  }

  /** The decoding pass over a rectangular map, row by row and left to right.
      It stops at the first code outside the legend and at the second `ST`;
      after the last row a map without `ST` is refused. On success the world
      holds each cell's decoded terrain and item, no agents, and the start
      is the single `ST` cell. */
  method DecodeCells(rows: seq<seq<string>>) returns (r: Result<(Environment, Position), LoadError>)
    requires Rectangular(rows)
    ensures r.Ok? ==>
              && KnownBefore(rows, 0, |rows|)
              && StartBefore(rows, 0, |rows|, Some(r.value.1))
              && FilledBefore(r.value.0, rows, 0, |rows|)
              && r.value.0.agents == map[] && r.value.0.nextEntityId == 0 && Occupancy(r.value.0)
    ensures r.Err? ==> DecodeReport(rows, r.error)
  {
    var width, height := |rows[0]|, |rows|;
    var env := NewEnvironment(width, height);
    var start: Option<Position> := None;
    var y := 0;
    while y < height
      invariant 0 <= y <= height
      invariant KnownBefore(rows, 0, y) && StartBefore(rows, 0, y, start)
      invariant FilledBefore(env, rows, 0, y)
      invariant env.agents == map[] && env.nextEntityId == 0 && Occupancy(env)
    {
      var x := 0;
      while x < width
        invariant 0 <= x <= width
        invariant KnownBefore(rows, x, y) && StartBefore(rows, x, y, start)
        invariant FilledBefore(env, rows, x, y)
        invariant env.agents == map[] && env.nextEntityId == 0 && Occupancy(env)
      {
        var code := rows[y][x];
        var tile := Decode(code);
        if tile.None? {
          r := Err(UnknownCode(code, x, y));
          assert StartBefore(rows, x, y, start);
          return;
        }
        if code == "ST" && start.Some? {
          return Err(MultipleStarts);
        }
        Advance(rows, x, y, start);
        PlaceStep(env, rows, x, y);
        if code == "ST" {
          start := Some(Position(x, y));
        }
        var env' := Place(env, Position(x, y), tile.value);
        SameOccupancy(env, env');
        env := env';
        x := x + 1;
      }
      RowDone(env, rows, y, start);
      y := y + 1;
    }
    if start.None? {
      return Err(NoStart);
    }
    return Ok((env, start.value));
  }

  /** A second `ST` after a first one leaves the map without a single start. */
  lemma NoSingleStart(rows: seq<seq<string>>, x: nat, y: nat, start: Position)
    requires Rectangular(rows) && x < |rows[0]| && y < |rows|
    requires rows[y][x] == "ST" && StartBefore(rows, x, y, Some(start))
    ensures forall st: Position :: !StartBefore(rows, 0, |rows|, Some(st))
  {
    forall st: Position | StartBefore(rows, 0, |rows|, Some(st))
      ensures false
    {
    }
  }

  /** The two passes over the lexed rows: the shape pass, then the decoding
      pass. A map loads exactly when it is rectangular, every code is in the
      legend and it has exactly one `ST`. */
  method LoadRows(rows: seq<seq<string>>) returns (r: Result<(Environment, Position), LoadError>)
    ensures |rows| == 0 <==> r == Err(EmptyMap)
    ensures r.Ok? <==>
              && Rectangular(rows)
              && KnownBefore(rows, 0, |rows|)
              && exists start: Position :: StartBefore(rows, 0, |rows|, Some(start))
    ensures r.Ok? ==>
              && StartBefore(rows, 0, |rows|, Some(r.value.1))
              && FilledBefore(r.value.0, rows, 0, |rows|)
              && r.value.0.agents == map[] && Occupancy(r.value.0)
    ensures !Rectangular(rows) ==> r.Err? && ShapeReport(rows, r.error)
    ensures Rectangular(rows) && r.Err? ==> DecodeReport(rows, r.error)
  {
    var shape := CheckShape(rows);
    if shape.Some? {
      return Err(shape.value);
    }
    r := DecodeCells(rows);
    if r.Err? && r.error.MultipleStarts? {
      ghost var x: nat, y: nat, start: Position :| x < |rows[0]| && y < |rows| &&
        rows[y][x] == "ST" && StartBefore(rows, x, y, Some(start));
      NoSingleStart(rows, x, y, start);
    }
  }

  /** `load_environment_from_string`: lexes the text and loads its rows; a
      blank text is the empty map, a text that is not rectangular gets the
      shape error and a rectangular one the decoding error. */
  method LoadEnvironmentFromString(s: string) returns (r: Result<(Environment, Position), LoadError>)
    ensures Blank(s) <==> r == Err(EmptyMap)
    ensures !Rectangular(Rows(s)) ==> r.Err? && ShapeReport(Rows(s), r.error)
    ensures Rectangular(Rows(s)) && r.Err? ==> DecodeReport(Rows(s), r.error)
    ensures r.Ok? <==>
              && Rectangular(Rows(s))
              && KnownBefore(Rows(s), 0, |Rows(s)|)
              && exists start: Position :: StartBefore(Rows(s), 0, |Rows(s)|, Some(start))
    ensures r.Ok? ==>
              && StartBefore(Rows(s), 0, |Rows(s)|, Some(r.value.1))
              && FilledBefore(r.value.0, Rows(s), 0, |Rows(s)|)
              && r.value.0.agents == map[] && Occupancy(r.value.0)
  {
    r := LoadRows(Rows(s));
  }
}
