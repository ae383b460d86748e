/**
 * Preparing a program for lexing: trimming a blank first and last line
 * (`_remove_blank_lines`) and cutting each located glyph out of the program
 * with its Start and End cells blanked (`_prepare_glyphs_for_lexing`).
 */
module Extract {
  import opened Wrappers
  import opened Symbols
  import opened Grids
  import opened Tokens
  import opened Lexer
  import opened Locator

  // ------------------------------------------------------------ blank lines

  /** `_remove_blank_lines`: drop the first row if blank, then the last row of
      what is left if blank. Reading `program[0]` or `program[-1]` of an empty
      list is an IndexError. */
  function RemoveBlankLines(program: Grid): (r: Result<Grid, Error>)
    ensures r.Err? <==> |program| == 0 || (|program| == 1 && Blank(program[0]))
    ensures r.Err? ==> r.error.PythonErr? && r.error.fault.IndexError?
  {
    if |program| == 0 then Err(PythonErr(IndexError("list index out of range")))
    else
      var p := if Blank(program[0]) then program[1..] else program;
      if |p| == 0 then Err(PythonErr(IndexError("list index out of range")))
      else if Blank(p[|p| - 1]) then Ok(p[..|p| - 1])
      else Ok(p)
  }

  /** r is program less its first `top` rows and possibly its last row: a row
      goes exactly when it is blank. */
  predicate TrimmedTo(program: Grid, r: Grid, top: nat) {
    |program| > 0 && top <= 1 && top + |r| <= |program| <= top + |r| + 1 &&
    r == program[top..top + |r|] &&
    (top == 1 <==> Blank(program[0])) &&
    (top + |r| < |program| <==> Blank(program[|program| - 1]))
  }

  /** The trimmed program is the program with a blank first line and a blank
      last line removed, one each at most, and nothing else changed. */
  lemma RemoveBlankLinesTrims(program: Grid)
    requires RemoveBlankLines(program).Ok?
    ensures exists top :: TrimmedTo(program, RemoveBlankLines(program).value, top)
  {
    var top := if Blank(program[0]) then 1 else 0;
    var p := program[top..];
    var r := RemoveBlankLines(program).value;
    assert |p| > 0 && p[|p| - 1] == program[|program| - 1];
    assert TrimmedTo(program, r, top);
  }

  // ---------------------------------------------------------------- slicing

  /** A bound of a Python slice: a negative one counts from the end, and both
      are clamped to the sequence. */
  function SliceBound(i: int, len: nat): (r: nat)
    ensures r <= len
    ensures 0 <= i <= len ==> r == i
    ensures i > len ==> r == len
  {
    if i < 0 then (if i + len < 0 then 0 else i + len)
    else if i > len then len
    else i
  }

  /** `s[a:b]` in Python. */
  function PySlice<T>(s: seq<T>, a: int, b: int): (r: seq<T>)
    ensures |r| <= |s|
  {
    var lo := SliceBound(a, |s|);
    var hi := SliceBound(b, |s|);
    if lo < hi then s[lo..hi] else []
  }

  /** Within bounds a Python slice is the subsequence. */
  lemma PySliceWithin<T>(s: seq<T>, a: int, b: int)
    requires 0 <= a <= b <= |s|
    ensures PySlice(s, a, b) == s[a..b]
  {
  }

  /** With non-negative bounds, a Python slice holds the cells a, a + 1, ... up
      to b or the end of s, whichever comes first. */
  lemma PySliceCells<T>(s: seq<T>, a: int, b: int)
    requires 0 <= a && 0 <= b
    ensures a <= |s| && a <= b ==> |PySlice(s, a, b)| == (if b <= |s| then b else |s|) - a
    ensures forall c :: 0 <= c < |PySlice(s, a, b)| ==> a + c < |s| && a + c < b && PySlice(s, a, b)[c] == s[a + c]
  {
    var hi := SliceBound(b, |s|);
    if a < hi {
      assert SliceBound(a, |s|) == a;
      assert PySlice(s, a, b) == s[a..hi];
    } else {
      assert SliceBound(a, |s|) >= hi;
      assert PySlice(s, a, b) == [];
    }
  }

  /** The first column of a glyph: its Start column less the stacked Starts to its left. */
  function LeftCol(loc: GlyphLoc): int {
    loc.start.x as int - loc.level as int + 1
  }

  /** The comprehension of `_prepare_glyphs_for_lexing`: rows start.y to end.y,
      each cut to the columns LeftCol to end.x. */
  function Isolate(program: Grid, loc: GlyphLoc): Grid {
    var rows := PySlice(program, loc.start.y, loc.end.y + 1);
    seq(|rows|, i requires 0 <= i < |rows| => PySlice(rows[i], LeftCol(loc), loc.end.x + 1))
  }

  /** `for i in range(0, level): glyph[0][i] = ' '`: the first `level` cells of
      row 0 become spaces; an IndexError when row 0 is missing or too short. */
  function BlankStart(glyph: Grid, level: nat): (r: Result<Grid, Error>)
    ensures r.Ok? <==> level == 0 || (|glyph| > 0 && level <= |glyph[0]|)
  {
    if level == 0 then Ok(glyph)
    else if |glyph| == 0 || |glyph[0]| < level then Err(PythonErr(IndexError("list assignment index out of range")))
    else Ok(glyph[0 := Spaces(level) + glyph[0][level..]])
  }

  /** BlankStart changes exactly the first `level` cells of row 0, to spaces. */
  lemma BlankStartCells(glyph: Grid, level: nat)
    requires BlankStart(glyph, level).Ok?
    ensures |BlankStart(glyph, level).value| == |glyph|
    ensures forall i :: 0 <= i < |glyph| ==> |BlankStart(glyph, level).value[i]| == |glyph[i]|
    ensures forall i, c :: 0 <= i < |glyph| && 0 <= c < |glyph[i]| ==>
              BlankStart(glyph, level).value[i][c] == if i == 0 && c < level then ' ' else glyph[i][c]
  {
  }

  /** `glyph[-1][-1] = ' '`: the last cell of the last row becomes a space; an
      IndexError when that row is missing or empty. */
  function BlankEnd(glyph: Grid): (r: Result<Grid, Error>)
    ensures r.Ok? <==> |glyph| > 0 && |glyph[|glyph| - 1]| > 0
  {
    if |glyph| == 0 || |glyph[|glyph| - 1]| == 0 then Err(PythonErr(IndexError("list index out of range")))
    else
      var n := |glyph| - 1;
      var row := glyph[n];
      Ok(glyph[n := row[|row| - 1 := ' ']])
  }

  /** BlankEnd changes exactly the last cell of the last row, to a space. */
  lemma BlankEndCells(glyph: Grid)
    requires BlankEnd(glyph).Ok?
    ensures |BlankEnd(glyph).value| == |glyph|
    ensures forall i :: 0 <= i < |glyph| ==> |BlankEnd(glyph).value[i]| == |glyph[i]|
    ensures forall i, c :: 0 <= i < |glyph| && 0 <= c < |glyph[i]| ==>
              BlankEnd(glyph).value[i][c] == if i == |glyph| - 1 && c == |glyph[i]| - 1 then ' ' else glyph[i][c]
  {
  }

  /** One glyph of `_prepare_glyphs_for_lexing`. */
  function CutGlyph(program: Grid, loc: GlyphLoc): Result<Glyph, Error> {
    var g0 :- BlankStart(Isolate(program, loc), loc.level);
    var g1 :- BlankEnd(g0);
    Ok(Glyph(loc.level, g1))
  }

  /** `_prepare_glyphs_for_lexing`: the glyphs of the locations in turn; the first
      that raises aborts. */
  function PrepareAll(program: Grid, locs: seq<GlyphLoc>): (r: Result<seq<Glyph>, Error>)
    ensures r.Ok? ==> |r.value| == |locs|
  {
    if |locs| == 0 then Ok([])
    else
      var n := |locs| - 1;
      var prev :- PrepareAll(program, locs[..n]);
      var gl :- CutGlyph(program, locs[n]);
      Ok(prev + [gl])
  }

  /** PrepareAll succeeds exactly when every location cuts, and then holds the
      cut glyphs in the order of the locations. */
  lemma {:induction false} PrepareAllExact(program: Grid, locs: seq<GlyphLoc>)
    ensures PrepareAll(program, locs).Ok? <==> forall i :: 0 <= i < |locs| ==> CutGlyph(program, locs[i]).Ok?
    ensures PrepareAll(program, locs).Ok? ==>
              forall i :: 0 <= i < |locs| ==> CutGlyph(program, locs[i]) == Ok(PrepareAll(program, locs).value[i])
  {
    if |locs| > 0 {
      var n := |locs| - 1;
      var pre := locs[..n];
      PrepareAllExact(program, pre);
      assert forall i :: 0 <= i < n ==> pre[i] == locs[i];
      var r := PrepareAll(program, locs);
      if r.Ok? {
        var prev := PrepareAll(program, pre).value;
        var last := CutGlyph(program, locs[n]);
        assert last.Ok? && r.value == prev + [last.value];
        forall i | 0 <= i < |locs| ensures CutGlyph(program, locs[i]) == Ok(r.value[i]) {
          if i < n {
            assert r.value[i] == prev[i];
          } else {
            assert r.value[i] == last.value;
          }
        }
      }
    }
  }

  // ------------------------------------------------------- located glyphs

  /** The geometry of a located glyph that cutting relies on: its End is below
      and right of its Start inside the program, the Start is not the last cell
      of its row, and the level counts the Start symbols ending at the Start. */
  predicate Boxed(g: Grid, sg: seq<char>, loc: GlyphLoc) {
    loc.start.y < loc.end.y < |g| && loc.start.x < loc.end.x &&
    loc.start.x + 1 < |g[loc.start.y]| && loc.end.x < |g[loc.end.y]| &&
    g[loc.start.y][loc.start.x] in sg && loc.level == 1 + RunLeft(g[loc.start.y], loc.start.x, sg)
  }

  lemma LocatedBoxed(lex: Lexicon, g: Grid, loc: GlyphLoc)
    requires LocatedPair(lex, g, loc)
    ensures Boxed(g, SymbolsNamed(lex, "start_glyph"), loc)
  {
  }

  /** The cells of row 0 that will be blanked are the Start symbols stacked up
      to the Start, and they lie inside the row. */
  lemma StartRun(g: Grid, sg: seq<char>, loc: GlyphLoc)
    requires Boxed(g, sg, loc)
    ensures 0 <= LeftCol(loc) && loc.level >= 1
    ensures forall x :: LeftCol(loc) <= x <= loc.start.x ==> g[loc.start.y][x] in sg
  {
    var s := loc.start;
    var run := RunLeft(g[s.y], s.x, sg);
    RunLeftMaximal(g[s.y], s.x, sg);
    forall x | LeftCol(loc) <= x <= s.x ensures g[s.y][x] in sg {
      if x < s.x { assert s.x - run <= x < s.x; }
    }
  }

  /** Row i of an isolated glyph is program row start.y + i, sliced. */
  lemma IsolateRows(g: Grid, loc: GlyphLoc)
    requires loc.start.y <= loc.end.y < |g|
    ensures |Isolate(g, loc)| == loc.end.y - loc.start.y + 1
    ensures forall i :: 0 <= i < |Isolate(g, loc)| ==>
              Isolate(g, loc)[i] == PySlice(g[loc.start.y + i], LeftCol(loc), loc.end.x + 1)
  {
    PySliceWithin(g, loc.start.y, loc.end.y + 1);
  }

  /** Row i of an isolated glyph holds the program's cells from LeftCol on. */
  lemma IsolateRow(g: Grid, loc: GlyphLoc, i: int)
    requires loc.start.y <= loc.end.y < |g| && 0 <= LeftCol(loc) && 0 <= i < |Isolate(g, loc)|
    ensures forall c :: 0 <= c < |Isolate(g, loc)[i]| ==>
              LeftCol(loc) + c < |g[loc.start.y + i]| && Isolate(g, loc)[i][c] == g[loc.start.y + i][LeftCol(loc) + c]
  {
    IsolateRows(g, loc);
    PySliceCells(g[loc.start.y + i], LeftCol(loc), loc.end.x + 1);
  }

  /** Every cell of an isolated glyph is the program's cell at the same offset. */
  lemma IsolateCells(g: Grid, loc: GlyphLoc)
    requires loc.start.y <= loc.end.y < |g| && 0 <= LeftCol(loc)
    ensures forall i, c :: 0 <= i < |Isolate(g, loc)| && 0 <= c < |Isolate(g, loc)[i]| ==>
              LeftCol(loc) + c < |g[loc.start.y + i]| && Isolate(g, loc)[i][c] == g[loc.start.y + i][LeftCol(loc) + c]
  {
    forall i | 0 <= i < |Isolate(g, loc)| 
      ensures forall c :: 0 <= c < |Isolate(g, loc)[i]| ==>
                LeftCol(loc) + c < |g[loc.start.y + i]| && Isolate(g, loc)[i][c] == g[loc.start.y + i][LeftCol(loc) + c]
    {
      IsolateRow(g, loc, i);
    }
  }

  /** A boxed glyph isolates to its Start's row through its End's, each row the
      program's cells from LeftCol on; row 0 reaches past the Start cell and the
      last row ends at the End cell. */
  lemma IsolateBoxed(g: Grid, sg: seq<char>, loc: GlyphLoc)
    requires Boxed(g, sg, loc)
    ensures 0 <= LeftCol(loc) && loc.level >= 1
    ensures |Isolate(g, loc)| == loc.end.y - loc.start.y + 1
    ensures |Isolate(g, loc)[0]| >= loc.level
    ensures |Isolate(g, loc)[loc.end.y - loc.start.y]| == loc.end.x + 1 - LeftCol(loc)
  {
    var s := loc.start;
    var e := loc.end;
    var a := LeftCol(loc);
    StartRun(g, sg, loc);
    IsolateRows(g, loc);
    PySliceCells(g[s.y], a, e.x + 1);
    PySliceCells(g[e.y], a, e.x + 1);
  }

  /** A boxed glyph cuts without error: it spans its Start's row to its End's,
      row 0 begins with `level` blanked cells, the End cell is the blanked last
      cell of the last row, and every other cell is the program's cell at the
      same offset. */
  lemma CutBoxed(g: Grid, sg: seq<char>, loc: GlyphLoc)
    requires Boxed(g, sg, loc)
    ensures CutGlyph(g, loc).Ok?
    ensures CutGlyph(g, loc).value.level == loc.level
    ensures |CutGlyph(g, loc).value.grid| == loc.end.y - loc.start.y + 1
    ensures forall i, c :: 0 <= i < |CutGlyph(g, loc).value.grid| && 0 <= c < |CutGlyph(g, loc).value.grid[i]| ==>
              LeftCol(loc) + c < |g[loc.start.y + i]| &&
              CutGlyph(g, loc).value.grid[i][c] ==
                if (i == 0 && c < loc.level) || (i == loc.end.y - loc.start.y && LeftCol(loc) + c == loc.end.x) then ' '
                else g[loc.start.y + i][LeftCol(loc) + c]
  {
    var iso := Isolate(g, loc);
    IsolateBoxed(g, sg, loc);
    IsolateCells(g, loc);
    BlankStartCells(iso, loc.level);
    var g0 := BlankStart(iso, loc.level).value;
    BlankEndCells(g0);
    var g1 := BlankEnd(g0).value;
    assert CutGlyph(g, loc) == Ok(Glyph(loc.level, g1));
  }

  /** Located glyphs all cut, one per location, in order, each with its
      location's level and spanning its Start's row through its End's. */
  lemma PrepareLocated(lex: Lexicon, g: Grid, locs: seq<GlyphLoc>)
    requires forall i :: 0 <= i < |locs| ==> LocatedPair(lex, g, locs[i])
    ensures PrepareAll(g, locs).Ok?
    ensures forall i :: 0 <= i < |locs| ==>
              PrepareAll(g, locs).value[i].level == locs[i].level &&
              |PrepareAll(g, locs).value[i].grid| == locs[i].end.y - locs[i].start.y + 1 >= 2
  {
    forall i | 0 <= i < |locs|
      ensures CutGlyph(g, locs[i]).Ok? && CutGlyph(g, locs[i]).value.level == locs[i].level &&
              |CutGlyph(g, locs[i]).value.grid| == locs[i].end.y - locs[i].start.y + 1 >= 2
    {
      LocatedBoxed(lex, g, locs[i]);
      CutBoxed(g, SymbolsNamed(lex, "start_glyph"), locs[i]);
    }
    PrepareAllExact(g, locs);
  }
}
