/**
 * Strand lexing inside one (padded, rectangular) glyph: finding the cells where
 * strands start (`_find_successful_matches`, `_check_is_start`,
 * `_find_strand_starts`) and following each strand to its end
 * (`_interpret_strand`, `_mark_end`, `_lex_glyph`).
 */
module Lexer {
  import opened Wrappers
  import opened Symbols
  import opened Grids
  import opened Tokens

  /** The neighbour in direction d exists and the first letter drawn there has a
      reading pointing back at (x, y). On a ragged grid the lookup may fail with an
      IndexError, which `_has_continuation` catches; that also reads as false. */
  predicate PointsBack(lex: Lexicon, g: Grid, x: nat, y: nat, d: Dir)
    requires InGrid(g, x, y)
  {
    match GetNeighbor(g, x, y, d)
    case At(c, _, _) =>
      var ls := LettersWith(lex, c);
      |ls| > 0 && CountToward(ls[0].readings, Opposite(d)) != 0
    case _ => false
  }

  /** `len([t for t in rs if d in t["dir"]])`: the readings of rs that go in direction d. */
  function CountToward(rs: seq<Reading>, d: Dir): nat {
    if |rs| == 0 then 0
    else CountToward(rs[..|rs| - 1], d) + (if d in rs[|rs| - 1].dir then 1 else 0)
  }

  /** The count is not zero exactly when some reading goes in direction d. */
  lemma {:induction false} CountTowardSpec(rs: seq<Reading>, d: Dir)
    ensures CountToward(rs, d) != 0 <==> exists n :: n in rs && d in n.dir
    ensures CountToward(rs, d) <= |rs|
  {
    if |rs| > 0 {
      var pre := rs[..|rs| - 1];
      CountTowardSpec(pre, d);
      assert rs == pre + [rs[|rs| - 1]];
    }
  }

  /**
   * `_has_continuation` holds exactly when the neighbour in direction d is a
   * cell of the glyph, some letter draws it, and the first such letter has a
   * reading whose directions include the way back.
   */
  lemma PointsBackSpec(lex: Lexicon, g: Grid, x: nat, y: nat, d: Dir)
    requires InGrid(g, x, y)
    ensures PointsBack(lex, g, x, y, d) <==>
              !Leaves(g, x, y, d) && InGrid(g, Shift(x, y, d).0, Shift(x, y, d).1) &&
              var c := g[Shift(x, y, d).1][Shift(x, y, d).0];
              |LettersWith(lex, c)| > 0 &&
              exists n :: n in LettersWith(lex, c)[0].readings && Opposite(d) in n.dir
  {
    match GetNeighbor(g, x, y, d)
    case At(c, _, _) =>
      if |LettersWith(lex, c)| > 0 {
        CountTowardSpec(LettersWith(lex, c)[0].readings, Opposite(d));
      }
    case _ =>
  }

  /** As PointsBack, but a `pre_start` reading of the neighbour does not count. */
  predicate Connects(lex: Lexicon, g: Grid, x: nat, y: nat, d: Dir)
    requires InGrid(g, x, y)
  {
    match GetNeighbor(g, x, y, d)
    case At(c, _, _) =>
      var ls := LettersWith(lex, c);
      |ls| > 0 && exists n :: n in ls[0].readings && Opposite(d) in n.dir && n.pos != PreStart
    case _ => false
  }

  /** The directions of `dirs`, in order, that connect to a neighbour. */
  function ConnectingDirs(lex: Lexicon, g: Grid, x: nat, y: nat, dirs: seq<Dir>): (r: seq<Dir>)
    requires InGrid(g, x, y)
    ensures forall d :: d in r <==> d in dirs && Connects(lex, g, x, y, d)
    ensures |r| <= |dirs|
  {
    if |dirs| == 0 then []
    else
      var rest := ConnectingDirs(lex, g, x, y, dirs[1..]);
      assert forall d :: d in dirs <==> d == dirs[0] || d in dirs[1..];
      if Connects(lex, g, x, y, dirs[0]) then [dirs[0]] + rest else rest
  }

  /** A reading a strand can pass through: a corner, a continue, or any question-marker reading. */
  predicate PassesOn(r: Reading) {
    r.pos == Corner || r.pos == Continue || r.kind == QuestionMarker
  }

  function PassingReadings(rs: seq<Reading>): (r: seq<Reading>)
    ensures forall q :: q in r <==> q in rs && PassesOn(q)
    ensures |r| > 0 ==> exists i :: 0 <= i < |rs| && rs[i] == r[0] && forall j :: 0 <= j < i ==> !PassesOn(rs[j])
  {
    if |rs| == 0 then []
    else
      var rest := PassingReadings(rs[1..]);
      assert forall q :: q in rs <==> q == rs[0] || q in rs[1..];
      if PassesOn(rs[0]) then [rs[0]] + rest
      else
        assert |rest| > 0 ==> exists i :: 0 <= i < |rs| && rs[i] == rest[0] && forall j :: 0 <= j < i ==> !PassesOn(rs[j]) by {
          if |rest| > 0 {
            var i :| 0 <= i < |rs[1..]| && rs[1..][i] == rest[0] && forall j :: 0 <= j < i ==> !PassesOn(rs[1..][j]);
            assert rs[i + 1] == rest[0];
            forall j | 0 <= j < i + 1 ensures !PassesOn(rs[j]) {
              if j > 0 { assert rs[j] == rs[1..][j - 1]; }
            }
          }
        }
        rest
  }

  /** `_find_successful_matches`: None when the symbol has no reading to pass on from;
      otherwise the directions of the first such reading that lead to a symbol
      reading back (not as a pre_start). */
  function SuccessfulMatches(lex: Lexicon, g: Grid, x: nat, y: nat, rs: seq<Reading>): (r: Option<seq<Dir>>)
    requires Rect(g) && InGrid(g, x, y)
    ensures r.None? <==> forall i :: 0 <= i < |rs| ==> !PassesOn(rs[i])
    ensures r.Some? ==> exists i :: 0 <= i < |rs| && PassesOn(rs[i]) &&
                          (forall j :: 0 <= j < i ==> !PassesOn(rs[j])) &&
                          forall d :: d in r.value <==> d in rs[i].dir && Connects(lex, g, x, y, d)
  {
    var ways := PassingReadings(rs);
    if |ways| == 0 then
      assert forall i :: 0 <= i < |rs| ==> !PassesOn(rs[i]) by {
        forall i | 0 <= i < |rs| ensures !PassesOn(rs[i]) { assert rs[i] in rs; }
      }
      None
    else
      Some(ConnectingDirs(lex, g, x, y, ways[0].dir))
  }

  /** The start readings whose direction list is exactly [d]. */
  function StartReadingsFor(rs: seq<Reading>, d: Dir): (r: seq<Reading>)
    ensures forall q :: q in r <==> q in rs && q.pos == Start && q.dir == [d]
  {
    if |rs| == 0 then []
    else
      var rest := StartReadingsFor(rs[1..], d);
      assert forall q :: q in rs <==> q == rs[0] || q in rs[1..];
      if rs[0].pos == Start && rs[0].dir == [d] then [rs[0]] + rest else rest
  }

  /** A strand start before tracing: nothing accumulated or classified yet. */
  predicate Untraced(s: Strand) {
    s.value.None? && s.vertValue.None? && s.subtype == Unset && s.endAt.None? && s.command.None?
  }

  /** `_check_is_start`: a cell starts a strand when its symbol has a start
      reading and exactly one direction connects onwards; the strand takes that
      direction and the kind of the start reading pointing that way. */
  function CheckIsStart(lex: Lexicon, g: Grid, x: nat, y: nat): (r: Result<Option<Strand>, Error>)
    requires Rect(g) && InGrid(g, x, y)
    ensures r.Ok? && r.value.Some? ==>
              var s := r.value.value;
              s.x == x && s.y == y && Untraced(s) && Connects(lex, g, x, y, s.dir) &&
              |LettersWith(lex, g[y][x])| > 0 &&
              HasPos(LettersWith(lex, g[y][x])[0].readings, Start) &&
              SuccessfulMatches(lex, g, x, y, LettersWith(lex, g[y][x])[0].readings) == Some([s.dir])
    // a cell with no symbol, or whose symbol has no start reading, starts nothing
    ensures |LettersWith(lex, g[y][x])| == 0 ==> r == Ok(None)
    ensures |LettersWith(lex, g[y][x])| > 0 && !HasPos(LettersWith(lex, g[y][x])[0].readings, Start) ==> r == Ok(None)
    // with a start reading: no reading to pass on from is the TypeError of taking len(None)
    ensures |LettersWith(lex, g[y][x])| > 0 && HasPos(LettersWith(lex, g[y][x])[0].readings, Start) &&
            SuccessfulMatches(lex, g, x, y, LettersWith(lex, g[y][x])[0].readings).None? ==>
              r.Err? && r.error.PythonErr? && r.error.fault.TypeError?
    // no connecting direction, or several, starts nothing
    ensures |LettersWith(lex, g[y][x])| > 0 && HasPos(LettersWith(lex, g[y][x])[0].readings, Start) &&
            SuccessfulMatches(lex, g, x, y, LettersWith(lex, g[y][x])[0].readings).Some? &&
            |SuccessfulMatches(lex, g, x, y, LettersWith(lex, g[y][x])[0].readings).value| != 1 ==>
              r == Ok(None)
    // exactly one connecting direction d: one start reading pointing along d gives
    // the strand with that reading's kind; any other number is an internal error
    ensures |LettersWith(lex, g[y][x])| > 0 && HasPos(LettersWith(lex, g[y][x])[0].readings, Start) &&
            SuccessfulMatches(lex, g, x, y, LettersWith(lex, g[y][x])[0].readings).Some? &&
            |SuccessfulMatches(lex, g, x, y, LettersWith(lex, g[y][x])[0].readings).value| == 1 ==>
              var l := LettersWith(lex, g[y][x])[0];
              var d := SuccessfulMatches(lex, g, x, y, l.readings).value[0];
              var fits := StartReadingsFor(l.readings, d);
              r == if |fits| == 1
                   then Ok(Some(Strand(l.name, l.symbol, x, y, d, fits[0].kind, None, None, Unset, None, None)))
                   else Err(InternalErr(StartReadingCount(|fits|)))
    ensures r.Err? ==> r.error.PythonErr? || r.error.InternalErr?
  {
    var ls := LettersWith(lex, g[y][x]);
    if |ls| == 0 then Ok(None)
    else
      var rs := ls[0].readings;
      if !HasPos(rs, Start) then Ok(None)
      else
        match SuccessfulMatches(lex, g, x, y, rs)
        case None => Err(PythonErr(TypeError("object of type 'NoneType' has no len()")))
        case Some(ms) =>
          if |ms| != 1 then Ok(None)
          else
            assert ms == [ms[0]];
            var fits := StartReadingsFor(rs, ms[0]);
            if |fits| != 1 then Err(InternalErr(StartReadingCount(|fits|)))
            else
              assert ms[0] in ms;
              Ok(Some(Strand(ls[0].name, ls[0].symbol, x, y, ms[0], fits[0].kind,
                             None, None, Unset, None, None)))
  }

  /** a comes strictly before b when the grid is read row by row. */
  predicate Before(a: Strand, b: Strand) {
    a.y < b.y || (a.y == b.y && a.x < b.x)
  }

  predicate RowMajor(ss: seq<Strand>) {
    forall i, j :: 0 <= i < j < |ss| ==> Before(ss[i], ss[j])
  }

  /** The answer of `_check_is_start` for one cell. */
  type Check = Result<Option<Strand>, Error>

  /** A check that accepted its cell. */
  predicate Accepts(c: Check) {
    c.Ok? && c.value.Some?
  }

  /** The answers of `_check_is_start` for row y, column by column. */
  function RowChecks(lex: Lexicon, g: Grid, y: nat): (r: seq<Check>)
    requires Rect(g) && y < |g|
    ensures |r| == |g[y]|
    ensures forall x :: 0 <= x < |r| ==> r[x] == CheckIsStart(lex, g, x, y)
  {
    seq(|g[y]|, x requires 0 <= x < |g[y]| => CheckIsStart(lex, g, x, y))
  }

  /** The answers for every cell, row by row. */
  function GridChecks(lex: Lexicon, g: Grid): (r: seq<seq<Check>>)
    requires Rect(g)
    ensures |r| == |g|
    ensures forall y :: 0 <= y < |r| ==> r[y] == RowChecks(lex, g, y)
  {
    seq(|g|, y requires 0 <= y < |g| => RowChecks(lex, g, y))
  }

  /** The inner loop of `_find_strand_starts`: the accepted strands of one row,
      left to right; the first failing check aborts the scan. */
  function ScanRow(checks: seq<Check>): Result<seq<Strand>, Error> {
    if |checks| == 0 then Ok([])
    else
      var n := |checks| - 1;
      var prev :- ScanRow(checks[..n]);
      var t :- checks[n];
      Ok(if t.Some? then prev + [t.value] else prev)
  }

  /** The outer loop of `_find_strand_starts`: the rows' strands, concatenated. */
  function ScanRows(rows: seq<seq<Check>>): Result<seq<Strand>, Error> {
    if |rows| == 0 then Ok([])
    else
      var n := |rows| - 1;
      var prev :- ScanRows(rows[..n]);
      var row :- ScanRow(rows[n]);
      Ok(prev + row)
  }

  /** `_find_strand_starts`: every strand start of the glyph, row by row. */
  function StrandStarts(lex: Lexicon, g: Grid): Result<seq<Strand>, Error>
    requires Rect(g)
  {
    ScanRows(GridChecks(lex, g))
  }

  /** Each accepted check of a row gives the strand of its own cell. */
  predicate AtRow(checks: seq<Check>, y: nat) {
    forall x :: 0 <= x < |checks| && Accepts(checks[x]) ==>
      checks[x].value.value.x == x && checks[x].value.value.y == y
  }

  /** A row scan fails exactly when one of its checks fails. */
  lemma {:induction false} ScanRowOk(checks: seq<Check>)
    ensures ScanRow(checks).Ok? <==> forall x :: 0 <= x < |checks| ==> checks[x].Ok?
  {
    if |checks| > 0 {
      var n := |checks| - 1;
      var front := checks[..n];
      assert forall x :: 0 <= x < n ==> front[x] == checks[x];
      ScanRowOk(front);
    }
  }

  /** A row scan lists, left to right, only strands its checks accepted. */
  lemma {:induction false} ScanRowSound(checks: seq<Check>, y: nat)
    requires AtRow(checks, y)
    ensures ScanRow(checks).Ok? ==>
              var ss := ScanRow(checks).value;
              RowMajor(ss) &&
              forall i :: 0 <= i < |ss| ==> ss[i].y == y && ss[i].x < |checks| && checks[ss[i].x] == Ok(Some(ss[i]))
  {
    if |checks| > 0 {
      var n := |checks| - 1;
      var front := checks[..n];
      assert forall x :: 0 <= x < n ==> front[x] == checks[x];
      assert AtRow(front, y);
      ScanRowSound(front, y);
      var prev := ScanRow(front);
      if prev.Ok? && checks[n].Ok? {
        var ss := prev.value;
        if checks[n].value.Some? {
          var r := ss + [checks[n].value.value];
          assert ScanRow(checks) == Ok(r);
          assert forall i :: 0 <= i < |ss| ==> r[i] == ss[i];
          assert r[|ss|] == checks[n].value.value;
        } else {
          assert ScanRow(checks) == Ok(ss);
        }
      }
    }
  }

  /** A row scan lists every strand its checks accepted. */
  lemma {:induction false} ScanRowComplete(checks: seq<Check>)
    ensures ScanRow(checks).Ok? ==>
              forall x :: 0 <= x < |checks| && Accepts(checks[x]) ==> checks[x].value.value in ScanRow(checks).value
  {
    if |checks| > 0 {
      var n := |checks| - 1;
      var front := checks[..n];
      assert forall x :: 0 <= x < n ==> front[x] == checks[x];
      ScanRowComplete(front);
      var prev := ScanRow(front);
      if prev.Ok? && checks[n].Ok? {
        var ss := prev.value;
        var r := if checks[n].value.Some? then ss + [checks[n].value.value] else ss;
        assert ScanRow(checks) == Ok(r);
        assert forall s :: s in ss ==> s in r;
      }
    }
  }

  /** The rows' check lists, each for its own row. */
  predicate AtRows(rows: seq<seq<Check>>) {
    forall y :: 0 <= y < |rows| ==> AtRow(rows[y], y)
  }

  /** A scan of all rows fails exactly when one of the checks fails. */
  lemma {:induction false} ScanRowsOk(rows: seq<seq<Check>>)
    ensures ScanRows(rows).Ok? <==>
              forall y, x :: 0 <= y < |rows| && 0 <= x < |rows[y]| ==> rows[y][x].Ok?
  {
    if |rows| > 0 {
      var n := |rows| - 1;
      var front := rows[..n];
      assert forall y :: 0 <= y < n ==> front[y] == rows[y];
      ScanRowsOk(front);
      ScanRowOk(rows[n]);
    }
  }

  /** The strands of the rows before the last, then those of the last row:
      together in row-major order, each accepted at its own cell. */
  lemma SoundConcat(rows: seq<seq<Check>>, p: seq<Strand>, q: seq<Strand>)
    requires |rows| > 0
    requires RowMajor(p) && forall i :: 0 <= i < |p| ==>
               p[i].y < |rows| - 1 && p[i].x < |rows[p[i].y]| && rows[p[i].y][p[i].x] == Ok(Some(p[i]))
    requires RowMajor(q) && forall i :: 0 <= i < |q| ==>
               q[i].y == |rows| - 1 && q[i].x < |rows[q[i].y]| && rows[q[i].y][q[i].x] == Ok(Some(q[i]))
    ensures var all := p + q;
            RowMajor(all) &&
            forall i :: 0 <= i < |all| ==> all[i].y < |rows| && all[i].x < |rows[all[i].y]| &&
                                            rows[all[i].y][all[i].x] == Ok(Some(all[i]))
  {
    var all := p + q;
    forall i | 0 <= i < |all|
      ensures all[i].y < |rows| && all[i].x < |rows[all[i].y]| && rows[all[i].y][all[i].x] == Ok(Some(all[i]))
      ensures i < |p| ==> all[i].y < |rows| - 1
      ensures i >= |p| ==> all[i].y == |rows| - 1
    {
      if i < |p| {
        assert all[i] == p[i];
      } else {
        assert all[i] == q[i - |p|];
      }
    }
    forall i, j | 0 <= i < j < |all| ensures Before(all[i], all[j]) {
      if j < |p| {
        assert all[i] == p[i] && all[j] == p[j];
      } else if i >= |p| {
        assert all[i] == q[i - |p|] && all[j] == q[j - |p|];
      }
    }
  }

  /** A scan of all rows lists, in row-major order, only strands the checks accepted. */
  lemma {:induction false} ScanRowsSound(rows: seq<seq<Check>>)
    requires AtRows(rows)
    ensures ScanRows(rows).Ok? ==>
              var ss := ScanRows(rows).value;
              RowMajor(ss) &&
              forall i :: 0 <= i < |ss| ==> ss[i].y < |rows| && ss[i].x < |rows[ss[i].y]| &&
                                             rows[ss[i].y][ss[i].x] == Ok(Some(ss[i]))
  {
    if |rows| > 0 {
      var n := |rows| - 1;
      var front := rows[..n];
      assert forall y :: 0 <= y < n ==> front[y] == rows[y];
      assert AtRows(front);
      ScanRowsSound(front);
      ScanRowSound(rows[n], n);
      var prev := ScanRows(front);
      var row := ScanRow(rows[n]);
      if prev.Ok? && row.Ok? {
        assert ScanRows(rows) == Ok(prev.value + row.value);
        SoundConcat(rows, prev.value, row.value);
      }
    }
  }

  /** A scan of all rows lists every strand the checks accepted. */
  lemma {:induction false} ScanRowsComplete(rows: seq<seq<Check>>)
    ensures ScanRows(rows).Ok? ==>
              forall y, x :: 0 <= y < |rows| && 0 <= x < |rows[y]| && Accepts(rows[y][x]) ==>
                rows[y][x].value.value in ScanRows(rows).value
  {
    if |rows| > 0 {
      var n := |rows| - 1;
      var front := rows[..n];
      assert forall y :: 0 <= y < n ==> front[y] == rows[y];
      ScanRowsComplete(front);
      ScanRowComplete(rows[n]);
      var prev := ScanRows(front);
      var row := ScanRow(rows[n]);
      if prev.Ok? && row.Ok? {
        var all := prev.value + row.value;
        assert ScanRows(rows) == Ok(all);
        assert forall s :: s in prev.value || s in row.value ==> s in all;
        forall y, x | 0 <= y < |rows| && 0 <= x < |rows[y]| && Accepts(rows[y][x])
          ensures rows[y][x].value.value in all
        {
          if y < n {
            assert rows[y][x] == front[y][x];
          }
        }
      }
    }
  }

  /** Row y, column x of the answers is the check of cell (x, y). */
  lemma GridChecksCells(lex: Lexicon, g: Grid)
    requires Rect(g)
    ensures AtRows(GridChecks(lex, g))
    ensures forall y, x :: 0 <= y < |GridChecks(lex, g)| && 0 <= x < |GridChecks(lex, g)[y]| ==>
              InGrid(g, x, y) && GridChecks(lex, g)[y][x] == CheckIsStart(lex, g, x, y)
  {
    var rows := GridChecks(lex, g);
    forall y, x | 0 <= y < |rows| && 0 <= x < |rows[y]|
      ensures InGrid(g, x, y) && rows[y][x] == CheckIsStart(lex, g, x, y)
    {
      assert rows[y] == RowChecks(lex, g, y);
    }
  }

  /** `_find_strand_starts` fails exactly when some cell check fails. */
  lemma StrandStartsOk(lex: Lexicon, g: Grid)
    requires Rect(g)
    ensures StrandStarts(lex, g).Ok? <==> forall y, x :: InGrid(g, x, y) ==> CheckIsStart(lex, g, x, y).Ok?
  {
    GridChecksCells(lex, g);
    ScanRowsOk(GridChecks(lex, g));
  }

  /** `_find_strand_starts` lists, in row-major order, only cells `_check_is_start` accepts. */
  lemma StrandStartsSound(lex: Lexicon, g: Grid)
    requires Rect(g)
    ensures StrandStarts(lex, g).Ok? ==>
              var ss := StrandStarts(lex, g).value;
              RowMajor(ss) &&
              forall i :: 0 <= i < |ss| ==>
                InGrid(g, ss[i].x, ss[i].y) && CheckIsStart(lex, g, ss[i].x, ss[i].y) == Ok(Some(ss[i])) &&
                Untraced(ss[i])
  {
    GridChecksCells(lex, g);
    ScanRowsSound(GridChecks(lex, g));
  }

  /** `_find_strand_starts` lists every cell `_check_is_start` accepts. */
  lemma StrandStartsComplete(lex: Lexicon, g: Grid)
    requires Rect(g)
    ensures StrandStarts(lex, g).Ok? ==>
              forall y, x :: InGrid(g, x, y) && Accepts(CheckIsStart(lex, g, x, y)) ==>
                CheckIsStart(lex, g, x, y).value.value in StrandStarts(lex, g).value
  {
    GridChecksCells(lex, g);
    ScanRowsComplete(GridChecks(lex, g));
  }

  /** `_find_strand_starts` lists exactly the cells `_check_is_start` accepts, in
      row-major order, each once; it fails exactly when some cell check fails. */
  lemma StrandStartsExact(lex: Lexicon, g: Grid)
    requires Rect(g)
    ensures StrandStarts(lex, g).Ok? <==> forall y, x :: InGrid(g, x, y) ==> CheckIsStart(lex, g, x, y).Ok?
    ensures StrandStarts(lex, g).Ok? ==>
              var ss := StrandStarts(lex, g).value;
              RowMajor(ss) &&
              (forall i :: 0 <= i < |ss| ==>
                 InGrid(g, ss[i].x, ss[i].y) && CheckIsStart(lex, g, ss[i].x, ss[i].y) == Ok(Some(ss[i])) &&
                 Untraced(ss[i])) &&
              (forall y, x :: InGrid(g, x, y) && Accepts(CheckIsStart(lex, g, x, y)) ==>
                 CheckIsStart(lex, g, x, y).value.value in ss)
  {
    StrandStartsOk(lex, g);
    StrandStartsSound(lex, g);
    StrandStartsComplete(lex, g);
  }

  // ---------------------------------------------------------------- tracing

  /** The candidates of `cands`, in order, that are in `dirs` and are not `back`. */
  function KeepDirs(cands: seq<Dir>, dirs: seq<Dir>, back: Dir): (r: seq<Dir>)
    requires forall i, j :: 0 <= i < j < |cands| ==> cands[i] != cands[j]
    ensures forall d :: d in r <==> d in cands && d in dirs && d != back
    ensures forall i, j :: 0 <= i < j < |r| ==> r[i] != r[j]
  {
    if |cands| == 0 then []
    else
      var rest := KeepDirs(cands[1..], dirs, back);
      assert forall d :: d in cands <==> d == cands[0] || d in cands[1..];
      assert cands[0] !in cands[1..];
      if cands[0] in dirs && cands[0] != back then [cands[0]] + rest else rest
  }

  /** `set(dirs) - {back}`: the directions of `dirs` other than `back`, each once. */
  function OtherDirs(dirs: seq<Dir>, back: Dir): (r: seq<Dir>)
    ensures forall d :: d in r <==> d in dirs && d != back
    ensures forall i, j :: 0 <= i < j < |r| ==> r[i] != r[j]
  {
    KeepDirs([Up, Down, Left, Right], dirs, back)
  }

  /** A continue or corner reading is present, and so the strand may turn or go on. */
  predicate MayContinue(rs: seq<Reading>) {
    HasPos(rs, Continue) || HasPos(rs, Corner)
  }

  /** The direction list of the last reading of a symbol. */
  function LastDirs(rs: seq<Reading>): seq<Dir>
    requires |rs| > 0
  {
    rs[|rs| - 1].dir
  }

  /** With other than exactly one direction besides `back`, every other direction has a second one beside it. */
  lemma NotOneOther(dirs: seq<Dir>, back: Dir)
    requires |OtherDirs(dirs, back)| != 1
    ensures forall e :: e in dirs && e != back ==> exists e' :: e' in dirs && e' != back && e' != e
  {
    var others := OtherDirs(dirs, back);
    forall e | e in dirs && e != back
      ensures exists e' :: e' in dirs && e' != back && e' != e
    {
      assert e in others;
      var k :| 0 <= k < |others| && others[k] == e;
      var k' := if k == 0 then 1 else 0;
      assert others[k'] in others;
    }
  }

  /**
   * The direction the strand leaves a cell in, having come in going `pdir`. The
   * source takes the direction list of the LAST reading of the symbol (the loop
   * variable left over from building the readings dict), not necessarily that of
   * the continue or corner reading. The strand goes on only if that list points
   * back where it came from, and then the other direction must be unique.
   */
  function NextDir(rs: seq<Reading>, pdir: Dir): (r: Result<Option<Dir>, Error>)
    ensures r.Ok? && r.value.Some? ==>
              MayContinue(rs) && |rs| > 0 && Opposite(pdir) in LastDirs(rs) && r.value.value in LastDirs(rs) &&
              r.value.value != Opposite(pdir) &&
              forall e :: e in LastDirs(rs) ==> e == r.value.value || e == Opposite(pdir)
    ensures r.Ok? && r.value.None? ==> !MayContinue(rs) || (|rs| > 0 && Opposite(pdir) !in LastDirs(rs))
    ensures r.Err? ==>
              r.error == InternalErr(AmbiguousDirection) && MayContinue(rs) && |rs| > 0 &&
              Opposite(pdir) in LastDirs(rs) &&
              forall e :: e in LastDirs(rs) && e != Opposite(pdir) ==>
                exists e' :: e' in LastDirs(rs) && e' != Opposite(pdir) && e' != e
  {
    if MayContinue(rs) && |rs| > 0 then
      var last := LastDirs(rs);
      var back := Opposite(pdir);
      if back in last then
        var others := OtherDirs(last, back);
        if |others| != 1 then
          NotOneOther(last, back);
          Err(InternalErr(AmbiguousDirection))
        else
          assert others == [others[0]];
          Ok(Some(others[0]))
      else Ok(None)
    else Ok(None)
  }

  /**
   * The end test of `_interpret_strand` for a cell with an end or loc_marker
   * reading: it is the end unless the strand has somewhere to go, the cell also
   * reads as a continue, and the next symbol reads back towards it.
   */
  predicate EndsHere(lex: Lexicon, g: Grid, x: nat, y: nat, rs: seq<Reading>, next: Option<Dir>)
    requires InGrid(g, x, y)
  {
    next.None? || !HasPos(rs, Continue) || !PointsBack(lex, g, x, y, next.value)
  }

  /** One cell of the walk, before any arithmetic: where it is, its readings, the
      direction it continues in, and whether the strand ends there. */
  datatype Move = Move(cx: nat, cy: nat, readings: seq<Reading>, next: Option<Dir>, finish: bool)

  /** The non-arithmetic part of one call of `_interpret_strand`: look at the cell
      one step from (px, py) in direction pdir and decide how the walk goes on. */
  function Advance(lex: Lexicon, g: Grid, px: nat, py: nat, pdir: Dir): (r: Result<Move, Error>)
    requires Rect(g) && InGrid(g, px, py)
    ensures r.Ok? ==> InGrid(g, r.value.cx, r.value.cy) && (r.value.cx, r.value.cy) == Shift(px, py, pdir)
    ensures r.Ok? && !r.value.finish ==> r.value.next.Some? && MayContinue(r.value.readings)
    ensures r.Ok? && r.value.finish ==>
              (HasPos(r.value.readings, End) || HasPos(r.value.readings, LocMarker)) &&
              EndsHere(lex, g, r.value.cx, r.value.cy, r.value.readings, r.value.next)
  {
    match GetNeighbor(g, px, py, pdir)
    case Off => Err(PythonErr(TypeError("'NoneType' object is not subscriptable")))
    case Ragged => Err(PythonErr(IndexError("list index out of range")))
    case At(c, cx, cy) =>
      var ls := LettersWith(lex, c);
      if |ls| == 0 then
        Err(InternalErr(if c == ' ' then BlankSpace(cx, cy) else NoSymbol(c)))
      else if |ls| > 1 then
        Err(InternalErr(MultipleSymbols(c)))
      else
        var rs := ls[0].readings;
        var nd :- NextDir(rs, pdir);
        if (HasPos(rs, End) || HasPos(rs, LocMarker)) && EndsHere(lex, g, cx, cy, rs, nd) then
          Ok(Move(cx, cy, rs, nd, true))
        else if MayContinue(rs) && nd.Some? then
          Ok(Move(cx, cy, rs, nd, false))
        else
          Err(SyntaxErr(NoValidReading(cx, cy)))
  }

  /** A strand that steps onto a cell whose symbol can neither carry it on nor
      end it is a syntax error at that cell. */
  lemma AdvanceNoReading(lex: Lexicon, g: Grid, px: nat, py: nat, pdir: Dir)
    requires Rect(g) && InGrid(g, px, py) && !Leaves(g, px, py, pdir)
    requires var (cx, cy) := Shift(px, py, pdir);
             var ls := LettersWith(lex, g[cy][cx]);
             |ls| == 1 && !MayContinue(ls[0].readings) &&
             !HasPos(ls[0].readings, End) && !HasPos(ls[0].readings, LocMarker)
    ensures Advance(lex, g, px, py, pdir) == Err(SyntaxErr(NoValidReading(Shift(px, py, pdir).0, Shift(px, py, pdir).1)))
  {
  }

  /** A strand that enters a continue or corner symbol from a side its last
      reading does not list, where the symbol has no end reading either, is a
      syntax error at that cell. */
  lemma AdvanceSideEntry(lex: Lexicon, g: Grid, px: nat, py: nat, pdir: Dir)
    requires Rect(g) && InGrid(g, px, py) && !Leaves(g, px, py, pdir)
    requires var (cx, cy) := Shift(px, py, pdir);
             var ls := LettersWith(lex, g[cy][cx]);
             |ls| == 1 && MayContinue(ls[0].readings) && |ls[0].readings| > 0 &&
             Opposite(pdir) !in LastDirs(ls[0].readings) &&
             !HasPos(ls[0].readings, End) && !HasPos(ls[0].readings, LocMarker)
    ensures Advance(lex, g, px, py, pdir) == Err(SyntaxErr(NoValidReading(Shift(px, py, pdir).0, Shift(px, py, pdir).1)))
  {
  }

  /** Stepping off the glyph is the source's TypeError on a missing neighbour,
      and a symbol missing from the lexicon or drawn by two letters an internal error. */
  lemma AdvanceErrors(lex: Lexicon, g: Grid, px: nat, py: nat, pdir: Dir)
    requires Rect(g) && InGrid(g, px, py)
    ensures Leaves(g, px, py, pdir) ==> Advance(lex, g, px, py, pdir).Err? && Advance(lex, g, px, py, pdir).error.PythonErr?
    ensures !Leaves(g, px, py, pdir) ==>
              var (cx, cy) := Shift(px, py, pdir);
              var c := g[cy][cx];
              (|LettersWith(lex, c)| == 0 ==>
                 Advance(lex, g, px, py, pdir) == Err(InternalErr(if c == ' ' then BlankSpace(cx, cy) else NoSymbol(c)))) &&
              (|LettersWith(lex, c)| > 1 ==> Advance(lex, g, px, py, pdir) == Err(InternalErr(MultipleSymbols(c))))
  {
  }

  /** Python's `math.floor(n / 2)`; Dafny's division by a positive divisor already floors. */
  function FloorHalf(n: int): (q: int)
    ensures 2 * q <= n < 2 * q + 2
  {
    n / 2
  }

  function Abs(n: int): nat {
    if n < 0 then -n else n
  }

  /** The prime index a vertical step at column cx adds, measured from the strand's start column sx. */
  function VertIndex(sx: int, cx: int): nat {
    Abs(FloorHalf(sx - cx))
  }

  /**
   * The arithmetic of one continue step leaving cell (cx, cy) in direction d
   * (a missing sum counts as 0 first): going right adds `primes[cy]` to the value,
   * going left subtracts it; going down adds `primes[|⌊(x0 − cx)/2⌋|]` to the
   * vertical value, where x0 is the strand's start column, going up subtracts it.
   * Each kind of step leaves the other sum as it was. An index past the table is
   * the source's IndexError.
   */
  function Accumulate(primes: seq<int>, s: Strand, cx: nat, cy: nat, d: Dir): (r: Result<Strand, Error>)
    ensures r.Ok? ==> SameOrigin(r.value, s) && r.value.subtype == s.subtype &&
                      r.value.endAt == s.endAt && r.value.command == s.command
    ensures IsHorizontal(d) ==> (r.Ok? <==> cy < |primes|)
    ensures !IsHorizontal(d) ==> (r.Ok? <==> VertIndex(s.x, cx) < |primes|)
    ensures r.Ok? && d == Right ==> r.value.value == Some(s.value.GetOr(0) + primes[cy]) && r.value.vertValue == Some(s.vertValue.GetOr(0))
    ensures r.Ok? && d == Left ==> r.value.value == Some(s.value.GetOr(0) - primes[cy]) && r.value.vertValue == Some(s.vertValue.GetOr(0))
    ensures r.Ok? && d == Down ==> r.value.vertValue == Some(s.vertValue.GetOr(0) + primes[VertIndex(s.x, cx)]) && r.value.value == Some(s.value.GetOr(0))
    ensures r.Ok? && d == Up ==> r.value.vertValue == Some(s.vertValue.GetOr(0) - primes[VertIndex(s.x, cx)]) && r.value.value == Some(s.value.GetOr(0))
  {
    var v := s.value.GetOr(0);
    var vv := s.vertValue.GetOr(0);
    match d
    case Right =>
      if cy < |primes| then Ok(s.(value := Some(v + primes[cy]), vertValue := Some(vv)))
      else Err(PythonErr(IndexError("list index out of range")))
    case Left =>
      if cy < |primes| then Ok(s.(value := Some(v - primes[cy]), vertValue := Some(vv)))
      else Err(PythonErr(IndexError("list index out of range")))
    case Down =>
      var i := VertIndex(s.x, cx);
      if i < |primes| then Ok(s.(value := Some(v), vertValue := Some(vv + primes[i])))
      else Err(PythonErr(IndexError("list index out of range")))
    case Up =>
      var i := VertIndex(s.x, cx);
      if i < |primes| then Ok(s.(value := Some(v), vertValue := Some(vv - primes[i])))
      else Err(PythonErr(IndexError("list index out of range")))
  }

  /** The strand ends on a loc_marker that faces back along the incoming direction. */
  predicate LocEnd(rs: seq<Reading>, pdir: Dir) {
    HasPos(rs, LocMarker) && Opposite(pdir) in LastWithPos(rs, LocMarker).dir
  }

  /**
   * `_mark_end`: classify a strand that ended at (cx, cy), arriving in direction
   * pdir and last leaving in direction `next` (if any).
   */
  function MarkEnd(cmds: CommandMap, s: Strand, cx: nat, cy: nat, next: Option<Dir>, pdir: Dir,
                   rs: seq<Reading>): (r: Result<Strand, Error>)
    ensures r.Ok? ==> SameOrigin(r.value, s)
    // a question marker records where it ended and forgets both sums
    ensures s.kind == QuestionMarker ==>
              r.Ok? && r.value.endAt == Some(Point(cx, cy)) && r.value.value.None? &&
              r.value.vertValue.None? && r.value.subtype == s.subtype && r.value.command == s.command
    // a data strand becomes a ref (value forgotten) or a value (vertical value forgotten)
    ensures s.kind == Data ==>
              r.Ok? && r.value.vertValue.None? && r.value.command == s.command &&
              (r.value.subtype == RefStrand <==> LocEnd(rs, pdir)) &&
              (r.value.subtype == RefStrand ==> r.value.value.None? && r.value.endAt == Some(Point(cx, cy))) &&
              (r.value.subtype != RefStrand ==> r.value.subtype == ValueStrand && r.value.value == s.value &&
                                                r.value.endAt == s.endAt)
    // an action strand looks its command up by its vertical value
    ensures s.kind == Action ==>
              (r.Ok? <==> Key(s.vertValue) in cmds) &&
              (r.Ok? ==> r.value.command == Some(cmds[Key(s.vertValue)]) && r.value.value.None? &&
                         r.value.vertValue == s.vertValue &&
                         (LocEnd(rs, pdir) ==> r.value.subtype == ListToList && r.value.endAt == Some(Point(cx, cy))) &&
                         (!LocEnd(rs, pdir) ==>
                            (r.value.endAt == s.endAt &&
                             r.value.subtype == if next.Some? && IsHorizontal(next.value) then ListStrand else ElementStrand)))
    ensures r.Err? ==> s.kind == Action && r.error == PythonErr(KeyError(Key(s.vertValue)))
  {
    match s.kind
    case QuestionMarker =>
      Ok(s.(endAt := Some(Point(cx, cy)), value := None, vertValue := None))
    case Data =>
      if LocEnd(rs, pdir) then
        Ok(s.(value := None, endAt := Some(Point(cx, cy)), vertValue := None, subtype := RefStrand))
      else
        Ok(s.(subtype := ValueStrand, vertValue := None))
    case Action =>
      var key := Key(s.vertValue);
      if key !in cmds then Err(PythonErr(KeyError(key)))
      else if LocEnd(rs, pdir) then
        Ok(s.(value := None, endAt := Some(Point(cx, cy)), subtype := ListToList, command := Some(cmds[key])))
      else
        Ok(s.(value := None, command := Some(cmds[key]),
              subtype := if next.Some? && IsHorizontal(next.value) then ListStrand else ElementStrand))
  }

  /** The classification is one of those the kind allows. */
  predicate Classified(t: Strand) {
    match t.kind
    case Data => t.subtype == ValueStrand || t.subtype == RefStrand
    case Action => t.subtype == ListStrand || t.subtype == ElementStrand || t.subtype == ListToList
    case QuestionMarker => t.endAt.Some?
  }

  /** A continue step is counted at this cell: it reads as a continue and the strand goes on. */
  predicate Counts(m: Move) {
    HasPos(m.readings, Continue) && m.next.Some?
  }

  /** The sums after the cell of m: accumulated for a counted step, as they were otherwise. */
  function StepSums(primes: seq<int>, s: Strand, m: Move): Result<Strand, Error> {
    if Counts(m) then Accumulate(primes, s, m.cx, m.cy, m.next.value) else Ok(s)
  }

  /**
   * `_interpret_strand`: from cell (px, py), heading pdir, follow the strand one
   * cell at a time, accumulating into s, until its end, where `_mark_end`
   * classifies it. The source recurses without bound (a cyclic figure exhausts
   * Python's recursion limit); here the walk takes at most `fuel` cells.
   */
  function Interpret(lex: Lexicon, cmds: CommandMap, primes: seq<int>, g: Grid,
                     px: nat, py: nat, pdir: Dir, s: Strand, fuel: nat): (r: Result<Strand, Error>)
    requires Rect(g) && InGrid(g, px, py)
    ensures r.Ok? ==> SameOrigin(r.value, s)
    decreases fuel
  {
    if fuel == 0 then Err(OutOfFuel)
    else
      var m :- Advance(lex, g, px, py, pdir);
      var s1 :- StepSums(primes, s, m);
      if m.finish then MarkEnd(cmds, s1, m.cx, m.cy, m.next, pdir, m.readings)
      else Interpret(lex, cmds, primes, g, m.cx, m.cy, m.next.value, s1, fuel - 1)
  }

  /** One step of a successful trace: the first cell is reached, its sum step
      succeeds, and the trace ends there or goes on from it. */
  lemma InterpretCons(lex: Lexicon, cmds: CommandMap, primes: seq<int>, g: Grid,
                      px: nat, py: nat, pdir: Dir, s: Strand, fuel: nat)
    returns (m: Move, s1: Strand)
    requires Rect(g) && InGrid(g, px, py)
    requires Interpret(lex, cmds, primes, g, px, py, pdir, s, fuel).Ok?
    ensures fuel > 0 && Advance(lex, g, px, py, pdir) == Ok(m) && StepSums(primes, s, m) == Ok(s1)
    ensures InGrid(g, m.cx, m.cy) && (!m.finish ==> m.next.Some?)
    ensures m.finish ==> MarkEnd(cmds, s1, m.cx, m.cy, m.next, pdir, m.readings) ==
                         Interpret(lex, cmds, primes, g, px, py, pdir, s, fuel)
    ensures !m.finish ==> Interpret(lex, cmds, primes, g, m.cx, m.cy, m.next.value, s1, fuel - 1) ==
                          Interpret(lex, cmds, primes, g, px, py, pdir, s, fuel)
  {
    m := Advance(lex, g, px, py, pdir).value;
    s1 := StepSums(primes, s, m).value;
  }

  /** A sum step keeps everything but the two sums. */
  lemma StepSumsKeeps(primes: seq<int>, s: Strand, m: Move)
    requires StepSums(primes, s, m).Ok?
    ensures var s1 := StepSums(primes, s, m).value;
            SameOrigin(s1, s) && s1.subtype == s.subtype && s1.endAt == s.endAt && s1.command == s.command
  {
  }

  /** `_mark_end` always leaves a classification the strand's kind allows. */
  lemma MarkEndClassified(cmds: CommandMap, s: Strand, cx: nat, cy: nat, next: Option<Dir>, pdir: Dir,
                          rs: seq<Reading>)
    requires MarkEnd(cmds, s, cx, cy, next, pdir, rs).Ok?
    ensures Classified(MarkEnd(cmds, s, cx, cy, next, pdir, rs).value)
  {
  }

  /** `_mark_end` gives an action strand the command-table entry of its vertical value. */
  lemma MarkEndCommand(cmds: CommandMap, s: Strand, cx: nat, cy: nat, next: Option<Dir>, pdir: Dir,
                       rs: seq<Reading>)
    requires s.kind == Action && MarkEnd(cmds, s, cx, cy, next, pdir, rs).Ok?
    ensures var t := MarkEnd(cmds, s, cx, cy, next, pdir, rs).value;
            Key(t.vertValue) in cmds && t.command == Some(cmds[Key(t.vertValue)])
  {
  }

  /** Trace a strand from its start cell (`_interpret_strand(glyph, s, s)`). */
  function Trace(lex: Lexicon, cmds: CommandMap, primes: seq<int>, g: Grid, s: Strand, fuel: nat): (r: Result<Strand, Error>)
    requires Rect(g) && InGrid(g, s.x, s.y)
  {
    Interpret(lex, cmds, primes, g, s.x, s.y, s.dir, s, fuel)
  }

  // ------------------------------------------------ the path and its sums

  /** A cell the walk passed: the move made there and the direction it was entered in. */
  datatype Visit = Visit(move: Move, from: Dir)

  /** The cells a strand walks through, up to and including its end cell,
      following the same steps as Interpret but with no arithmetic. */
  function Walk(lex: Lexicon, g: Grid, px: nat, py: nat, pdir: Dir, fuel: nat): (r: Result<seq<Visit>, Error>)
    requires Rect(g) && InGrid(g, px, py)
    ensures r.Ok? ==> 0 < |r.value| <= fuel
    decreases fuel
  {
    if fuel == 0 then Err(OutOfFuel)
    else
      var m :- Advance(lex, g, px, py, pdir);
      if m.finish then Ok([Visit(m, pdir)])
      else
        var rest :- Walk(lex, g, m.cx, m.cy, m.next.value, fuel - 1);
        Ok([Visit(m, pdir)] + rest)
  }

  /** The arithmetic and the classification of a trace replayed over its path:
      the sums of each cell in turn, then `_mark_end` at the last one. */
  function Replay(cmds: CommandMap, primes: seq<int>, s: Strand, path: seq<Visit>): (r: Result<Strand, Error>)
    requires |path| > 0
    decreases |path|
  {
    var v := path[0];
    var s1 :- StepSums(primes, s, v.move);
    if |path| == 1 then MarkEnd(cmds, s1, v.move.cx, v.move.cy, v.move.next, v.from, v.move.readings)
    else Replay(cmds, primes, s1, path[1..])
  }

  /** A walk goes on from a cell it does not end at when the rest of it does. */
  lemma WalkStep(lex: Lexicon, g: Grid, px: nat, py: nat, pdir: Dir, fuel: nat)
    requires Rect(g) && InGrid(g, px, py) && fuel > 0 && Advance(lex, g, px, py, pdir).Ok?
    requires var m := Advance(lex, g, px, py, pdir).value;
             m.finish || Walk(lex, g, m.cx, m.cy, m.next.value, fuel - 1).Ok?
    ensures Walk(lex, g, px, py, pdir, fuel).Ok?
    ensures var m := Advance(lex, g, px, py, pdir).value;
            var path := Walk(lex, g, px, py, pdir, fuel).value;
            path[0] == Visit(m, pdir) &&
            (m.finish ==> |path| == 1) &&
            (!m.finish ==> path[1..] == Walk(lex, g, m.cx, m.cy, m.next.value, fuel - 1).value)
  {
  }

  /** A replay over a path of one cell: its sum step, then `_mark_end` there. */
  lemma ReplayLast(cmds: CommandMap, primes: seq<int>, s: Strand, path: seq<Visit>, s1: Strand)
    requires |path| == 1 && StepSums(primes, s, path[0].move) == Ok(s1)
    ensures Replay(cmds, primes, s, path) ==
            MarkEnd(cmds, s1, path[0].move.cx, path[0].move.cy, path[0].move.next, path[0].from, path[0].move.readings)
  {
  }

  /** A replay over a longer path: its first sum step, then the replay of the rest. */
  lemma ReplayNext(cmds: CommandMap, primes: seq<int>, s: Strand, path: seq<Visit>, s1: Strand)
    requires |path| > 1 && StepSums(primes, s, path[0].move) == Ok(s1)
    ensures Replay(cmds, primes, s, path) == Replay(cmds, primes, s1, path[1..])
  {
  }

  /** The replay of the path the walk from (px, py) takes, or the walk's error. */
  function WalkReplay(lex: Lexicon, cmds: CommandMap, primes: seq<int>, g: Grid,
                      px: nat, py: nat, pdir: Dir, s: Strand, fuel: nat): Result<Strand, Error>
    requires Rect(g) && InGrid(g, px, py)
  {
    var path :- Walk(lex, g, px, py, pdir, fuel);
    Replay(cmds, primes, s, path)
  }

  /** The outcome of a trace from (px, py), as the replay lemmas below quote it:
      Interpret itself, behind a name the verifier unfolds one step at a time. */
  function Run(lex: Lexicon, cmds: CommandMap, primes: seq<int>, g: Grid,
               px: nat, py: nat, pdir: Dir, s: Strand, fuel: nat): Result<Strand, Error>
    requires Rect(g) && InGrid(g, px, py)
  {
    Interpret(lex, cmds, primes, g, px, py, pdir, s, fuel)
  }

  /** The replay of the walk from (px, py) gives the trace's own outcome. */
  predicate Agree(lex: Lexicon, cmds: CommandMap, primes: seq<int>, g: Grid,
                  px: nat, py: nat, pdir: Dir, s: Strand, fuel: nat)
    requires Rect(g) && InGrid(g, px, py)
  {
    WalkReplay(lex, cmds, primes, g, px, py, pdir, s, fuel) == Run(lex, cmds, primes, g, px, py, pdir, s, fuel)
  }

  /** One step of ReplaysAll: a trace ending at its first cell agrees with its replay;
      otherwise it does when the rest of it, from (nx, ny), does. */
  lemma ReplayStep(lex: Lexicon, cmds: CommandMap, primes: seq<int>, g: Grid,
                   px: nat, py: nat, pdir: Dir, s: Strand, fuel: nat)
    returns (done: bool, nx: nat, ny: nat, nd: Dir, s1: Strand)
    requires Rect(g) && InGrid(g, px, py)
    requires Run(lex, cmds, primes, g, px, py, pdir, s, fuel).Ok?
    ensures done ==> Agree(lex, cmds, primes, g, px, py, pdir, s, fuel)
    ensures !done ==>
              fuel > 0 && InGrid(g, nx, ny) &&
              Run(lex, cmds, primes, g, nx, ny, nd, s1, fuel - 1).Ok? &&
              (Agree(lex, cmds, primes, g, nx, ny, nd, s1, fuel - 1) ==> Agree(lex, cmds, primes, g, px, py, pdir, s, fuel))
  {
    var m;
    m, s1 := InterpretCons(lex, cmds, primes, g, px, py, pdir, s, fuel);
    done, nx, ny, nd := m.finish, m.cx, m.cy, if m.finish then pdir else m.next.value;
    if m.finish {
      WalkStep(lex, g, px, py, pdir, fuel);
      ReplayLast(cmds, primes, s, Walk(lex, g, px, py, pdir, fuel).value, s1);
    } else if Walk(lex, g, m.cx, m.cy, m.next.value, fuel - 1).Ok? {
      WalkStep(lex, g, px, py, pdir, fuel);
      var path := Walk(lex, g, px, py, pdir, fuel).value;
      ReplayNext(cmds, primes, s, path, s1);
    }
  }

  /** Every successful trace agrees with its replay, step by step down the fuel. */
  lemma {:induction false} ReplaysAll(lex: Lexicon, cmds: CommandMap, primes: seq<int>, g: Grid,
                                      px: nat, py: nat, pdir: Dir, s: Strand, fuel: nat)
    requires Rect(g) && InGrid(g, px, py)
    requires Run(lex, cmds, primes, g, px, py, pdir, s, fuel).Ok?
    ensures Agree(lex, cmds, primes, g, px, py, pdir, s, fuel)
    decreases fuel
  {
    var done, nx, ny, nd, s1 := ReplayStep(lex, cmds, primes, g, px, py, pdir, s, fuel);
    if !done {
      ReplaysAll(lex, cmds, primes, g, nx, ny, nd, s1, fuel - 1);
    }
  }

  /**
   * A successful trace walks a path, and it is the replay of its arithmetic over
   * that path: what the source computes while it recurses is what a pass over
   * the finished path computes.
   */
  lemma InterpretReplays(lex: Lexicon, cmds: CommandMap, primes: seq<int>, g: Grid,
                         px: nat, py: nat, pdir: Dir, s: Strand, fuel: nat)
    requires Rect(g) && InGrid(g, px, py)
    requires Interpret(lex, cmds, primes, g, px, py, pdir, s, fuel).Ok?
    ensures Walk(lex, g, px, py, pdir, fuel).Ok?
    ensures Replay(cmds, primes, s, Walk(lex, g, px, py, pdir, fuel).value) ==
            Interpret(lex, cmds, primes, g, px, py, pdir, s, fuel)
  {
    ReplaysAll(lex, cmds, primes, g, px, py, pdir, s, fuel);
  }

  /** A replayed strand that started unclassified (or already classified) ends
      with a classification its kind allows. */
  lemma {:induction false} ReplayClassified(cmds: CommandMap, primes: seq<int>, s: Strand, path: seq<Visit>)
    requires |path| > 0 && Replay(cmds, primes, s, path).Ok?
    requires s.subtype == Unset || Classified(s)
    ensures Classified(Replay(cmds, primes, s, path).value)
    decreases |path|
  {
    var v := path[0];
    var s1 := StepSums(primes, s, v.move).value;
    StepSumsKeeps(primes, s, v.move);
    if |path| == 1 {
      ReplayLast(cmds, primes, s, path, s1);
      MarkEndClassified(cmds, s1, v.move.cx, v.move.cy, v.move.next, v.from, v.move.readings);
    } else {
      ReplayNext(cmds, primes, s, path, s1);
      ReplayClassified(cmds, primes, s1, path[1..]);
    }
  }

  /** A traced strand that started unclassified (or already classified) ends
      with a classification its kind allows. */
  lemma InterpretClassified(lex: Lexicon, cmds: CommandMap, primes: seq<int>, g: Grid,
                            px: nat, py: nat, pdir: Dir, s: Strand, fuel: nat)
    requires Rect(g) && InGrid(g, px, py)
    requires Interpret(lex, cmds, primes, g, px, py, pdir, s, fuel).Ok?
    requires s.subtype == Unset || Classified(s)
    ensures Classified(Interpret(lex, cmds, primes, g, px, py, pdir, s, fuel).value)
  {
    InterpretReplays(lex, cmds, primes, g, px, py, pdir, s, fuel);
    ReplayClassified(cmds, primes, s, Walk(lex, g, px, py, pdir, fuel).value);
  }

  /** A replayed action strand carries the command-table entry of its vertical value. */
  lemma {:induction false} ReplayCommand(cmds: CommandMap, primes: seq<int>, s: Strand, path: seq<Visit>)
    requires |path| > 0 && Replay(cmds, primes, s, path).Ok?
    requires s.kind == Action
    ensures var t := Replay(cmds, primes, s, path).value;
            Key(t.vertValue) in cmds && t.command == Some(cmds[Key(t.vertValue)])
    decreases |path|
  {
    var v := path[0];
    var s1 := StepSums(primes, s, v.move).value;
    StepSumsKeeps(primes, s, v.move);
    if |path| == 1 {
      ReplayLast(cmds, primes, s, path, s1);
      MarkEndCommand(cmds, s1, v.move.cx, v.move.cy, v.move.next, v.from, v.move.readings);
    } else {
      ReplayNext(cmds, primes, s, path, s1);
      ReplayCommand(cmds, primes, s1, path[1..]);
    }
  }

  /** A traced action strand carries the command-table entry of its vertical value. */
  lemma InterpretCommand(lex: Lexicon, cmds: CommandMap, primes: seq<int>, g: Grid,
                         px: nat, py: nat, pdir: Dir, s: Strand, fuel: nat)
    requires Rect(g) && InGrid(g, px, py)
    requires Interpret(lex, cmds, primes, g, px, py, pdir, s, fuel).Ok?
    requires s.kind == Action
    ensures var t := Interpret(lex, cmds, primes, g, px, py, pdir, s, fuel).value;
            Key(t.vertValue) in cmds && t.command == Some(cmds[Key(t.vertValue)])
  {
    InterpretReplays(lex, cmds, primes, g, px, py, pdir, s, fuel);
    ReplayCommand(cmds, primes, s, Walk(lex, g, px, py, pdir, fuel).value);
  }

  /** Some continue step was counted along the path. */
  predicate Counted(path: seq<Visit>) {
    exists i :: 0 <= i < |path| && Counts(path[i].move)
  }

  /** What one visit adds to `value`: the row's prime for a counted step right, minus it for one left. */
  function HStep(primes: seq<int>, v: Visit): int {
    var m := v.move;
    if Counts(m) && m.next == Some(Right) && m.cy < |primes| then primes[m.cy]
    else if Counts(m) && m.next == Some(Left) && m.cy < |primes| then -primes[m.cy]
    else 0
  }

  /** What one visit adds to `vert_value` for a strand starting in column sx. */
  function VStep(primes: seq<int>, sx: nat, v: Visit): int {
    var m := v.move;
    var i := VertIndex(sx, m.cx);
    if Counts(m) && m.next == Some(Down) && i < |primes| then primes[i]
    else if Counts(m) && m.next == Some(Up) && i < |primes| then -primes[i]
    else 0
  }

  /** The sum the horizontal continue steps of a path add to `value`. */
  function HDelta(primes: seq<int>, path: seq<Visit>): int {
    if |path| == 0 then 0 else HStep(primes, path[0]) + HDelta(primes, path[1..])
  }

  /** The sum the vertical continue steps of a path add to `vert_value`. */
  function VDelta(primes: seq<int>, sx: nat, path: seq<Visit>): int {
    if |path| == 0 then 0 else VStep(primes, sx, path[0]) + VDelta(primes, sx, path[1..])
  }

  /** A sum as the source keeps it: untouched (possibly None) until the first
      continue step, then the old value (None read as 0) plus the path's delta. */
  function Summed(before: Option<int>, path: seq<Visit>, delta: int): Option<int> {
    if Counted(path) then Some(before.GetOr(0) + delta) else before
  }

  lemma {:induction false} NoCountNoDelta(primes: seq<int>, sx: nat, path: seq<Visit>)
    requires !Counted(path)
    ensures HDelta(primes, path) == 0 && VDelta(primes, sx, path) == 0
  {
    if |path| > 0 {
      assert !Counts(path[0].move);
      forall i | 0 <= i < |path[1..]| ensures !Counts(path[1..][i].move) {
        assert path[1..][i] == path[i + 1];
      }
      NoCountNoDelta(primes, sx, path[1..]);
    }
  }

  lemma CountedCons(path: seq<Visit>)
    requires |path| > 0
    ensures Counted(path) <==> Counts(path[0].move) || Counted(path[1..])
  {
    if Counted(path[1..]) {
      var i :| 0 <= i < |path[1..]| && Counts(path[1..][i].move);
      assert path[i + 1] == path[1..][i];
    }
    if Counted(path) && !Counts(path[0].move) {
      var i :| 0 <= i < |path| && Counts(path[i].move);
      assert i > 0 && path[1..][i - 1] == path[i];
    }
  }

  /** The sums after one cell, for the visit v made there. */
  lemma StepSumsDelta(primes: seq<int>, s: Strand, v: Visit)
    requires StepSums(primes, s, v.move).Ok?
    ensures var s1 := StepSums(primes, s, v.move).value;
            SameOrigin(s1, s) &&
            (Counts(v.move) ==> s1.value == Some(s.value.GetOr(0) + HStep(primes, v)) &&
                                s1.vertValue == Some(s.vertValue.GetOr(0) + VStep(primes, s.x, v))) &&
            (!Counts(v.move) ==> s1 == s && HStep(primes, v) == 0 && VStep(primes, s.x, v) == 0)
  {
  }

  /** The `value` of a value strand after a replay is its start value plus the
      horizontal delta of the path; `_mark_end` keeps it. */
  lemma {:induction false} ReplayValue(cmds: CommandMap, primes: seq<int>, s: Strand, path: seq<Visit>)
    requires |path| > 0 && Replay(cmds, primes, s, path).Ok?
    requires s.kind == Data && Replay(cmds, primes, s, path).value.subtype == ValueStrand
    ensures Replay(cmds, primes, s, path).value.value == Summed(s.value, path, HDelta(primes, path))
    decreases |path|
  {
    var v := path[0];
    StepSumsDelta(primes, s, v);
    var s1 := StepSums(primes, s, v.move).value;
    CountedCons(path);
    if |path| > 1 {
      ReplayValue(cmds, primes, s1, path[1..]);
      if !Counted(path[1..]) { NoCountNoDelta(primes, s.x, path[1..]); }
    } else {
      assert path[1..] == [];
    }
  }

  /** The `vert_value` of an action strand after a replay is its start value plus
      the vertical delta of the path; `_mark_end` keeps it. */
  lemma {:induction false} ReplayVertValue(cmds: CommandMap, primes: seq<int>, s: Strand, path: seq<Visit>)
    requires |path| > 0 && Replay(cmds, primes, s, path).Ok?
    requires s.kind == Action
    ensures Replay(cmds, primes, s, path).value.vertValue == Summed(s.vertValue, path, VDelta(primes, s.x, path))
    decreases |path|
  {
    var v := path[0];
    StepSumsDelta(primes, s, v);
    var s1 := StepSums(primes, s, v.move).value;
    CountedCons(path);
    if |path| > 1 {
      ReplayVertValue(cmds, primes, s1, path[1..]);
      if !Counted(path[1..]) { NoCountNoDelta(primes, s.x, path[1..]); }
    } else {
      assert path[1..] == [];
    }
  }

  /**
   * The prime sums of a traced strand are the sums over the cells it walked: a
   * value strand's `value` is its horizontal delta, an action strand's
   * `vert_value` its vertical delta (each `None` if no continue step was counted).
   */
  lemma TraceSums(lex: Lexicon, cmds: CommandMap, primes: seq<int>, g: Grid,
                  px: nat, py: nat, pdir: Dir, s: Strand, fuel: nat)
    requires Rect(g) && InGrid(g, px, py)
    requires Interpret(lex, cmds, primes, g, px, py, pdir, s, fuel).Ok?
    ensures Walk(lex, g, px, py, pdir, fuel).Ok?
    ensures var t := Interpret(lex, cmds, primes, g, px, py, pdir, s, fuel).value;
            var path := Walk(lex, g, px, py, pdir, fuel).value;
            (s.kind == Data && t.subtype == ValueStrand ==> t.value == Summed(s.value, path, HDelta(primes, path))) &&
            (s.kind == Action ==> t.vertValue == Summed(s.vertValue, path, VDelta(primes, s.x, path)))
  {
    InterpretReplays(lex, cmds, primes, g, px, py, pdir, s, fuel);
    var path := Walk(lex, g, px, py, pdir, fuel).value;
    if s.kind == Data && Interpret(lex, cmds, primes, g, px, py, pdir, s, fuel).value.subtype == ValueStrand {
      ReplayValue(cmds, primes, s, path);
    }
    if s.kind == Action {
      ReplayVertValue(cmds, primes, s, path);
    }
  }

  /** The number of counted continue steps leaving in direction d. */
  function StepsToward(path: seq<Visit>, d: Dir): nat {
    if |path| == 0 then 0
    else (if Counts(path[0].move) && path[0].move.next == Some(d) then 1 else 0) + StepsToward(path[1..], d)
  }

  /**
   * A strand whose horizontal steps all run along row y: its horizontal delta is
   * `primes[y]` times (steps right − steps left). So L steps rightward give
   * `primes[y] * L`, L leftward `-primes[y] * L`, and no net horizontal movement 0.
   */
  lemma {:induction false} HDeltaOneRow(primes: seq<int>, path: seq<Visit>, y: nat)
    requires y < |primes|
    requires forall i :: 0 <= i < |path| && Counts(path[i].move) && IsHorizontal(path[i].move.next.value) ==>
               path[i].move.cy == y
    ensures HDelta(primes, path) == primes[y] * (StepsToward(path, Right) - StepsToward(path, Left))
  {
    if |path| > 0 {
      var tail := path[1..];
      assert forall i :: 0 <= i < |tail| ==> tail[i] == path[i + 1];
      HDeltaOneRow(primes, tail, y);
      var p := primes[y];
      var a: int := StepsToward(tail, Right);
      var b: int := StepsToward(tail, Left);
      var m := path[0].move;
      assert HDelta(primes, path) == HStep(primes, path[0]) + p * (a - b);
      if Counts(m) && m.next == Some(Right) {
        assert HStep(primes, path[0]) == p;
        OneMore(p, a, b);
      } else if Counts(m) && m.next == Some(Left) {
        assert HStep(primes, path[0]) == -p;
        OneMore(p, b, a);
      }
    }
  }

  /** One more step one way moves the product by one factor. */
  lemma OneMore(p: int, a: int, b: int)
    ensures p + p * (a - b) == p * ((a + 1) - b)
    ensures -p + p * (b - a) == p * (b - (a + 1))
  {
  }

  // -------------------------------------------------------------- a glyph

  /** Fuel for one strand: a walk state is a cell and a heading, so a walk longer
      than that number of states has entered a cycle. */
  function StrandFuel(g: Grid): nat {
    4 * |g| * MaxWidth(g) + 1
  }

  /** Every start lies in the grid. */
  predicate StartsIn(g: Grid, starts: seq<Strand>) {
    forall i :: 0 <= i < |starts| ==> InGrid(g, starts[i].x, starts[i].y)
  }

  /** The `for s in strand_starts` loop of `_lex_glyph`: trace each start in
      order; the first trace that raises aborts the glyph. */
  function TraceAll(lex: Lexicon, cmds: CommandMap, primes: seq<int>, g: Grid, starts: seq<Strand>, fuel: nat): (r: Result<seq<Strand>, Error>)
    requires Rect(g) && StartsIn(g, starts)
    ensures r.Ok? ==> |r.value| == |starts|
  {
    if |starts| == 0 then Ok([])
    else
      var t :- Trace(lex, cmds, primes, g, starts[0], fuel);
      assert StartsIn(g, starts[1..]) by {
        assert forall i :: 0 <= i < |starts[1..]| ==> starts[1..][i] == starts[i + 1];
      }
      var rest :- TraceAll(lex, cmds, primes, g, starts[1..], fuel);
      Ok([t] + rest)
  }

  lemma TailAt<T>(all: seq<T>, rest: seq<T>, i: nat)
    requires 0 < i < |all| && all[1..] == rest
    ensures all[i] == rest[i - 1]
  {
  }

  /** TraceAll succeeds exactly when every start traces, and then holds the
      traced strands in the order of their starts. */
  lemma {:induction false} TraceAllExact(lex: Lexicon, cmds: CommandMap, primes: seq<int>, g: Grid,
                                         starts: seq<Strand>, fuel: nat)
    requires Rect(g) && StartsIn(g, starts)
    ensures var r := TraceAll(lex, cmds, primes, g, starts, fuel);
            (r.Ok? <==> forall i :: 0 <= i < |starts| ==> Trace(lex, cmds, primes, g, starts[i], fuel).Ok?) &&
            (r.Ok? ==> forall i :: 0 <= i < |starts| ==> Trace(lex, cmds, primes, g, starts[i], fuel) == Ok(r.value[i]))
  {
    if |starts| > 0 {
      var tail := starts[1..];
      assert forall i :: 0 <= i < |tail| ==> tail[i] == starts[i + 1];
      TraceAllExact(lex, cmds, primes, g, tail, fuel);
      var r := TraceAll(lex, cmds, primes, g, starts, fuel);
      if r.Ok? {
        var rest := TraceAll(lex, cmds, primes, g, tail, fuel).value;
        var all := [Trace(lex, cmds, primes, g, starts[0], fuel).value] + rest;
        assert r.value == all;
        forall i | 0 <= i < |starts|
          ensures Trace(lex, cmds, primes, g, starts[i], fuel) == Ok(all[i])
        {
          if i > 0 { TailAt(all, rest, i); }
        }
      }
    }
  }

  /** `_lex_glyph`: pad the glyph to a rectangle, find its strand starts and trace each. */
  function Lex(lex: Lexicon, cmds: CommandMap, primes: seq<int>, g: Grid): (r: Result<seq<Strand>, Error>)
  {
    if |g| == 0 then Err(PythonErr(ValueError("max() arg is an empty sequence")))
    else
      var pg := Pad(g);
      var starts :- StrandStarts(lex, pg);
      StrandStartsExact(lex, pg);
      TraceAll(lex, cmds, primes, pg, starts, StrandFuel(pg))
  }

  /** A strand `_lex_glyph` returns: it begins at a start `_check_is_start`
      accepts and ends classified. */
  predicate LexedFrom(lex: Lexicon, pg: Grid, t: Strand)
    requires Rect(pg)
  {
    InGrid(pg, t.x, t.y) && Classified(t) &&
    CheckIsStart(lex, pg, t.x, t.y).Ok? && CheckIsStart(lex, pg, t.x, t.y).value.Some? &&
    SameOrigin(t, CheckIsStart(lex, pg, t.x, t.y).value.value)
  }

  /** Every strand `_lex_glyph` returns begins at a distinct cell, in row-major
      order, is traced from a start `_check_is_start` accepts, and is classified;
      there is one per accepting cell. */
  lemma LexedStrands(lex: Lexicon, cmds: CommandMap, primes: seq<int>, g: Grid)
    requires Lex(lex, cmds, primes, g).Ok?
    ensures |g| > 0 && StrandStarts(lex, Pad(g)).Ok?
    ensures var ts := Lex(lex, cmds, primes, g).value;
            RowMajor(ts) && |ts| == |StrandStarts(lex, Pad(g)).value| &&
            forall i :: 0 <= i < |ts| ==> LexedFrom(lex, Pad(g), ts[i])
  {
    var pg := Pad(g);
    StrandStartsExact(lex, pg);
    var starts := StrandStarts(lex, pg).value;
    var fuel := StrandFuel(pg);
    TraceAllExact(lex, cmds, primes, pg, starts, fuel);
    var ts := Lex(lex, cmds, primes, g).value;
    assert ts == TraceAll(lex, cmds, primes, pg, starts, fuel).value;
    forall i | 0 <= i < |ts|
      ensures SameOrigin(ts[i], starts[i]) && LexedFrom(lex, pg, ts[i])
    {
      TracedStart(lex, cmds, primes, pg, starts[i], fuel, ts[i]);
    }
    RowMajorKept(starts, ts);
  }

  /** Strands with the origins of a row-major sequence, in the same order, are row-major. */
  lemma RowMajorKept(ss: seq<Strand>, ts: seq<Strand>)
    requires RowMajor(ss) && |ts| == |ss|
    requires forall i :: 0 <= i < |ts| ==> SameOrigin(ts[i], ss[i])
    ensures RowMajor(ts)
  {
    forall i, j | 0 <= i < j < |ts|
      ensures Before(ts[i], ts[j])
    {
      assert Before(ss[i], ss[j]);
    }
  }

  /** A strand traced from a start `_check_is_start` accepted keeps that start
      and ends classified. */
  lemma TracedStart(lex: Lexicon, cmds: CommandMap, primes: seq<int>, pg: Grid, s: Strand, fuel: nat, t: Strand)
    requires Rect(pg) && InGrid(pg, s.x, s.y) && CheckIsStart(lex, pg, s.x, s.y) == Ok(Some(s)) && Untraced(s)
    requires Trace(lex, cmds, primes, pg, s, fuel) == Ok(t)
    ensures SameOrigin(t, s) && LexedFrom(lex, pg, t)
  {
    InterpretClassified(lex, cmds, primes, pg, s.x, s.y, s.dir, s, fuel);
  }
}
