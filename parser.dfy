/**
 * The `Parser` object of `riv_parser.py`: the lexicon and command table it is
 * built with, the prime table it loads, and the loops of its methods, each
 * proved to compute what the pure functions of the other modules
 * describe.
 */
module RivParser {
  import opened Wrappers
  import opened Symbols
  import opened Grids
  import opened Tokens
  import opened Lexer
  import opened Primes
  import opened Locator
  import opened Extract
  import opened Organizer
  import opened Lines

  // ------------------------------------------- an error aborts a left fold

  // Each fold below is a left fold over a sequence: a one-step lemma says an
  // error on all but the last element is the error of the whole, and the
  // "Stops" lemma extends that to any prefix.

  lemma ScanRowStep(checks: seq<Check>)
    requires |checks| > 0 && ScanRow(checks[..|checks| - 1]).Err?
    ensures ScanRow(checks) == ScanRow(checks[..|checks| - 1])
  {
  }

  lemma {:induction false} ScanRowStops(checks: seq<Check>, k: nat)
    requires k <= |checks| && ScanRow(checks[..k]).Err?
    ensures ScanRow(checks) == ScanRow(checks[..k])
  {
    if k < |checks| {
      var pre := checks[..|checks| - 1];
      assert pre[..k] == checks[..k];
      ScanRowStops(pre, k);
      ScanRowStep(checks);
    } else {
      assert checks[..k] == checks;
    }
  }

  lemma ScanRowsStep(rows: seq<seq<Check>>)
    requires |rows| > 0 && ScanRows(rows[..|rows| - 1]).Err?
    ensures ScanRows(rows) == ScanRows(rows[..|rows| - 1])
  {
  }

  lemma {:induction false} ScanRowsStops(rows: seq<seq<Check>>, k: nat)
    requires k <= |rows| && ScanRows(rows[..k]).Err?
    ensures ScanRows(rows) == ScanRows(rows[..k])
  {
    if k < |rows| {
      var pre := rows[..|rows| - 1];
      assert pre[..k] == rows[..k];
      ScanRowsStops(pre, k);
      ScanRowsStep(rows);
    } else {
      assert rows[..k] == rows;
    }
  }

  lemma MatchStartsStep(g: Grid, starts: seq<StartMark>, ends: seq<Point>)
    requires |starts| > 0 && MatchStarts(g, starts[..|starts| - 1], ends).Err?
    ensures MatchStarts(g, starts, ends) == MatchStarts(g, starts[..|starts| - 1], ends)
  {
  }

  lemma {:induction false} MatchStartsStops(g: Grid, starts: seq<StartMark>, ends: seq<Point>, k: nat)
    requires k <= |starts| && MatchStarts(g, starts[..k], ends).Err?
    ensures MatchStarts(g, starts, ends) == MatchStarts(g, starts[..k], ends)
  {
    if k < |starts| {
      var pre := starts[..|starts| - 1];
      assert pre[..k] == starts[..k];
      MatchStartsStops(g, pre, ends, k);
      MatchStartsStep(g, starts, ends);
    } else {
      assert starts[..k] == starts;
    }
  }

  lemma PrepareAllStep(program: Grid, locs: seq<GlyphLoc>)
    requires |locs| > 0 && PrepareAll(program, locs[..|locs| - 1]).Err?
    ensures PrepareAll(program, locs) == PrepareAll(program, locs[..|locs| - 1])
  {
  }

  lemma {:induction false} PrepareAllStops(program: Grid, locs: seq<GlyphLoc>, k: nat)
    requires k <= |locs| && PrepareAll(program, locs[..k]).Err?
    ensures PrepareAll(program, locs) == PrepareAll(program, locs[..k])
  {
    if k < |locs| {
      var pre := locs[..|locs| - 1];
      assert pre[..k] == locs[..k];
      PrepareAllStops(program, pre, k);
      PrepareAllStep(program, locs);
    } else {
      assert locs[..k] == locs;
    }
  }

  lemma NumberDataStep(primes: seq<nat>, ds: seq<Strand>)
    requires |ds| > 0 && NumberData(primes, ds[..|ds| - 1]).Err?
    ensures NumberData(primes, ds) == NumberData(primes, ds[..|ds| - 1])
  {
  }

  lemma {:induction false} NumberDataStops(primes: seq<nat>, ds: seq<Strand>, k: nat)
    requires k <= |ds| && NumberData(primes, ds[..k]).Err?
    ensures NumberData(primes, ds) == NumberData(primes, ds[..k])
  {
    if k < |ds| {
      var pre := ds[..|ds| - 1];
      assert pre[..k] == ds[..k];
      NumberDataStops(primes, pre, k);
      NumberDataStep(primes, ds);
    } else {
      assert ds[..k] == ds;
    }
  }

  lemma {:induction false} ResolveRefsStops(primes: seq<nat>, ts: seq<Token>, k: nat, m: nat)
    requires k <= m <= |ts| && ResolveRefs(primes, ts, k).Err?
    ensures ResolveRefs(primes, ts, m) == ResolveRefs(primes, ts, k)
    decreases m - k
  {
    if k < m {
      ResolveRefsStops(primes, ts, k, m - 1);
    }
  }

  lemma AttachAllStep(ts: seq<Token>, acts: seq<Strand>)
    requires |acts| > 0 && AttachAll(ts, acts[..|acts| - 1]).Err?
    ensures AttachAll(ts, acts) == AttachAll(ts, acts[..|acts| - 1])
  {
  }

  lemma {:induction false} AttachAllStops(ts: seq<Token>, acts: seq<Strand>, k: nat)
    requires k <= |acts| && AttachAll(ts, acts[..k]).Err?
    ensures AttachAll(ts, acts) == AttachAll(ts, acts[..k])
  {
    if k < |acts| {
      var pre := acts[..|acts| - 1];
      assert pre[..k] == acts[..k];
      AttachAllStops(ts, pre, k);
      AttachAllStep(ts, acts);
    } else {
      assert acts[..k] == acts;
    }
  }

  lemma ParseGlyphsStep(primes: seq<nat>, gs: seq<LexedGlyph>)
    requires |gs| > 0 && ParseGlyphs(primes, gs[..|gs| - 1]).Err?
    ensures ParseGlyphs(primes, gs) == ParseGlyphs(primes, gs[..|gs| - 1])
  {
  }

  lemma {:induction false} ParseGlyphsStops(primes: seq<nat>, gs: seq<LexedGlyph>, k: nat)
    requires k <= |gs| && ParseGlyphs(primes, gs[..k]).Err?
    ensures ParseGlyphs(primes, gs) == ParseGlyphs(primes, gs[..k])
  {
    if k < |gs| {
      var pre := gs[..|gs| - 1];
      assert pre[..k] == gs[..k];
      ParseGlyphsStops(primes, pre, k);
      ParseGlyphsStep(primes, gs);
    } else {
      assert gs[..k] == gs;
    }
  }

  /** One more check of a row: its error, or its strand (if any) appended. */
  lemma ScanRowSnoc(checks: seq<Check>, x: nat)
    requires x < |checks| && ScanRow(checks[..x]).Ok?
    ensures ScanRow(checks[..x + 1]) ==
            if checks[x].Err? then Err(checks[x].error)
            else if checks[x].value.Some? then Ok(ScanRow(checks[..x]).value + [checks[x].value.value])
            else ScanRow(checks[..x])
  {
    assert checks[..x + 1][..x] == checks[..x];
  }

  /** One accepted cell of ScanRowInto's loop: the accumulator stays `starts` followed by the row's strands so far. */
  lemma ScanRowAcc(checks: seq<Check>, x: nat, starts: seq<Strand>, acc: seq<Strand>)
    requires x < |checks| && checks[x].Ok? && ScanRow(checks[..x]).Ok? && acc == starts + ScanRow(checks[..x]).value
    ensures ScanRow(checks[..x + 1]).Ok?
    ensures (if checks[x].value.Some? then acc + [checks[x].value.value] else acc) == starts + ScanRow(checks[..x + 1]).value
  {
    ScanRowSnoc(checks, x);
    if checks[x].value.Some? {
      assert acc + [checks[x].value.value] == starts + (ScanRow(checks[..x]).value + [checks[x].value.value]);
    }
  }

  lemma StartsInTail(g: Grid, starts: seq<Strand>)
    requires |starts| > 0 && StartsIn(g, starts)
    ensures StartsIn(g, starts[1..])
  {
    assert forall i :: 0 <= i < |starts[1..]| ==> starts[1..][i] == starts[i + 1];
  }

  /** Tracing a non-empty list of starts: the first trace's error, or its strand
      in front of the rest. */
  lemma TraceAllCons(lex: Lexicon, cmds: CommandMap, primes: seq<int>, g: Grid, starts: seq<Strand>, fuel: nat)
    requires Rect(g) && |starts| > 0 && StartsIn(g, starts) && StartsIn(g, starts[1..])
    ensures var t := Trace(lex, cmds, primes, g, starts[0], fuel);
            TraceAll(lex, cmds, primes, g, starts, fuel) ==
            if t.Err? then Err(t.error) else Prefixed([t.value], TraceAll(lex, cmds, primes, g, starts[1..], fuel))
  {
  }

  /** One more candidate column of a row's Start markers. */
  lemma RowStartsSnoc(lex: Lexicon, g: Grid, sg: seq<char>, y: nat, xs: seq<nat>, k: nat)
    requires InRow(g, y, xs) && k < |xs|
    ensures RowStarts(lex, g, sg, y, xs[..k + 1]) ==
            RowStarts(lex, g, sg, y, xs[..k]) + (if StartAt(lex, g, sg, xs[k], y) then [MarkAt(g, sg, xs[k], y)] else [])
  {
    assert xs[..k + 1][..k] == xs[..k];
  }

  /** One more candidate column of a row's End markers. */
  lemma RowEndsSnoc(lex: Lexicon, g: Grid, y: nat, xs: seq<nat>, k: nat)
    requires InRow(g, y, xs) && k < |xs|
    ensures RowEnds(lex, g, y, xs[..k + 1]) ==
            RowEnds(lex, g, y, xs[..k]) + (if EndAt(lex, g, xs[k], y) then [Point(xs[k], y)] else [])
  {
    assert xs[..k + 1][..k] == xs[..k];
  }

  /** One more start to pair, given the pairing of the ones before it. */
  lemma MatchStartsSnoc(g: Grid, starts: seq<StartMark>, ends: seq<Point>, i: nat, p: Pairing)
    requires i < |starts| && MatchStarts(g, starts[..i], ends) == Ok(p)
    ensures var s := starts[i];
            MatchStarts(g, starts[..i + 1], ends) ==
            match FirstFit(g, Leftover(ends, p.used), s)
            case None => Err(SyntaxErr(NoMatchingEnd(s.x, s.y)))
            case Some(e) => Ok(Pairing(p.locs + [GlyphLoc(Point(s.x, s.y), e, s.level)], p.used + [e]))
  {
    assert starts[..i + 1][..i] == starts[..i];
  }

  /** Blanking cell i of a row whose first i cells are blanked already. */
  lemma BlankOneMore(row: seq<char>, i: nat)
    requires i < |row|
    ensures (Spaces(i) + row[i..])[i := ' '] == Spaces(i + 1) + row[i + 1..]
  {
    assert Spaces(i + 1) == Spaces(i) + [' '];
  }

  /** One more data strand to number, given the tokens of the ones before it. */
  lemma NumberDataSnoc(primes: seq<nat>, ds: seq<Strand>, i: nat, out: seq<Token>)
    requires i < |ds| && NumberData(primes, ds[..i]) == Ok(out)
    ensures NumberData(primes, ds[..i + 1]) ==
            if ds[i].y >= |primes| then Err(PythonErr(IndexError("list index out of range")))
            else Ok(out + [Bare(ds[i], i).(list := Some(primes[ds[i].y] as int), cell := Some(RowCount(ds[..i], ds[i].y)))])
  {
    assert ds[..i + 1][..i] == ds[..i];
  }

  /** One more strand of a row count. */
  lemma RowCountSnoc(ds: seq<Strand>, i: nat, y: nat)
    requires i < |ds|
    ensures RowCount(ds[..i + 1], y) == RowCount(ds[..i], y) + (if ds[i].y == y then 1 else 0)
  {
    assert ds[..i + 1][..i] == ds[..i];
  }

  /** One more action strand: the counter pair and the attachment. */
  lemma AttachAllSnoc(ts: seq<Token>, acts: seq<Strand>, i: nat, cur: seq<Token>)
    requires i < |acts| && AttachAll(ts, acts[..i]) == Ok(cur)
    ensures AttachAll(ts, acts[..i + 1]) == AttachOne(cur, acts[i], XState(acts[..i + 1]).1)
    ensures XState(acts[..i + 1]) ==
            if acts[i].x == XState(acts[..i]).0 then (XState(acts[..i]).0, XState(acts[..i]).1 + 1) else (acts[i].x, 0)
  {
    assert acts[..i + 1][..i] == acts[..i];
  }

  /** One more glyph to organize, given the glyphs before it. */
  lemma ParseGlyphsSnoc(primes: seq<nat>, gs: seq<LexedGlyph>, i: nat, done: seq<ParsedGlyph>)
    requires i < |gs| && ParseGlyphs(primes, gs[..i]) == Ok(done)
    ensures ParseGlyphs(primes, gs[..i + 1]) ==
            match Organize(primes, gs[i].strands)
            case Err(e) => Err(e)
            case Ok(toks) => Ok(done + [ParsedGlyph(gs[i].level, gs[i].grid, toks)])
  {
    assert gs[..i + 1][..i] == gs[..i];
  }

  /** The ref cell of a token reads only the strands and cells around it. */
  lemma RefCellSame(primes: seq<nat>, a: seq<Token>, b: seq<Token>, t: Strand)
    requires SameCells(a, b)
    ensures RefCell(primes, a, t) == RefCell(primes, b, t)
  {
    if t.endAt.Some? {
      CellsLeftOfSame(a, b, t.endAt.value.y, t.endAt.value.x);
    }
  }

  /** One more token through the ref loop: a ref token takes the cell read from
      the tokens as they are, which holds the same cells as before the loop. */
  lemma ResolveRefsNext(primes: seq<nat>, ts: seq<Token>, k: nat, cur: seq<Token>)
    requires k < |ts| && ResolveRefs(primes, ts, k) == Ok(cur) && SameCells(cur, ts)
    ensures cur[k].strand == ts[k].strand
    ensures ts[k].strand.subtype != RefStrand ==> ResolveRefs(primes, ts, k + 1) == Ok(cur)
    ensures ts[k].strand.subtype == RefStrand ==>
              match RefCell(primes, cur, cur[k].strand)
              case Err(e) => ResolveRefs(primes, ts, k + 1) == Err(e)
              case Ok(rc) => ResolveRefs(primes, ts, k + 1) == Ok(cur[k := cur[k].(refCell := Some(rc))]) &&
                             SameCells(cur[k := cur[k].(refCell := Some(rc))], ts)
  {
    RefCellSame(primes, cur, ts, cur[k].strand);
  }

  /** The strand starts lie in the grid. */
  lemma StartsInGrid(lex: Lexicon, g: Grid)
    requires Rect(g) && StrandStarts(lex, g).Ok?
    ensures StartsIn(g, StrandStarts(lex, g).value)
  {
    StrandStartsExact(lex, g);
  }

  /** acc followed by the strands of r, or r's error. */
  function Prefixed(acc: seq<Strand>, r: Result<seq<Strand>, Error>): Result<seq<Strand>, Error> {
    if r.Err? then r else Ok(acc + r.value)
  }

  lemma PrefixedEmpty(r: Result<seq<Strand>, Error>)
    ensures Prefixed([], r) == r
  {
    if r.Ok? {
      assert [] + r.value == r.value;
    }
  }

  lemma PrefixedJoin(acc: seq<Strand>, t: Strand, r: Result<seq<Strand>, Error>)
    ensures Prefixed(acc, Prefixed([t], r)) == Prefixed(acc + [t], r)
  {
    if r.Ok? {
      assert acc + ([t] + r.value) == (acc + [t]) + r.value;
    }
  }

  // ------------------------------------------------------ a whole program

  /** What `_lex_glyph` does to one glyph's grid. */
  type GlyphLexer = Grid -> Result<seq<Strand>, Error>

  /** `_lex_glyph` against the parser's symbol, command and prime tables. */
  function LexWith(lex: Lexicon, cmds: CommandMap, primes: seq<nat>): GlyphLexer {
    g => Lex(lex, cmds, primes, g)
  }

  /** The `for glyph in glyphs` loop of `parse_program`: every glyph lexed in
      turn, its strands stored beside its level and grid; the first that raises
      aborts. */
  function LexAll(lexGlyph: GlyphLexer, gs: seq<Glyph>): (r: Result<seq<LexedGlyph>, Error>)
    ensures r.Ok? ==> |r.value| == |gs|
    // a pass that succeeds keeps each glyph's level and grid beside its strands
    ensures r.Ok? ==> forall i :: 0 <= i < |gs| ==> r.value[i].level == gs[i].level && r.value[i].grid == gs[i].grid
  {
    if |gs| == 0 then Ok([])
    else
      var n := |gs| - 1;
      var prev :- LexAll(lexGlyph, gs[..n]);
      var toks :- lexGlyph(gs[n].grid);
      Ok(prev + [LexedGlyph(gs[n].level, gs[n].grid, toks)])
  }

  lemma LexAllStep(lexGlyph: GlyphLexer, gs: seq<Glyph>)
    requires |gs| > 0 && LexAll(lexGlyph, gs[..|gs| - 1]).Err?
    ensures LexAll(lexGlyph, gs) == LexAll(lexGlyph, gs[..|gs| - 1])
  {
  }

  /** Once a glyph fails to lex, the pass fails as it did there. */
  lemma {:induction false} LexAllStops(lexGlyph: GlyphLexer, gs: seq<Glyph>, k: nat)
    requires k <= |gs| && LexAll(lexGlyph, gs[..k]).Err?
    ensures LexAll(lexGlyph, gs) == LexAll(lexGlyph, gs[..k])
  {
    if k < |gs| {
      var pre := gs[..|gs| - 1];
      assert pre[..k] == gs[..k];
      LexAllStops(lexGlyph, pre, k);
      LexAllStep(lexGlyph, gs);
    } else {
      assert gs[..k] == gs;
    }
  }

  /** One more glyph to lex, given the glyphs before it. */
  lemma LexAllSnoc(lexGlyph: GlyphLexer, gs: seq<Glyph>, i: nat, done: seq<LexedGlyph>)
    requires i < |gs| && LexAll(lexGlyph, gs[..i]) == Ok(done)
    ensures LexAll(lexGlyph, gs[..i + 1]) ==
            match lexGlyph(gs[i].grid)
            case Err(e) => Err(e)
            case Ok(toks) => Ok(done + [LexedGlyph(gs[i].level, gs[i].grid, toks)])
  {
    assert gs[..i + 1][..i] == gs[..i];
  }

  /** The program as `parse_program` cuts and trims it, ready to locate. */
  function Trimmed(text: string): Result<Grid, Error> {
    RemoveBlankLines(SplitLines(text))
  }

  /** The glyphs `parse_program` cuts out, or the error before they are cut. */
  function GlyphsOf(lex: Lexicon, text: string): Result<seq<Glyph>, Error> {
    var program :- Trimmed(text);
    var locs :- Locate(lex, program);
    if |locs| == 0 then Err(SyntaxErr(NoGlyphFound))
    else PrepareAll(program, locs)
  }

  /**
   * `parse_program`: split the text into rows, trim a blank first and last
   * row, locate the glyphs (none is an error), cut them out, load the prime
   * table for the largest, lex every glyph, then organize every glyph.
   */
  function Parse(lex: Lexicon, cmds: CommandMap, text: string): Result<seq<ParsedGlyph>, Error> {
    var glyphs :- GlyphsOf(lex, text);
    var count :- PrimeCount(glyphs);
    var primes := PrimeTable(count);
    var lexed :- LexAll(LexWith(lex, cmds, primes), glyphs);
    ParseGlyphs(primes, lexed)
  }

  /** Once the glyphs are located, the only error before lexing is that there
      are none: otherwise every located glyph cuts out, with its level and at
      least two rows, so the prime table loads. */
  lemma LocatedGlyphsCut(lex: Lexicon, text: string)
    requires Trimmed(text).Ok? && Locate(lex, Trimmed(text).value).Ok?
    ensures var locs := Locate(lex, Trimmed(text).value).value;
            (|locs| == 0 <==> GlyphsOf(lex, text) == Err(SyntaxErr(NoGlyphFound))) &&
            (|locs| > 0 ==> GlyphsOf(lex, text) == PrepareAll(Trimmed(text).value, locs))
    ensures var locs := Locate(lex, Trimmed(text).value).value;
            |locs| > 0 ==>
              GlyphsOf(lex, text).Ok? && |GlyphsOf(lex, text).value| == |locs| &&
              (forall i :: 0 <= i < |locs| ==>
                 GlyphsOf(lex, text).value[i].level == locs[i].level &&
                 |GlyphsOf(lex, text).value[i].grid| >= 2) &&
              PrimeCount(GlyphsOf(lex, text).value).Ok?
  {
    var program := Trimmed(text).value;
    var locs := Locate(lex, program).value;
    if |locs| > 0 {
      assert GlyphsOf(lex, text) == PrepareAll(program, locs);
      LocatePairs(lex, program);
      CutReady(lex, program, locs);
    }
  }

  /** Located glyphs cut into as many glyphs, with their levels and at least
      two rows each, so the prime table can be sized from them. */
  lemma CutReady(lex: Lexicon, g: Grid, locs: seq<GlyphLoc>)
    requires |locs| > 0 && forall i :: 0 <= i < |locs| ==> LocatedPair(lex, g, locs[i])
    ensures PrepareAll(g, locs).Ok? && |PrepareAll(g, locs).value| == |locs|
    ensures forall i :: 0 <= i < |locs| ==>
              PrepareAll(g, locs).value[i].level == locs[i].level && |PrepareAll(g, locs).value[i].grid| >= 2
    ensures PrimeCount(PrepareAll(g, locs).value).Ok?
  {
    PrepareLocated(lex, g, locs);
    var gs := PrepareAll(g, locs).value;
    assert forall i :: 0 <= i < |gs| ==> |gs[i].grid| > 0;
  }

  /** A parsed program holds one parsed glyph per cut glyph, in order, each
      with that glyph's level and grid. */
  lemma ParseShape(lex: Lexicon, cmds: CommandMap, text: string)
    requires Parse(lex, cmds, text).Ok?
    ensures GlyphsOf(lex, text).Ok? && |Parse(lex, cmds, text).value| == |GlyphsOf(lex, text).value| > 0
    ensures forall i :: 0 <= i < |GlyphsOf(lex, text).value| ==>
              Parse(lex, cmds, text).value[i].level == GlyphsOf(lex, text).value[i].level &&
              Parse(lex, cmds, text).value[i].grid == GlyphsOf(lex, text).value[i].grid
  {
    var glyphs := GlyphsOf(lex, text).value;
    var primes := PrimeTable(PrimeCount(glyphs).value);
    var lexed := LexAll(LexWith(lex, cmds, primes), glyphs).value;
    ParseGlyphsExact(primes, lexed);
    var r := Parse(lex, cmds, text).value;
    assert r == ParseGlyphs(primes, lexed).value;
    forall i | 0 <= i < |glyphs| ensures r[i].level == glyphs[i].level && r[i].grid == glyphs[i].grid {
      assert OrganizedAs(primes, lexed[i], r[i]);
    }
  }

  /** `self.primes` after `parse_program` when it was `before`: untouched if the
      program fails before the table is loaded, `[1]` if loading it fails, and
      the table for the largest glyph otherwise. */
  function PrimesAfter(lex: Lexicon, text: string, before: seq<nat>): seq<nat> {
    match GlyphsOf(lex, text)
    case Err(_) => before
    case Ok(glyphs) =>
      match PrimeCount(glyphs)
      case Err(_) => [1]
      case Ok(count) => PrimeTable(count)
  }

  // ------------------------------------------------------------ the parser

  class Parser {
    /** The symbol table `_lexicon.json` holds. */
    const lexicon: Lexicon
    /** The command table `_commands.json` holds. */
    const commands: CommandMap
    /** `self.primes`: empty until `_load_primes` fills it. */
    var primes: seq<nat>

    /** `__init__`, with the two tables passed in rather than read from files. */
    constructor (lexicon: Lexicon, commands: CommandMap)
      ensures this.lexicon == lexicon && this.commands == commands && primes == []
    {
      this.lexicon := lexicon;
      this.commands := commands;
      primes := [];
    }

    /**
     * `_load_primes`: reset the table to `[1]`, take the largest glyph
     * dimension (an error for no glyphs or a glyph with no rows, the table
     * left at `[1]`), then append every number from 2 below its square that
     * passes trial division, stopping once the table holds that many entries.
     */
    method LoadPrimes(glyphs: seq<Glyph>) returns (r: Option<Error>)
      modifies this
      ensures PrimeCount(glyphs).Err? ==> r == Some(PrimeCount(glyphs).error) && primes == [1]
      ensures PrimeCount(glyphs).Ok? ==> r.None? && primes == PrimeTable(PrimeCount(glyphs).value)
    {
      primes := [1];
      var c := PrimeCount(glyphs);
      if c.Err? {
        return Some(c.error);
      }
      var count := c.value;
      var limit: int := count * count;
      var num: int := 2;
      while num < limit
        invariant 2 <= num
        invariant Sieve(num, limit, count, primes) == PrimeTable(count)
        decreases limit - num
      {
        if PassesTrial(num) {
          primes := primes + [num];
          if |primes| >= count {
            break;
          }
        }
        num := num + 1;
      }
      return None;
    }

    /** The inner loop of `_find_strand_starts` for row y: check its cells left
        to right, appending each strand that starts there to `starts`. */
    method ScanRowInto(g: Grid, y: nat, starts: seq<Strand>) returns (r: Result<seq<Strand>, Error>)
      requires Rect(g) && y < |g|
      ensures r == Prefixed(starts, ScanRow(RowChecks(lexicon, g, y)))
    {
      ghost var checks := RowChecks(lexicon, g, y);
      var acc := starts;
      var x := 0;
      while x < |g[y]|
        invariant x <= |g[y]|
        invariant ScanRow(checks[..x]).Ok? && acc == starts + ScanRow(checks[..x]).value
      {
        var token := CheckIsStart(lexicon, g, x, y);
        assert token == checks[x];
        if token.Err? {
          ScanRowSnoc(checks, x);
          ScanRowStops(checks, x + 1);
          return Err(token.error);
        }
        ScanRowAcc(checks, x, starts, acc);
        if token.value.Some? {
          acc := acc + [token.value.value];
        }
        x := x + 1;
      }
      assert checks[..x] == checks;
      return Ok(acc);
    }

    /** The level of a Start at column x of ln: 1, plus one for every Start
        symbol met walking left from x - 1 until the first that is not one. */
    method StartLevel(ln: seq<char>, x: nat, sg: seq<char>) returns (level: nat)
      requires x < |ln|
      ensures level == 1 + RunLeft(ln, x, sg)
    {
      level := 1;
      if x > 0 && ln[x - 1] in sg {
        var i := x;
        while i > 0
          invariant i <= x && level == 1 + (x - i)
          invariant RunLeft(ln, x, sg) == (x - i) + RunLeft(ln, i, sg)
        {
          if ln[i - 1] in sg {
            level := level + 1;
            i := i - 1;
          } else {
            break;
          }
        }
      }
    }

    /** The first loop over row y of `_locate_glyphs`: each Start symbol that is
        a Start marker is appended to `starts` with its level. */
    method RowStartsInto(g: Grid, sg: seq<char>, y: nat, starts: seq<StartMark>) returns (r: seq<StartMark>)
      requires y < |g|
      ensures r == starts + RowStarts(lexicon, g, sg, y, CharsInList(sg, g[y]))
    {
      var xs := CharsInList(sg, g[y]);
      r := starts;
      var k := 0;
      while k < |xs|
        invariant k <= |xs|
        invariant r == starts + RowStarts(lexicon, g, sg, y, xs[..k])
      {
        var x := xs[k];
        RowStartsSnoc(lexicon, g, sg, y, xs, k);
        if x != |g[y]| - 1 && g[y][x + 1] !in sg &&
           !PointsBack(lexicon, g, x, y, Up) && !PointsBack(lexicon, g, x, y, Down) {
          var level := StartLevel(g[y], x, sg);
          r := r + [StartMark(x, y, level)];
        }
        k := k + 1;
      }
      assert xs[..k] == xs;
    }

    /** The second loop over row y of `_locate_glyphs`: each End symbol nothing
        continues into is appended to `ends`. */
    method RowEndsInto(g: Grid, eg: seq<char>, y: nat, ends: seq<Point>) returns (r: seq<Point>)
      requires y < |g|
      ensures r == ends + RowEnds(lexicon, g, y, CharsInList(eg, g[y]))
    {
      var xs := CharsInList(eg, g[y]);
      r := ends;
      var k := 0;
      while k < |xs|
        invariant k <= |xs|
        invariant r == ends + RowEnds(lexicon, g, y, xs[..k])
      {
        var x := xs[k];
        RowEndsSnoc(lexicon, g, y, xs, k);
        if !PointsBack(lexicon, g, x, y, Down) && !PointsBack(lexicon, g, x, y, Up) {
          r := r + [Point(x, y)];
        }
        k := k + 1;
      }
      assert xs[..k] == xs;
    }

    /** The inner loop of the pairing: the first unused end strictly right of
        and below s that closes its box. */
    method FindEnd(g: Grid, cands: seq<Point>, s: StartMark) returns (found: Option<Point>)
      ensures found == FirstFit(g, cands, s)
    {
      found := None;
      var j := 0;
      while j < |cands|
        invariant j <= |cands|
        invariant FirstFit(g, cands, s) == FirstFit(g, cands[j..], s)
      {
        var e := cands[j];
        assert cands[j..][0] == e && cands[j..][1..] == cands[j + 1..];
        if e.x <= s.x || e.y <= s.y {
          j := j + 1;
          continue;
        }
        if e.y < |g| && Fits(g, s, e) {
          found := Some(e);
          return;
        }
        j := j + 1;
      }
    }

    /** The row loop of `_locate_glyphs`: the Start markers (with their
        levels) and the End markers, row by row. */
    method CollectMarkers(g: Grid) returns (starts: seq<StartMark>, ends: seq<Point>)
      ensures starts == Starts(lexicon, g) && ends == Ends(lexicon, g)
    {
      var sg := SymbolsNamed(lexicon, "start_glyph");
      var eg := SymbolsNamed(lexicon, "end_glyph");
      starts := [];
      ends := [];
      var y := 0;
      while y < |g|
        invariant y <= |g|
        invariant starts == StartsUpTo(lexicon, g, sg, y)
        invariant ends == EndsUpTo(lexicon, g, eg, y)
      {
        starts := RowStartsInto(g, sg, y, starts);
        ends := RowEndsInto(g, eg, y, ends);
        StartsUpToNext(lexicon, g, sg, y);
        EndsUpToNext(lexicon, g, eg, y);
        y := y + 1;
      }
    }

    /** The `for s in starts` loop of `_locate_glyphs`: pair each start with
        the first unused end that closes its box; a start with none raises. */
    method PairStarts(g: Grid, starts: seq<StartMark>, ends: seq<Point>) returns (r: Result<Pairing, Error>)
      ensures r == MatchStarts(g, starts, ends)
    {
      var locs: seq<GlyphLoc> := [];
      var used: seq<Point> := [];
      var i := 0;
      assert starts[..0] == [];
      while i < |starts|
        invariant i <= |starts|
        invariant MatchStarts(g, starts[..i], ends) == Ok(Pairing(locs, used))
      {
        var s := starts[i];
        MatchStartsSnoc(g, starts, ends, i, Pairing(locs, used));
        var e := FindEnd(g, Leftover(ends, used), s);
        if e.None? {
          MatchStartsStops(g, starts, ends, i + 1);
          return Err(SyntaxErr(NoMatchingEnd(s.x, s.y)));
        }
        locs := locs + [GlyphLoc(Point(s.x, s.y), e.value, s.level)];
        used := used + [e.value];
        i := i + 1;
      }
      assert starts[..i] == starts;
      return Ok(Pairing(locs, used));
    }

    /**
     * `_locate_glyphs`: collect the markers, pair the starts, then raise if an
     * End was left unused.
     */
    method LocateGlyphs(g: Grid) returns (r: Result<seq<GlyphLoc>, Error>)
      ensures r == Locate(lexicon, g)
    {
      var starts, ends := CollectMarkers(g);
      var p :- PairStarts(g, starts, ends);
      var bad := CheckLeftover(ends, p.used);
      if bad.Some? {
        return Err(bad.value);
      }
      return Ok(p.locs);
    }

    /** `for i in range(0, level): glyph[0][i] = ' '`, cell by cell; the first
        assignment past the end of row 0 (or to a glyph with no rows) raises. */
    method BlankFirstRow(glyph: Grid, level: nat) returns (r: Result<Grid, Error>)
      ensures r == BlankStart(glyph, level)
    {
      if level == 0 {
        return Ok(glyph);
      }
      if |glyph| == 0 {
        return Err(PythonErr(IndexError("list assignment index out of range")));
      }
      var row := glyph[0];
      var i := 0;
      while i < level
        invariant i <= level && i <= |glyph[0]|
        invariant row == Spaces(i) + glyph[0][i..]
      {
        if |row| <= i {
          return Err(PythonErr(IndexError("list assignment index out of range")));
        }
        BlankOneMore(glyph[0], i);
        row := row[i := ' '];
        i := i + 1;
      }
      return Ok(glyph[0 := row]);
    }

    /** One pass of `_prepare_glyphs_for_lexing`: isolate the glyph, blank the
        first `level` cells of its first row, then its last cell. */
    method PrepareGlyph(program: Grid, loc: GlyphLoc) returns (r: Result<Glyph, Error>)
      ensures r == CutGlyph(program, loc)
    {
      var iso := Isolate(program, loc);
      var glyph :- BlankFirstRow(iso, loc.level);
      glyph :- BlankLastCell(glyph);
      return Ok(Glyph(loc.level, glyph));
    }

    /** `glyph[-1][-1] = ' '`: an IndexError when there is no last row or it is empty. */
    method BlankLastCell(glyph: Grid) returns (r: Result<Grid, Error>)
      ensures r == BlankEnd(glyph)
    {
      if |glyph| == 0 || |glyph[|glyph| - 1]| == 0 {
        return Err(PythonErr(IndexError("list index out of range")));
      }
      var n := |glyph| - 1;
      return Ok(glyph[n := glyph[n][|glyph[n]| - 1 := ' ']]);
    }

    /** `_prepare_glyphs_for_lexing`: the glyph of each location in turn. */
    method PrepareGlyphs(program: Grid, locs: seq<GlyphLoc>) returns (r: Result<seq<Glyph>, Error>)
      ensures r == PrepareAll(program, locs)
    {
      var tree: seq<Glyph> := [];
      var i := 0;
      assert locs[..0] == [];
      while i < |locs|
        invariant i <= |locs|
        invariant PrepareAll(program, locs[..i]) == Ok(tree)
      {
        assert locs[..i + 1][..i] == locs[..i];
        var gl := PrepareGlyph(program, locs[i]);
        if gl.Err? {
          PrepareAllStops(program, locs, i + 1);
          return Err(gl.error);
        }
        tree := tree + [gl.value];
        i := i + 1;
      }
      assert locs[..i] == locs;
      return Ok(tree);
    }

    /**
     * The data loop of `_parse_glyphs`, over the data strands in (x, y) order:
     * `count_per_list` starts at 0 for every row with a prime; each strand gets
     * its row's prime as `list` (an IndexError past the table), its position as
     * `order` and its row's count so far as `assign_to_cell`.
     */
    method NumberDataTokens(ds: seq<Strand>) returns (r: Result<seq<Token>, Error>)
      ensures r == NumberData(primes, ds)
    {
      var countPerList: map<nat, nat> := map[];
      var idx := 0;
      while idx < |primes|
        invariant idx <= |primes|
        invariant forall y: nat :: y in countPerList <==> y < idx
        invariant forall y :: y in countPerList ==> countPerList[y] == 0
      {
        countPerList := countPerList[idx := 0];
        idx := idx + 1;
      }
      var sorted: seq<Token> := [];
      var order := 0;
      assert ds[..0] == [];
      while order < |ds|
        invariant order <= |ds|
        invariant NumberData(primes, ds[..order]) == Ok(sorted)
        invariant forall y: nat :: y in countPerList <==> y < |primes|
        invariant forall y :: y in countPerList ==> countPerList[y] == RowCount(ds[..order], y)
      {
        var t := ds[order];
        NumberDataSnoc(primes, ds, order, sorted);
        if t.y >= |primes| {
          NumberDataStops(primes, ds, order + 1);
          return Err(PythonErr(IndexError("list index out of range")));
        }
        var token := Bare(t, order).(list := Some(primes[t.y] as int), cell := Some(countPerList[t.y]));
        forall y | y in countPerList ensures RowCount(ds[..order + 1], y) == RowCount(ds[..order], y) + (if t.y == y then 1 else 0) {
          RowCountSnoc(ds, order, y);
        }
        countPerList := countPerList[t.y := countPerList[t.y] + 1];
        sorted := sorted + [token];
        order := order + 1;
      }
      assert ds[..order] == ds;
      return Ok(sorted);
    }

    /** The question-marker loop of `_parse_glyphs`: the first marker is
        appended after the data tokens; the second must start where the first
        ends and becomes its `second`; a third raises. */
    method PlaceMarkers(qs: seq<Strand>, order: nat) returns (r: Result<seq<Token>, Error>)
      ensures r == Markers(qs, order)
    {
      var out: seq<Token> := [];
      var idx := 0;
      while idx < |qs|
        invariant idx <= |qs| && idx <= 2
        invariant idx == 0 ==> out == []
        invariant idx == 1 ==> out == [Bare(qs[0].(subtype := FirstMarker), order)]
        invariant idx == 2 ==> qs[0].endAt == Some(Point(qs[1].x, qs[1].y)) &&
                               out == [Bare(qs[0].(subtype := FirstMarker), order).(second := Some(qs[1].(subtype := SecondMarker)))]
      {
        if idx == 0 {
          out := [Bare(qs[0].(subtype := FirstMarker), order)];
        } else if idx == 1 {
          var second := qs[1].(subtype := SecondMarker);
          var first := out[0];
          if first.strand.endAt.None? {
            return Err(PythonErr(KeyError("end_x")));
          }
          if first.strand.endAt.value != Point(second.x, second.y) {
            return Err(SyntaxErr(MisplacedSecondMarker));
          }
          out := [first.(second := Some(second))];
        } else {
          return Err(SyntaxErr(BadMarkerCount));
        }
        idx := idx + 1;
      }
      return Ok(out);
    }

    /** The ref loop of `_parse_glyphs`: every ref token, in turn, gets its
        `ref_cell`, read from the tokens as the loop leaves them. */
    method ResolveRefCells(ts: seq<Token>) returns (r: Result<seq<Token>, Error>)
      ensures r == ResolveRefs(primes, ts, |ts|)
    {
      var cur := ts;
      var k := 0;
      while k < |ts|
        invariant k <= |ts|
        invariant ResolveRefs(primes, ts, k) == Ok(cur) && SameCells(cur, ts)
      {
        ResolveRefsNext(primes, ts, k, cur);
        if cur[k].strand.subtype == RefStrand {
          var rc := RefCell(primes, cur, cur[k].strand);
          if rc.Err? {
            ResolveRefsStops(primes, ts, k + 1, |ts|);
            return Err(rc.error);
          }
          cur := cur[k := cur[k].(refCell := Some(rc.value))];
        }
        k := k + 1;
      }
      return Ok(cur);
    }

    /** The inner loop of the action loop: enumerate the data tokens of the
        action's column and attach the action to the xc-th. */
    method AttachTo(ts: seq<Token>, a: Strand, xc: nat) returns (r: Result<seq<Token>, Error>)
      ensures r == AttachOne(ts, a, xc)
    {
      var col := DataColumn(ts, a.x);
      r := Ok(ts);
      var idx := 0;
      while idx < |col|
        invariant idx <= |col|
        invariant r == if idx <= xc then Ok(ts) else AttachOne(ts, a, xc)
      {
        if xc == idx {
          var j := col[idx];
          var at := Choose(ts[j], a);
          if at.Err? {
            return Err(at.error);
          }
          r := Ok(ts[j := ts[j].(action := Some(at.value))]);
        }
        idx := idx + 1;
      }
    }

    /** The action loop of `_parse_glyphs`: `curr_x` and `x_count` pick, for
        each action strand in (x, y) order, the data token it attaches to. */
    method AttachActions(ts: seq<Token>, acts: seq<Strand>) returns (r: Result<seq<Token>, Error>)
      ensures r == AttachAll(ts, acts)
    {
      var cur := ts;
      var currX: nat := 0;
      var xCount: nat := 0;
      var i := 0;
      assert acts[..0] == [];
      while i < |acts|
        invariant i <= |acts|
        invariant AttachAll(ts, acts[..i]) == Ok(cur)
        invariant (currX, xCount) == XState(acts[..i])
      {
        var a := acts[i];
        AttachAllSnoc(ts, acts, i, cur);
        if a.x == currX {
          xCount := xCount + 1;
        } else {
          xCount := 0;
          currX := a.x;
        }
        var next := AttachTo(cur, a, xCount);
        if next.Err? {
          AttachAllStops(ts, acts, i + 1);
          return next;
        }
        cur := next.value;
        i := i + 1;
      }
      assert acts[..i] == acts;
      return Ok(cur);
    }

    /** `_parse_glyphs` for one glyph: the data tokens, then the markers, then
        the ref cells over both, then the actions. */
    method OrganizeGlyph(strands: seq<Strand>) returns (r: Result<seq<Token>, Error>)
      ensures r == Organize(primes, strands)
    {
      var data :- NumberDataTokens(DataInOrder(strands));
      var marks :- PlaceMarkers(MarkersInOrder(strands), |data|);
      var refs :- ResolveRefCells(data + marks);
      r := AttachActions(refs, ActionsInOrder(strands));
    }

    /** `_parse_glyphs`: organize each glyph in turn. */
    method ParseAll(gs: seq<LexedGlyph>) returns (r: Result<seq<ParsedGlyph>, Error>)
      ensures r == ParseGlyphs(primes, gs)
    {
      var done: seq<ParsedGlyph> := [];
      var i := 0;
      assert gs[..0] == [];
      while i < |gs|
        invariant i <= |gs|
        invariant ParseGlyphs(primes, gs[..i]) == Ok(done)
      {
        ParseGlyphsSnoc(primes, gs, i, done);
        var toks := OrganizeGlyph(gs[i].strands);
        if toks.Err? {
          ParseGlyphsStops(primes, gs, i + 1);
          return Err(toks.error);
        }
        done := done + [ParsedGlyph(gs[i].level, gs[i].grid, toks.value)];
        i := i + 1;
      }
      assert gs[..i] == gs;
      return Ok(done);
    }

    /** The lexing loop of `parse_program`: `_lex_glyph` on every glyph. */
    method LexGlyphs(gs: seq<Glyph>) returns (r: Result<seq<LexedGlyph>, Error>)
      ensures r == LexAll(LexWith(lexicon, commands, primes), gs)
    {
      var done: seq<LexedGlyph> := [];
      var i := 0;
      assert gs[..0] == [];
      while i < |gs|
        invariant i <= |gs|
        invariant LexAll(LexWith(lexicon, commands, primes), gs[..i]) == Ok(done)
      {
        LexAllSnoc(LexWith(lexicon, commands, primes), gs, i, done);
        var toks := LexGlyph(gs[i].grid);
        if toks.Err? {
          LexAllStops(LexWith(lexicon, commands, primes), gs, i + 1);
          return Err(toks.error);
        }
        done := done + [LexedGlyph(gs[i].level, gs[i].grid, toks.value)];
        i := i + 1;
      }
      assert gs[..i] == gs;
      return Ok(done);
    }

    /** The steps of `parse_program` up to cutting out the glyphs. */
    method CutGlyphs(text: string) returns (r: Result<seq<Glyph>, Error>)
      ensures r == GlyphsOf(lexicon, text)
    {
      var program :- RemoveBlankLines(SplitLines(text));
      var locs :- LocateGlyphs(program);
      if |locs| == 0 {
        return Err(SyntaxErr(NoGlyphFound));
      }
      r := PrepareGlyphs(program, locs);
    }

    /** `parse_program`: the glyphs of the program, each organized, and the
        prime table left as `PrimesAfter` describes. */
    method ParseProgram(text: string) returns (r: Result<seq<ParsedGlyph>, Error>)
      modifies this
      ensures r == Parse(lexicon, commands, text)
      ensures primes == PrimesAfter(lexicon, text, old(primes))
    {
      var glyphs :- CutGlyphs(text);
      var bad := LoadPrimes(glyphs);
      if bad.Some? {
        return Err(bad.value);
      }
      var lexed :- LexGlyphs(glyphs);
      r := ParseAll(lexed);
    }

    /** `_find_strand_starts`: check every cell, row by row, keeping the strands
        that start there; the first check that raises aborts. */
    method FindStrandStarts(g: Grid) returns (r: Result<seq<Strand>, Error>)
      requires Rect(g)
      ensures r == StrandStarts(lexicon, g)
    {
      ghost var rows := GridChecks(lexicon, g);
      var starts: seq<Strand> := [];
      var y := 0;
      while y < |g|
        invariant y <= |g|
        invariant ScanRows(rows[..y]) == Ok(starts)
      {
        assert rows[..y + 1][..y] == rows[..y] && rows[y] == RowChecks(lexicon, g, y);
        var next := ScanRowInto(g, y, starts);
        if next.Err? {
          ScanRowsStops(rows, y + 1);
          return next;
        }
        starts := next.value;
        y := y + 1;
      }
      assert rows[..y] == rows;
      return Ok(starts);
    }

    /** The `for s in starts` loop of `_lex_glyph`: trace each start in turn;
        the first trace that raises aborts. */
    method TraceStarts(pg: Grid, starts: seq<Strand>, fuel: nat) returns (r: Result<seq<Strand>, Error>)
      requires Rect(pg) && StartsIn(pg, starts)
      ensures r == TraceAll(lexicon, commands, primes, pg, starts, fuel)
    {
      ghost var whole := TraceAll(lexicon, commands, primes, pg, starts, fuel);
      var out: seq<Strand> := [];
      var i := 0;
      assert starts[i..] == starts;
      PrefixedEmpty(whole);
      while i < |starts|
        invariant i <= |starts| && StartsIn(pg, starts[i..])
        invariant Prefixed(out, TraceAll(lexicon, commands, primes, pg, starts[i..], fuel)) == whole
      {
        var rest := starts[i..];
        assert rest[0] == starts[i] && rest[1..] == starts[i + 1..];
        StartsInTail(pg, rest);
        TraceAllCons(lexicon, commands, primes, pg, rest, fuel);
        var t := Trace(lexicon, commands, primes, pg, starts[i], fuel);
        if t.Err? {
          return t.PropagateFailure();
        }
        PrefixedJoin(out, t.value, TraceAll(lexicon, commands, primes, pg, starts[i + 1..], fuel));
        out := out + [t.value];
        i := i + 1;
      }
      assert starts[i..] == [] && out + [] == out;
      return Ok(out);
    }

    /** `_lex_glyph`: pad the glyph to a rectangle (the longest row of no rows is
        a ValueError), find its strand starts and trace each in turn. */
    method LexGlyph(g: Grid) returns (r: Result<seq<Strand>, Error>)
      ensures r == Lex(lexicon, commands, primes, g)
    {
      if |g| == 0 {
        return Err(PythonErr(ValueError("max() arg is an empty sequence")));
      }
      var pg := Pad(g);
      var starts :- FindStrandStarts(pg);
      StartsInGrid(lexicon, pg);
      r := TraceStarts(pg, starts, StrandFuel(pg));
    }
  }
}
