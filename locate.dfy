/**
 * Glyph location (`_locate_glyphs`, `_chars_in_list`, `_has_continuation`): the
 * Start and End markers of a program, the nesting level of each Start, and the
 * greedy pairing of every Start with the first unused End that closes a box
 * with it.
 */
module Locator {
  import opened Wrappers
  import opened Symbols
  import opened Grids
  import opened Tokens
  import opened Lexer

  // ------------------------------------------------------------ marker cells

  /** `[i for i in range(n) if l2[i] == c]`: indices below n holding c. */
  function IndicesBelow(c: char, l2: seq<char>, n: nat): (r: seq<nat>)
    requires n <= |l2|
    ensures forall k :: 0 <= k < |r| ==> r[k] < n && l2[r[k]] == c
  {
    if n == 0 then []
    else
      var r := IndicesBelow(c, l2, n - 1);
      if l2[n - 1] == c then r + [n - 1] else r
  }

  /** Every index below n holding c is listed. */
  lemma {:induction false} IndicesBelowComplete(c: char, l2: seq<char>, n: nat)
    requires n <= |l2|
    ensures forall i :: 0 <= i < n && l2[i] == c ==> i in IndicesBelow(c, l2, n)
  {
    if n > 0 {
      IndicesBelowComplete(c, l2, n - 1);
    }
  }

  /** `_chars_in_list(list1, list2)`: for each value of list1 in turn, the
      indices of list2 that hold it. */
  function CharsInList(l1: seq<char>, l2: seq<char>): (r: seq<nat>)
    ensures forall k :: 0 <= k < |r| ==> r[k] < |l2|
  {
    if |l1| == 0 then []
    else IndicesBelow(l1[0], l2, |l2|) + CharsInList(l1[1..], l2)
  }

  /** Each index of xs points at a cell of ln holding a symbol of syms. */
  predicate Holding(ln: seq<char>, xs: seq<nat>, syms: seq<char>) {
    forall k :: 0 <= k < |xs| ==> xs[k] < |ln| && ln[xs[k]] in syms
  }

  /** Every listed index of list2 holds a value of list1. */
  lemma {:induction false} CharsInListSound(l1: seq<char>, l2: seq<char>)
    ensures Holding(l2, CharsInList(l1, l2), l1)
  {
    if |l1| > 0 {
      CharsInListSound(l1[1..], l2);
      var a := IndicesBelow(l1[0], l2, |l2|);
      var b := CharsInList(l1[1..], l2);
      forall k | 0 <= k < |a + b| ensures l2[(a + b)[k]] in l1 {
        if k >= |a| {
          assert (a + b)[k] == b[k - |a|];
          assert l2[b[k - |a|]] in l1[1..];
        }
      }
    }
  }

  /** Every index of list2 whose value occurs in list1 is listed. */
  lemma {:induction false} CharsInListComplete(l1: seq<char>, l2: seq<char>)
    ensures forall i :: 0 <= i < |l2| && l2[i] in l1 ==> i in CharsInList(l1, l2)
  {
    if |l1| > 0 {
      CharsInListComplete(l1[1..], l2);
      IndicesBelowComplete(l1[0], l2, |l2|);
      forall i | 0 <= i < |l2| && l2[i] in l1 ensures i in CharsInList(l1, l2) {
        if l2[i] != l1[0] {
          assert l2[i] in l1[1..];
        }
      }
    }
  }

  /** The run of `sg` symbols immediately left of column x. */
  function RunLeft(ln: seq<char>, x: nat, sg: seq<char>): (k: nat)
    requires x <= |ln|
    ensures k <= x
  {
    if x == 0 || ln[x - 1] !in sg then 0 else 1 + RunLeft(ln, x - 1, sg)
  }

  /** RunLeft is the longest run: every symbol in it is a Start symbol, and the
      one before it (if any) is not. */
  lemma {:induction false} RunLeftMaximal(ln: seq<char>, x: nat, sg: seq<char>)
    requires x <= |ln|
    ensures forall i :: x - RunLeft(ln, x, sg) <= i < x ==> ln[i] in sg
    ensures RunLeft(ln, x, sg) < x ==> ln[x - RunLeft(ln, x, sg) - 1] !in sg
  {
    if x > 0 && ln[x - 1] in sg {
      RunLeftMaximal(ln, x - 1, sg);
    }
  }

  /** A Start symbol at (x, y) is a Start marker: it is not the last cell of its
      row, the cell right of it is not a Start symbol, and nothing above or below
      continues into it. */
  predicate StartAt(lex: Lexicon, g: Grid, sg: seq<char>, x: nat, y: nat)
    requires InGrid(g, x, y)
  {
    x != |g[y]| - 1 && g[y][x + 1] !in sg &&
    !PointsBack(lex, g, x, y, Up) && !PointsBack(lex, g, x, y, Down)
  }

  /** An End symbol at (x, y) is an End marker when nothing below or above continues into it. */
  predicate EndAt(lex: Lexicon, g: Grid, x: nat, y: nat)
    requires InGrid(g, x, y)
  {
    !PointsBack(lex, g, x, y, Down) && !PointsBack(lex, g, x, y, Up)
  }

  /** The marker a Start at (x, y) becomes: its level is 1 plus the Start symbols stacked to its left. */
  function MarkAt(g: Grid, sg: seq<char>, x: nat, y: nat): StartMark
    requires InGrid(g, x, y)
  {
    StartMark(x, y, 1 + RunLeft(g[y], x, sg))
  }

  predicate InRow(g: Grid, y: nat, xs: seq<nat>) {
    y < |g| && forall k :: 0 <= k < |xs| ==> xs[k] < |g[y]|
  }

  /** The Start markers of row y, visiting the candidate columns xs in order. */
  function RowStarts(lex: Lexicon, g: Grid, sg: seq<char>, y: nat, xs: seq<nat>): (r: seq<StartMark>)
    requires InRow(g, y, xs)
  {
    if |xs| == 0 then []
    else
      var n := |xs| - 1;
      var x := xs[n];
      RowStarts(lex, g, sg, y, xs[..n]) + (if StartAt(lex, g, sg, x, y) then [MarkAt(g, sg, x, y)] else [])
  }

  /** The End markers of row y, visiting the candidate columns xs in order. */
  function RowEnds(lex: Lexicon, g: Grid, y: nat, xs: seq<nat>): (r: seq<Point>)
    requires InRow(g, y, xs)
  {
    if |xs| == 0 then []
    else
      var n := |xs| - 1;
      var x := xs[n];
      RowEnds(lex, g, y, xs[..n]) + (if EndAt(lex, g, x, y) then [Point(x, y)] else [])
  }

  /** The Start markers of rows 0 to n-1, row by row. */
  function StartsUpTo(lex: Lexicon, g: Grid, sg: seq<char>, n: nat): seq<StartMark>
    requires n <= |g|
  {
    if n == 0 then [] else StartsUpTo(lex, g, sg, n - 1) + RowStarts(lex, g, sg, n - 1, CharsInList(sg, g[n - 1]))
  }

  /** The End markers of rows 0 to n-1, row by row. */
  function EndsUpTo(lex: Lexicon, g: Grid, eg: seq<char>, n: nat): (r: seq<Point>)
    requires n <= |g|
  {
    if n == 0 then [] else EndsUpTo(lex, g, eg, n - 1) + RowEnds(lex, g, n - 1, CharsInList(eg, g[n - 1]))
  }

  /** One more row of Start markers. */
  lemma StartsUpToNext(lex: Lexicon, g: Grid, sg: seq<char>, y: nat)
    requires y < |g|
    ensures StartsUpTo(lex, g, sg, y + 1) == StartsUpTo(lex, g, sg, y) + RowStarts(lex, g, sg, y, CharsInList(sg, g[y]))
  {
  }

  /** One more row of End markers. */
  lemma EndsUpToNext(lex: Lexicon, g: Grid, eg: seq<char>, y: nat)
    requires y < |g|
    ensures EndsUpTo(lex, g, eg, y + 1) == EndsUpTo(lex, g, eg, y) + RowEnds(lex, g, y, CharsInList(eg, g[y]))
  {
  }

  /** A Start marker as the model describes it. */
  predicate IsStartMark(lex: Lexicon, g: Grid, sg: seq<char>, s: StartMark) {
    InGrid(g, s.x, s.y) && g[s.y][s.x] in sg && StartAt(lex, g, sg, s.x, s.y) && s == MarkAt(g, sg, s.x, s.y)
  }

  /** An End marker as the model describes it. */
  predicate IsEndMark(lex: Lexicon, g: Grid, eg: seq<char>, e: Point) {
    InGrid(g, e.x, e.y) && g[e.y][e.x] in eg && EndAt(lex, g, e.x, e.y)
  }

  /** Every entry of ss is a Start marker on a row above n. */
  predicate StartMarks(lex: Lexicon, g: Grid, sg: seq<char>, ss: seq<StartMark>, n: nat) {
    forall k :: 0 <= k < |ss| ==> ss[k].y < n && IsStartMark(lex, g, sg, ss[k])
  }

  /** Every entry of es is an End marker on a row above n. */
  predicate EndMarks(lex: Lexicon, g: Grid, eg: seq<char>, es: seq<Point>, n: nat) {
    forall k :: 0 <= k < |es| ==> es[k].y < n && IsEndMark(lex, g, eg, es[k])
  }

  lemma {:induction false} RowStartsSound(lex: Lexicon, g: Grid, sg: seq<char>, y: nat, xs: seq<nat>)
    requires y < |g| && Holding(g[y], xs, sg)
    ensures StartMarks(lex, g, sg, RowStarts(lex, g, sg, y, xs), y + 1)
  {
    if |xs| > 0 {
      var n := |xs| - 1;
      RowStartsSound(lex, g, sg, y, xs[..n]);
      assert forall k :: 0 <= k < n ==> xs[..n][k] == xs[k];
    }
  }

  lemma {:induction false} RowStartsComplete(lex: Lexicon, g: Grid, sg: seq<char>, y: nat, xs: seq<nat>)
    requires InRow(g, y, xs)
    ensures forall k :: 0 <= k < |xs| && StartAt(lex, g, sg, xs[k], y) ==> MarkAt(g, sg, xs[k], y) in RowStarts(lex, g, sg, y, xs)
  {
    if |xs| > 0 {
      var n := |xs| - 1;
      RowStartsComplete(lex, g, sg, y, xs[..n]);
      assert forall k :: 0 <= k < n ==> xs[..n][k] == xs[k];
    }
  }

  lemma {:induction false} RowEndsSound(lex: Lexicon, g: Grid, eg: seq<char>, y: nat, xs: seq<nat>)
    requires y < |g| && Holding(g[y], xs, eg)
    ensures EndMarks(lex, g, eg, RowEnds(lex, g, y, xs), y + 1)
  {
    if |xs| > 0 {
      var n := |xs| - 1;
      RowEndsSound(lex, g, eg, y, xs[..n]);
      assert forall k :: 0 <= k < n ==> xs[..n][k] == xs[k];
    }
  }

  lemma {:induction false} RowEndsComplete(lex: Lexicon, g: Grid, y: nat, xs: seq<nat>)
    requires InRow(g, y, xs)
    ensures forall k :: 0 <= k < |xs| && EndAt(lex, g, xs[k], y) ==> Point(xs[k], y) in RowEnds(lex, g, y, xs)
  {
    if |xs| > 0 {
      var n := |xs| - 1;
      RowEndsComplete(lex, g, y, xs[..n]);
      assert forall k :: 0 <= k < n ==> xs[..n][k] == xs[k];
    }
  }

  /** Every Start marker found is a Start symbol meeting the marker rules, with its level. */
  lemma {:induction false} StartsUpToSound(lex: Lexicon, g: Grid, sg: seq<char>, n: nat)
    requires n <= |g|
    ensures StartMarks(lex, g, sg, StartsUpTo(lex, g, sg, n), n)
  {
    if n > 0 {
      CharsInListSound(sg, g[n - 1]);
      RowStartsSound(lex, g, sg, n - 1, CharsInList(sg, g[n - 1]));
      StartsUpToSound(lex, g, sg, n - 1);
    }
  }

  /** A Start symbol on row y meeting the marker rules is among that row's markers. */
  lemma RowStartFound(lex: Lexicon, g: Grid, sg: seq<char>, x: nat, y: nat)
    requires y < |g| && x < |g[y]| && g[y][x] in sg && StartAt(lex, g, sg, x, y)
    ensures MarkAt(g, sg, x, y) in RowStarts(lex, g, sg, y, CharsInList(sg, g[y]))
  {
    var xs := CharsInList(sg, g[y]);
    assert InRow(g, y, xs);
    CharsInListComplete(sg, g[y]);
    RowStartsComplete(lex, g, sg, y, xs);
    var k :| 0 <= k < |xs| && xs[k] == x;
  }

  /** A marker of row y is among the Start markers of rows 0 to n-1 once n > y. */
  lemma {:induction false} RowStartUpTo(lex: Lexicon, g: Grid, sg: seq<char>, n: nat, m: StartMark)
    requires n <= |g| && m.y < n && m in RowStarts(lex, g, sg, m.y, CharsInList(sg, g[m.y]))
    ensures m in StartsUpTo(lex, g, sg, n)
  {
    var prev := StartsUpTo(lex, g, sg, n - 1);
    var row := RowStarts(lex, g, sg, n - 1, CharsInList(sg, g[n - 1]));
    StartsUpToNext(lex, g, sg, n - 1);
    if m.y < n - 1 {
      RowStartUpTo(lex, g, sg, n - 1, m);
    }
    EitherIn(prev, row, m);
  }

  /** Every Start symbol meeting the marker rules is found. */
  lemma StartsUpToComplete(lex: Lexicon, g: Grid, sg: seq<char>, n: nat)
    requires n <= |g|
    ensures forall y, x :: 0 <= y < n && 0 <= x < |g[y]| && g[y][x] in sg && StartAt(lex, g, sg, x, y) ==>
                          MarkAt(g, sg, x, y) in StartsUpTo(lex, g, sg, n)
  {
    forall y, x | 0 <= y < n && 0 <= x < |g[y]| && g[y][x] in sg && StartAt(lex, g, sg, x, y)
      ensures MarkAt(g, sg, x, y) in StartsUpTo(lex, g, sg, n)
    {
      RowStartFound(lex, g, sg, x, y);
      RowStartUpTo(lex, g, sg, n, MarkAt(g, sg, x, y));
    }
  }

  /** Every End marker found is an End symbol meeting the marker rules. */
  lemma {:induction false} EndsUpToSound(lex: Lexicon, g: Grid, eg: seq<char>, n: nat)
    requires n <= |g|
    ensures EndMarks(lex, g, eg, EndsUpTo(lex, g, eg, n), n)
  {
    if n > 0 {
      CharsInListSound(eg, g[n - 1]);
      RowEndsSound(lex, g, eg, n - 1, CharsInList(eg, g[n - 1]));
      EndsUpToSound(lex, g, eg, n - 1);
    }
  }

  /** An End symbol on row y meeting the marker rules is among that row's markers. */
  lemma RowEndFound(lex: Lexicon, g: Grid, eg: seq<char>, x: nat, y: nat)
    requires y < |g| && x < |g[y]| && g[y][x] in eg && EndAt(lex, g, x, y)
    ensures Point(x, y) in RowEnds(lex, g, y, CharsInList(eg, g[y]))
  {
    var xs := CharsInList(eg, g[y]);
    assert InRow(g, y, xs);
    CharsInListComplete(eg, g[y]);
    RowEndsComplete(lex, g, y, xs);
    var k :| 0 <= k < |xs| && xs[k] == x;
  }

  /** A marker of row y is among the End markers of rows 0 to n-1 once n > y. */
  lemma {:induction false} RowEndUpTo(lex: Lexicon, g: Grid, eg: seq<char>, n: nat, x: nat, y: nat)
    requires n <= |g| && y < n && Point(x, y) in RowEnds(lex, g, y, CharsInList(eg, g[y]))
    ensures Point(x, y) in EndsUpTo(lex, g, eg, n)
  {
    var prev := EndsUpTo(lex, g, eg, n - 1);
    var row := RowEnds(lex, g, n - 1, CharsInList(eg, g[n - 1]));
    EndsUpToNext(lex, g, eg, n - 1);
    if y < n - 1 {
      RowEndUpTo(lex, g, eg, n - 1, x, y);
    }
    EitherIn(prev, row, Point(x, y));
  }

  /** Every End symbol meeting the marker rules is found. */
  lemma EndsUpToComplete(lex: Lexicon, g: Grid, eg: seq<char>, n: nat)
    requires n <= |g|
    ensures forall y, x :: 0 <= y < n && 0 <= x < |g[y]| && g[y][x] in eg && EndAt(lex, g, x, y) ==>
                          Point(x, y) in EndsUpTo(lex, g, eg, n)
  {
    forall y, x | 0 <= y < n && 0 <= x < |g[y]| && g[y][x] in eg && EndAt(lex, g, x, y)
      ensures Point(x, y) in EndsUpTo(lex, g, eg, n)
    {
      RowEndFound(lex, g, eg, x, y);
      RowEndUpTo(lex, g, eg, n, x, y);
    }
  }

  /** Membership in a concatenation. */
  lemma EitherIn<T>(a: seq<T>, b: seq<T>, e: T)
    requires e in a || e in b
    ensures e in a + b
  {
  }

  // ---------------------------------------------------------------- pairing

  /** A cell of a ragged row, read as a space past its end. */
  function CellOr(row: seq<char>, x: nat): char {
    if x < |row| then row[x] else ' '
  }

  /** Column x holds a non-space cell on some row from y0 to y1. */
  predicate ColumnInked(g: Grid, x: nat, y0: nat, y1: nat)
    requires y1 < |g|
  {
    exists y :: y0 <= y <= y1 && CellOr(g[y], x) != ' '
  }

  /**
   * The box rules for a Start at s and an End at e below it: the row above s is
   * blank (or s is on the top row) and no row from s's down to just above e's is
   * blank; e is on the last row or column e.x + 1 is blank from s's row to just
   * above e's; and no column from s's to just left of e's is blank over rows s.y
   * to e.y.
   */
  predicate Fits(g: Grid, s: StartMark, e: Point)
    requires s.y < e.y < |g|
  {
    (s.y == 0 || Blank(g[s.y - 1])) &&
    (forall y :: s.y <= y < e.y ==> !Blank(g[y])) &&
    (e.y == |g| - 1 || forall y :: s.y <= y < e.y ==> CellOr(g[y], e.x + 1) == ' ') &&
    (forall x :: s.x <= x < e.x ==> ColumnInked(g, x, s.y, e.y))
  }

  /** e can close the box of s: strictly right of and below it, and fitting the
      box rules. (Every end is a cell of the program, so `e.y < |g|` only makes
      the indexing well defined.) */
  predicate Closes(g: Grid, s: StartMark, e: Point) {
    e.x > s.x && e.y > s.y && e.y < |g| && Fits(g, s, e)
  }

  /** `[e for e in ends if e not in ends_used]`. */
  function Leftover(ends: seq<Point>, used: seq<Point>): seq<Point> {
    if |ends| == 0 then []
    else if ends[0] !in used then [ends[0]] + Leftover(ends[1..], used)
    else Leftover(ends[1..], used)
  }

  /** Leftover keeps exactly the ends that are not used. */
  lemma {:induction false} LeftoverSpec(ends: seq<Point>, used: seq<Point>)
    ensures forall e :: e in Leftover(ends, used) <==> e in ends && e !in used
  {
    if |ends| > 0 {
      LeftoverSpec(ends[1..], used);
      assert forall e :: e in ends <==> e == ends[0] || e in ends[1..];
    }
  }

  /** The inner loop over the unused ends: the first that closes the box of s. */
  function FirstFit(g: Grid, cands: seq<Point>, s: StartMark): (r: Option<Point>)
  {
    if |cands| == 0 then None
    else if Closes(g, s, cands[0]) then Some(cands[0])
    else FirstFit(g, cands[1..], s)
  }

  /** FirstFit finds a candidate that closes the box exactly when one exists, and
      it is the first such. */
  lemma {:induction false} FirstFitSpec(g: Grid, cands: seq<Point>, s: StartMark)
    ensures FirstFit(g, cands, s).None? <==> forall k :: 0 <= k < |cands| ==> !Closes(g, s, cands[k])
    ensures FirstFit(g, cands, s).Some? ==>
              exists k :: 0 <= k < |cands| && cands[k] == FirstFit(g, cands, s).value &&
                          Closes(g, s, cands[k]) && forall m :: 0 <= m < k ==> !Closes(g, s, cands[m])
  {
    if |cands| > 0 && !Closes(g, s, cands[0]) {
      var tail := cands[1..];
      FirstFitSpec(g, tail, s);
      assert forall k :: 0 <= k < |tail| ==> tail[k] == cands[k + 1];
      if FirstFit(g, tail, s).Some? {
        var k :| 0 <= k < |tail| && tail[k] == FirstFit(g, tail, s).value && Closes(g, s, tail[k]) &&
                 forall m :: 0 <= m < k ==> !Closes(g, s, tail[m]);
        assert cands[k + 1] == tail[k];
        forall m | 0 <= m < k + 1 ensures !Closes(g, s, cands[m]) {
          if m > 0 { assert cands[m] == tail[m - 1]; }
        }
      } else {
        forall k | 0 <= k < |cands| ensures !Closes(g, s, cands[k]) {
          if k > 0 { assert cands[k] == tail[k - 1]; }
        }
      }
    }
  }

  /** The pairs made so far and the ends they used (`glyph_locs`, `ends_used`). */
  datatype Pairing = Pairing(locs: seq<GlyphLoc>, used: seq<Point>)

  /** The `for s in starts` loop: pair each start in turn, or raise for the first that finds no end. */
  function MatchStarts(g: Grid, starts: seq<StartMark>, ends: seq<Point>): (r: Result<Pairing, Error>)
    ensures r.Ok? ==> |r.value.locs| == |starts| == |r.value.used|
    ensures r.Err? ==> r.error.SyntaxErr? && r.error.syntax.NoMatchingEnd?
  {
    if |starts| == 0 then Ok(Pairing([], []))
    else
      var n := |starts| - 1;
      var p :- MatchStarts(g, starts[..n], ends);
      var s := starts[n];
      var cands := Leftover(ends, p.used);
      match FirstFit(g, cands, s)
      case None => Err(SyntaxErr(NoMatchingEnd(s.x, s.y)))
      case Some(e) => Ok(Pairing(p.locs + [GlyphLoc(Point(s.x, s.y), e, s.level)], p.used + [e]))
  }

  /** A pairing as the source builds it: pair i joins start i, with its level, to
      the first end not used by pairs before it that closes its box. */
  predicate GreedyPairs(g: Grid, starts: seq<StartMark>, ends: seq<Point>, p: Pairing)
  {
    |p.locs| == |starts| == |p.used| &&
    forall i :: 0 <= i < |starts| ==>
      p.locs[i] == GlyphLoc(Point(starts[i].x, starts[i].y), p.used[i], starts[i].level) &&
      FirstFit(g, Leftover(ends, p.used[..i]), starts[i]) == Some(p.used[i])
  }

  /** The last start of a successful pairing takes the first unused end that fits it. */
  lemma MatchStartsLast(g: Grid, starts: seq<StartMark>, ends: seq<Point>)
    requires |starts| > 0 && MatchStarts(g, starts, ends).Ok?
    ensures var n := |starts| - 1;
            var s := starts[n];
            var r := MatchStarts(g, starts, ends).value;
            MatchStarts(g, starts[..n], ends).Ok? &&
            var p := MatchStarts(g, starts[..n], ends).value;
            FirstFit(g, Leftover(ends, p.used), s) == Some(r.used[n]) &&
            r.locs == p.locs + [GlyphLoc(Point(s.x, s.y), r.used[n], s.level)] &&
            r.used == p.used + [r.used[n]]
  {
  }

  /** Pair i of a successful pairing is greedy when the pairing of the starts
      before the last one is. */
  lemma GreedyPair(g: Grid, starts: seq<StartMark>, ends: seq<Point>, i: nat)
    requires |starts| > 0 && MatchStarts(g, starts, ends).Ok? && i < |starts|
    requires MatchStarts(g, starts[..|starts| - 1], ends).Ok?
    requires GreedyPairs(g, starts[..|starts| - 1], ends, MatchStarts(g, starts[..|starts| - 1], ends).value)
    ensures var r := MatchStarts(g, starts, ends).value;
            r.locs[i] == GlyphLoc(Point(starts[i].x, starts[i].y), r.used[i], starts[i].level) &&
            FirstFit(g, Leftover(ends, r.used[..i]), starts[i]) == Some(r.used[i])
  {
    var n := |starts| - 1;
    var pre := starts[..n];
    var r := MatchStarts(g, starts, ends).value;
    MatchStartsLast(g, starts, ends);
    var p := MatchStarts(g, pre, ends).value;
    if i < n {
      assert r.used[..i] == p.used[..i];
      assert r.locs[i] == p.locs[i] && r.used[i] == p.used[i] && pre[i] == starts[i];
    } else {
      assert r.used[..n] == p.used;
    }
  }

  /** On success the pairing is the greedy one. */
  lemma {:induction false} MatchStartsGreedy(g: Grid, starts: seq<StartMark>, ends: seq<Point>)
    requires MatchStarts(g, starts, ends).Ok?
    ensures GreedyPairs(g, starts, ends, MatchStarts(g, starts, ends).value)
  {
    if |starts| > 0 {
      var n := |starts| - 1;
      MatchStartsGreedy(g, starts[..n], ends);
      var r := MatchStarts(g, starts, ends).value;
      forall i | 0 <= i < |starts|
        ensures r.locs[i] == GlyphLoc(Point(starts[i].x, starts[i].y), r.used[i], starts[i].level) &&
                FirstFit(g, Leftover(ends, r.used[..i]), starts[i]) == Some(r.used[i])
      {
        GreedyPair(g, starts, ends, i);
      }
    }
  }

  /** Start i finds no end: the starts before it were paired, and no end they
      left unused closes its box. */
  predicate FailsAt(g: Grid, starts: seq<StartMark>, ends: seq<Point>, i: nat)
    requires i < |starts|
  {
    MatchStarts(g, starts[..i], ends).Ok? &&
    FirstFit(g, Leftover(ends, MatchStarts(g, starts[..i], ends).value.used), starts[i]).None?
  }

  /** On failure some start found no end, and the error names it. */
  lemma {:induction false} MatchStartsFails(g: Grid, starts: seq<StartMark>, ends: seq<Point>)
    requires MatchStarts(g, starts, ends).Err?
    ensures exists i :: 0 <= i < |starts| && FailsAt(g, starts, ends, i) &&
                        MatchStarts(g, starts, ends).error == SyntaxErr(NoMatchingEnd(starts[i].x, starts[i].y))
  {
    var n := |starts| - 1;
    var pre := starts[..n];
    assert starts[..n] == pre;
    if MatchStarts(g, pre, ends).Err? {
      MatchStartsFails(g, pre, ends);
      var i :| 0 <= i < |pre| && FailsAt(g, pre, ends, i) &&
               MatchStarts(g, pre, ends).error == SyntaxErr(NoMatchingEnd(pre[i].x, pre[i].y));
      assert starts[..i] == pre[..i] && starts[i] == pre[i];
      assert FailsAt(g, starts, ends, i);
    } else {
      assert FailsAt(g, starts, ends, n);
    }
  }

  /** The ends in a greedy pairing are ends of the program, distinct, each strictly
      right of and below its start and closing its box. */
  lemma {:induction false} GreedyPairsSound(g: Grid, starts: seq<StartMark>, ends: seq<Point>, p: Pairing)
    requires GreedyPairs(g, starts, ends, p)
    ensures forall i :: 0 <= i < |p.used| ==> p.used[i] in ends && Closes(g, starts[i], p.used[i])
    ensures forall i, j :: 0 <= i < j < |p.used| ==> p.used[i] != p.used[j]
  {
    forall i | 0 <= i < |p.used|
      ensures p.used[i] in Leftover(ends, p.used[..i]) && Closes(g, starts[i], p.used[i])
    {
      var cands := Leftover(ends, p.used[..i]);
      FirstFitSpec(g, cands, starts[i]);
    }
    forall i | 0 <= i < |p.used| ensures p.used[i] in ends && p.used[i] !in p.used[..i] {
      LeftoverSpec(ends, p.used[..i]);
    }
    forall i, j | 0 <= i < j < |p.used| ensures p.used[i] != p.used[j] {
      assert p.used[i] in p.used[..j];
    }
  }

  /** `len(ends_used) != len(ends)`: raise for the end left over. With one left
      over the source names it; with two or more `min` compares dicts, a
      TypeError; with none (an end listed twice) `min` of nothing, a ValueError. */
  function CheckLeftover(ends: seq<Point>, used: seq<Point>): (r: Option<Error>)
    ensures r.None? <==> |used| == |ends|
    ensures r.Some? && r.value.SyntaxErr? ==>
              r.value.syntax.NoCorrespondingStart? && Leftover(ends, used) == [Point(r.value.syntax.x, r.value.syntax.y)]
  {
    if |used| == |ends| then None
    else
      var u := Leftover(ends, used);
      if |u| == 0 then Some(PythonErr(ValueError("min() arg is an empty sequence")))
      else if |u| == 1 then Some(SyntaxErr(NoCorrespondingStart(u[0].x, u[0].y)))
      else Some(PythonErr(TypeError("'<' not supported between instances of 'dict' and 'dict'")))
  }

  lemma {:induction false} SetOfSeqCard<T>(s: seq<T>)
    ensures |set x | x in s| <= |s|
    ensures (forall i, j :: 0 <= i < j < |s| ==> s[i] != s[j]) ==> |set x | x in s| == |s|
  {
    if |s| > 0 {
      var t := s[1..];
      SetOfSeqCard(t);
      assert (set x | x in s) == (set x | x in t) + {s[0]};
      if forall i, j :: 0 <= i < j < |s| ==> s[i] != s[j] {
        assert s[0] !in t;
        assert forall i, j :: 0 <= i < j < |t| ==> t[i] == s[i + 1] && t[j] == s[j + 1];
      }
    }
  }

  lemma SubsetCard<T>(a: set<T>, b: set<T>)
    requires a <= b
    ensures |a| <= |b|
  {
    assert b == a + (b - a);
    assert a * (b - a) == {};
  }

  /** Distinct used ends drawn from the ends, with one end unused, are fewer than the ends. */
  lemma UnusedMeansFewer(ends: seq<Point>, used: seq<Point>, e: Point)
    requires forall i :: 0 <= i < |used| ==> used[i] in ends
    requires forall i, j :: 0 <= i < j < |used| ==> used[i] != used[j]
    requires e in ends && e !in used
    ensures |used| < |ends|
  {
    SetOfSeqCard(used);
    SetOfSeqCard(ends);
    var su := set x | x in used;
    var se := set x | x in ends;
    assert su <= se - {e};
    SubsetCard(su, se - {e});
    assert |se - {e}| == |se| - 1;
  }

  /** When the leftover check passes, every end is used; when exactly one end is
      unused the check names it. */
  lemma AllEndsUsed(ends: seq<Point>, used: seq<Point>)
    requires forall i :: 0 <= i < |used| ==> used[i] in ends
    requires forall i, j :: 0 <= i < j < |used| ==> used[i] != used[j]
    ensures CheckLeftover(ends, used).None? ==> forall e :: e in ends ==> e in used
    ensures |Leftover(ends, used)| == 1 ==>
              CheckLeftover(ends, used) == Some(SyntaxErr(NoCorrespondingStart(Leftover(ends, used)[0].x, Leftover(ends, used)[0].y)))
  {
    LeftoverSpec(ends, used);
    forall e | e in ends && e !in used ensures |used| < |ends| {
      UnusedMeansFewer(ends, used, e);
    }
    if |Leftover(ends, used)| == 1 {
      assert Leftover(ends, used)[0] in Leftover(ends, used);
    }
  }

  /** The Start markers of the program, row by row. */
  function Starts(lex: Lexicon, g: Grid): seq<StartMark> {
    StartsUpTo(lex, g, SymbolsNamed(lex, "start_glyph"), |g|)
  }

  /** The End markers of the program, row by row. */
  function Ends(lex: Lexicon, g: Grid): seq<Point> {
    EndsUpTo(lex, g, SymbolsNamed(lex, "end_glyph"), |g|)
  }

  /** `_locate_glyphs`. */
  function Locate(lex: Lexicon, g: Grid): (r: Result<seq<GlyphLoc>, Error>)
  {
    var ends := Ends(lex, g);
    var p :- MatchStarts(g, Starts(lex, g), ends);
    match CheckLeftover(ends, p.used)
    case Some(err) => Err(err)
    case None => Ok(p.locs)
  }

  /** A located glyph: its Start is a Start marker with its level, its End an
      End marker strictly right of and below it closing the box. */
  predicate LocatedPair(lex: Lexicon, g: Grid, loc: GlyphLoc) {
    var s := StartMark(loc.start.x, loc.start.y, loc.level);
    IsStartMark(lex, g, SymbolsNamed(lex, "start_glyph"), s) &&
    IsEndMark(lex, g, SymbolsNamed(lex, "end_glyph"), loc.end) &&
    Closes(g, s, loc.end)
  }

  /** On success every Start marker is paired, in the order the starts were
      found, with an End marker strictly right of and below it that closes its box. */
  lemma LocatePairs(lex: Lexicon, g: Grid)
    requires Locate(lex, g).Ok?
    ensures |Locate(lex, g).value| == |Starts(lex, g)|
    ensures forall i :: 0 <= i < |Locate(lex, g).value| ==>
              LocatedPair(lex, g, Locate(lex, g).value[i]) &&
              Locate(lex, g).value[i].start == Point(Starts(lex, g)[i].x, Starts(lex, g)[i].y)
  {
    var sg := SymbolsNamed(lex, "start_glyph");
    var eg := SymbolsNamed(lex, "end_glyph");
    var starts := Starts(lex, g);
    var ends := Ends(lex, g);
    var p := MatchStarts(g, starts, ends).value;
    assert Locate(lex, g).value == p.locs;
    MatchStartsGreedy(g, starts, ends);
    GreedyPairsSound(g, starts, ends, p);
    EndsUpToSound(lex, g, eg, |g|);
    StartsUpToSound(lex, g, sg, |g|);
    forall i | 0 <= i < |p.locs| ensures LocatedPair(lex, g, p.locs[i]) {
      assert StartMark(p.locs[i].start.x, p.locs[i].start.y, p.locs[i].level) == starts[i];
      assert IsStartMark(lex, g, sg, starts[i]);
      var k :| 0 <= k < |ends| && ends[k] == p.used[i];
      assert IsEndMark(lex, g, eg, p.locs[i].end);
    }
  }

  /** On success no End is used twice and every End marker is used. */
  lemma LocateUsesEveryEnd(lex: Lexicon, g: Grid)
    requires Locate(lex, g).Ok?
    ensures forall i, j :: 0 <= i < j < |Locate(lex, g).value| ==> Locate(lex, g).value[i].end != Locate(lex, g).value[j].end
    ensures forall e :: e in Ends(lex, g) ==> exists i :: 0 <= i < |Locate(lex, g).value| && Locate(lex, g).value[i].end == e
  {
    var starts := Starts(lex, g);
    var ends := Ends(lex, g);
    var p := MatchStarts(g, starts, ends).value;
    assert Locate(lex, g).value == p.locs;
    MatchStartsGreedy(g, starts, ends);
    GreedyPairsSound(g, starts, ends, p);
    AllEndsUsed(ends, p.used);
    forall e | e in ends ensures exists i :: 0 <= i < |p.locs| && p.locs[i].end == e {
      var i :| 0 <= i < |p.used| && p.used[i] == e;
    }
  }

  /** A Start with no matching end: it is a Start marker, and no End marker left
      unused by the starts before it closes its box. */
  lemma LocateNoMatchingEnd(lex: Lexicon, g: Grid, x: nat, y: nat)
    requires Locate(lex, g) == Err(SyntaxErr(NoMatchingEnd(x, y)))
    ensures exists i :: 0 <= i < |Starts(lex, g)| && Starts(lex, g)[i].x == x && Starts(lex, g)[i].y == y &&
                        IsStartMark(lex, g, SymbolsNamed(lex, "start_glyph"), Starts(lex, g)[i]) &&
                        FailsAt(g, Starts(lex, g), Ends(lex, g), i)
  {
    var starts := Starts(lex, g);
    var ends := Ends(lex, g);
    MatchStartsFails(g, starts, ends);
    StartsUpToSound(lex, g, SymbolsNamed(lex, "start_glyph"), |g|);
  }

  /** An End with no corresponding start: every start was paired, and that End
      marker is the only one no pair uses. */
  lemma LocateNoCorrespondingStart(lex: Lexicon, g: Grid, x: nat, y: nat)
    requires Locate(lex, g) == Err(SyntaxErr(NoCorrespondingStart(x, y)))
    ensures MatchStarts(g, Starts(lex, g), Ends(lex, g)).Ok?
    ensures Leftover(Ends(lex, g), MatchStarts(g, Starts(lex, g), Ends(lex, g)).value.used) == [Point(x, y)]
    ensures IsEndMark(lex, g, SymbolsNamed(lex, "end_glyph"), Point(x, y))
  {
    var eg := SymbolsNamed(lex, "end_glyph");
    var ends := Ends(lex, g);
    var p := MatchStarts(g, Starts(lex, g), ends).value;
    LeftoverSpec(ends, p.used);
    assert Point(x, y) in Leftover(ends, p.used);
    EndsUpToSound(lex, g, eg, |g|);
  }
}
