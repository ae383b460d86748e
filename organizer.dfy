/**
 * Token organization (`_parse_glyphs`): the lexed strands of one glyph become
 * its tokens in run order. Data strands are numbered in (x, y) order with
 * their row's prime and their cell in that row; the question markers are
 * checked and the first runs last; ref strands find their reference cell; and
 * action strands are attached to the data strands of their column.
 */
module Organizer {
  import opened Wrappers
  import opened Symbols
  import opened Grids
  import opened Tokens
  import opened Lexer

  // ---------------------------------------------------------------- sorting

  /** The two sort keys of `_parse_glyphs`: `(x, y)` and `y`. */
  datatype SortKey = ByXY | ByY

  /** a's key is not greater than b's (tuples compare lexicographically). */
  predicate Leq(k: SortKey, a: Strand, b: Strand) {
    match k
    case ByXY => a.x < b.x || (a.x == b.x && a.y <= b.y)
    case ByY => a.y <= b.y
  }

  predicate SortedBy(k: SortKey, s: seq<Strand>) {
    forall i, j :: 0 <= i < j < |s| ==> Leq(k, s[i], s[j])
  }

  /** Insert t, which came after every element of s, behind the last element
      whose key is not greater: the step of a stable insertion sort. */
  function Insert(k: SortKey, t: Strand, s: seq<Strand>): (r: seq<Strand>)
    ensures |r| == |s| + 1
  {
    if |s| == 0 then [t]
    else
      var n := |s| - 1;
      if Leq(k, s[n], t) then s + [t]
      else
        assert s == s[..n] + [s[n]];
        Insert(k, t, s[..n]) + [s[n]]
  }

  /** Python's `sorted` with one of the keys: stable, so strands with equal keys
      keep their order. */
  function Sort(k: SortKey, s: seq<Strand>): (r: seq<Strand>)
    ensures |r| == |s|
  {
    if |s| == 0 then []
    else Insert(k, s[|s| - 1], Sort(k, s[..|s| - 1]))
  }

  /** Inserting adds t and keeps every element of s. */
  lemma {:induction false} InsertPerm(k: SortKey, t: Strand, s: seq<Strand>)
    ensures multiset(Insert(k, t, s)) == multiset(s) + multiset{t}
  {
    if |s| > 0 {
      var n := |s| - 1;
      if !Leq(k, s[n], t) {
        InsertPerm(k, t, s[..n]);
        assert s == s[..n] + [s[n]];
      }
    }
  }

  /** Inserting keeps every element at or below a bound that bounds s and t. */
  lemma {:induction false} InsertBounded(k: SortKey, t: Strand, s: seq<Strand>, x: Strand)
    requires forall i :: 0 <= i < |s| ==> Leq(k, s[i], x)
    requires Leq(k, t, x)
    ensures forall i :: 0 <= i < |Insert(k, t, s)| ==> Leq(k, Insert(k, t, s)[i], x)
  {
    if |s| > 0 {
      var n := |s| - 1;
      if !Leq(k, s[n], t) {
        InsertBounded(k, t, s[..n], x);
      }
    }
  }

  lemma {:induction false} InsertSorted(k: SortKey, t: Strand, s: seq<Strand>)
    requires SortedBy(k, s)
    ensures SortedBy(k, Insert(k, t, s))
  {
    if |s| > 0 {
      var n := |s| - 1;
      if !Leq(k, s[n], t) {
        var pre := s[..n];
        InsertSorted(k, t, pre);
        InsertBounded(k, t, pre, s[n]);
        SortedSnoc(k, Insert(k, t, pre), s[n]);
      } else {
        SortedSnoc(k, s, t);
      }
    }
  }

  /** The sort returns its input reordered into key order. */
  lemma {:induction false} SortSpec(k: SortKey, s: seq<Strand>)
    ensures SortedBy(k, Sort(k, s))
    ensures multiset(Sort(k, s)) == multiset(s)
  {
    if |s| > 0 {
      var n := |s| - 1;
      SortSpec(k, s[..n]);
      InsertSorted(k, s[n], Sort(k, s[..n]));
      InsertPerm(k, s[n], Sort(k, s[..n]));
      assert s == s[..n] + [s[n]];
    }
  }

  /** A sequence already in key order is left as it is (the sort is stable). */
  lemma {:induction false} SortKeepsSorted(k: SortKey, s: seq<Strand>)
    requires SortedBy(k, s)
    ensures Sort(k, s) == s
  {
    if |s| > 0 {
      var n := |s| - 1;
      SortKeepsSorted(k, s[..n]);
      assert s[..n] + [s[n]] == s;
    }
  }

  /** Strands lexed row by row are already in y order, so sorting them by y
      keeps the lexed order. */
  lemma {:induction false} RowMajorSortedByY(ts: seq<Strand>)
    requires RowMajor(ts)
    ensures Sort(ByY, ts) == ts
  {
    assert SortedBy(ByY, ts) by {
      forall i, j | 0 <= i < j < |ts| ensures ts[i].y <= ts[j].y {
        assert Before(ts[i], ts[j]);
      }
    }
    SortKeepsSorted(ByY, ts);
  }

  /** `[t for t in ts if t["type"] == kind]`. */
  function OfKind(ts: seq<Strand>, kind: Kind): (r: seq<Strand>)
    ensures |r| <= |ts|
  {
    if |ts| == 0 then []
    else
      var n := |ts| - 1;
      OfKind(ts[..n], kind) + (if ts[n].kind == kind then [ts[n]] else [])
  }

  /** Filtering picks out exactly the strands of that kind, each as often as it
      occurs. */
  lemma {:induction false} OfKindCount(ts: seq<Strand>, kind: Kind)
    ensures forall t: Strand :: t.kind == kind ==> multiset(OfKind(ts, kind))[t] == multiset(ts)[t]
    ensures forall t: Strand :: t.kind != kind ==> multiset(OfKind(ts, kind))[t] == 0
  {
    if |ts| > 0 {
      var n := |ts| - 1;
      OfKindCount(ts[..n], kind);
      assert ts == ts[..n] + [ts[n]];
    }
  }

  /** Filtering keeps every element at or below a bound of ts. */
  lemma {:induction false} OfKindBounded(ts: seq<Strand>, kind: Kind, k: SortKey, x: Strand)
    requires forall i :: 0 <= i < |ts| ==> Leq(k, ts[i], x)
    ensures forall i :: 0 <= i < |OfKind(ts, kind)| ==> Leq(k, OfKind(ts, kind)[i], x)
  {
    if |ts| > 0 {
      OfKindBounded(ts[..|ts| - 1], kind, k, x);
    }
  }

  /** Filtering keeps key order. */
  lemma {:induction false} OfKindSorted(k: SortKey, ts: seq<Strand>, kind: Kind)
    requires SortedBy(k, ts)
    ensures SortedBy(k, OfKind(ts, kind))
  {
    if |ts| > 0 {
      var n := |ts| - 1;
      var pre := ts[..n];
      OfKindSorted(k, pre, kind);
      if ts[n].kind == kind {
        OfKindBounded(pre, kind, k, ts[n]);
        SortedSnoc(k, OfKind(pre, kind), ts[n]);
      }
    }
  }

  /** Appending an element no smaller than every other keeps key order. */
  lemma SortedSnoc(k: SortKey, s: seq<Strand>, t: Strand)
    requires SortedBy(k, s)
    requires forall i :: 0 <= i < |s| ==> Leq(k, s[i], t)
    ensures SortedBy(k, s + [t])
  {
  }

  // ------------------------------------------------------------ data tokens

  /** The data strands of ds on row y: `count_per_list[y]` after them. */
  function RowCount(ds: seq<Strand>, y: nat): (c: nat)
    ensures c <= |ds|
  {
    if |ds| == 0 then 0
    else
      var n := |ds| - 1;
      RowCount(ds[..n], y) + (if ds[n].y == y then 1 else 0)
  }

  /** A strand as a token before any decoration. */
  function Bare(t: Strand, order: nat): Token {
    Token(t, order, None, None, None, None, None)
  }

  /** The first loop of `_parse_glyphs` over the data strands ds, in turn: the
      strand's `list` is the prime of its row (an IndexError past the table), its
      `order` its position, and its `assign_to_cell` the count of earlier data
      strands on its row. */
  function NumberData(primes: seq<nat>, ds: seq<Strand>): (r: Result<seq<Token>, Error>)
    ensures r.Ok? ==> |r.value| == |ds|
  {
    if |ds| == 0 then Ok([])
    else
      var n := |ds| - 1;
      var prev :- NumberData(primes, ds[..n]);
      var t := ds[n];
      if t.y >= |primes| then Err(PythonErr(IndexError("list index out of range")))
      else Ok(prev + [Bare(t, n).(list := Some(primes[t.y] as int), cell := Some(RowCount(ds[..n], t.y)))])
  }

  /** Token i of the numbering: strand i, order i, its row's prime, and the
      count of earlier strands on that row as its cell. */
  predicate NumberedAt(primes: seq<nat>, ds: seq<Strand>, ts: seq<Token>, i: nat)
    requires i < |ds| && i < |ts| && ds[i].y < |primes|
  {
    ts[i] == Bare(ds[i], i).(list := Some(primes[ds[i].y] as int), cell := Some(RowCount(ds[..i], ds[i].y)))
  }

  /** Numbering succeeds exactly when every data strand's row has a prime, and
      then every token is numbered as above. */
  lemma {:induction false} NumberDataSpec(primes: seq<nat>, ds: seq<Strand>)
    ensures NumberData(primes, ds).Ok? <==> forall i :: 0 <= i < |ds| ==> ds[i].y < |primes|
    ensures NumberData(primes, ds).Ok? ==>
              forall i :: 0 <= i < |ds| ==> NumberedAt(primes, ds, NumberData(primes, ds).value, i)
  {
    if |ds| > 0 {
      var n := |ds| - 1;
      var pre := ds[..n];
      NumberDataSpec(primes, pre);
      assert forall i :: 0 <= i < n ==> pre[i] == ds[i] && pre[..i] == ds[..i];
      var r := NumberData(primes, ds);
      if r.Ok? {
        var prev := NumberData(primes, pre).value;
        forall i | 0 <= i < |ds| ensures NumberedAt(primes, ds, r.value, i) {
          if i < n {
            assert r.value[i] == prev[i];
            assert NumberedAt(primes, pre, prev, i);
          }
        }
      }
    }
  }

  /** A strand on row y adds one to the row's count. */
  lemma {:induction false} RowCountGrows(ds: seq<Strand>, i: nat)
    requires i < |ds|
    ensures RowCount(ds[..i], ds[i].y) < RowCount(ds[..i + 1], ds[i].y)
  {
    assert ds[..i + 1][..i] == ds[..i];
  }

  lemma {:induction false} RowCountMono(ds: seq<Strand>, i: nat, j: nat, y: nat)
    requires i <= j <= |ds|
    ensures RowCount(ds[..i], y) <= RowCount(ds[..j], y)
    decreases j - i
  {
    if i < j {
      RowCountMono(ds, i, j - 1, y);
      assert ds[..j][..j - 1] == ds[..j - 1];
    }
  }

  /** Within a row the cells run 0, 1, 2, ...: a later strand on the same row has
      a larger cell, and every cell is below the number of strands on the row. */
  lemma {:induction false} RowCells(ds: seq<Strand>, i: nat, j: nat)
    requires i < j < |ds| && ds[i].y == ds[j].y
    ensures RowCount(ds[..i], ds[i].y) < RowCount(ds[..j], ds[j].y)
    ensures RowCount(ds[..j], ds[j].y) < RowCount(ds, ds[j].y)
  {
    RowCountGrows(ds, i);
    RowCountMono(ds, i + 1, j, ds[i].y);
    RowCountGrows(ds, j);
    RowCountMono(ds, j + 1, |ds|, ds[j].y);
    assert ds[..|ds|] == ds;
  }

  // ------------------------------------------------------- question markers

  /** The question-marker loop, over the markers qs in y order: the first becomes
      the `first` marker with the next order and is appended; the second must
      start where the first ended and is stored as its `second`; a third is an
      error. The result is what gets appended: nothing, or the first marker. A
      lone marker is accepted. */
  function Markers(qs: seq<Strand>, order: nat): (r: Result<seq<Token>, Error>)
    // it succeeds exactly with at most two markers, the second starting where the first ended
    ensures r.Ok? <==> |qs| <= 1 || (|qs| == 2 && qs[0].endAt == Some(Point(qs[1].x, qs[1].y)))
    // it appends the first marker, numbered after the data tokens, holding the second
    ensures r.Ok? ==>
              |r.value| == (if |qs| == 0 then 0 else 1) &&
              (|qs| > 0 ==> r.value[0].strand == qs[0].(subtype := FirstMarker) && r.value[0].order == order &&
                            r.value[0].cell.None? && r.value[0].list.None? && r.value[0].refCell.None? &&
                            r.value[0].second == (if |qs| == 2 then Some(qs[1].(subtype := SecondMarker)) else None))
    // a misplaced second marker is reported before a third marker
    ensures r.Err? ==>
              (r.error == SyntaxErr(MisplacedSecondMarker) <==>
                 qs[0].endAt.Some? && qs[0].endAt != Some(Point(qs[1].x, qs[1].y))) &&
              (r.error == SyntaxErr(BadMarkerCount) <==>
                 |qs| > 2 && qs[0].endAt == Some(Point(qs[1].x, qs[1].y))) &&
              (r.error == PythonErr(KeyError("end_x")) <==> qs[0].endAt.None?)
  {
    if |qs| == 0 then Ok([])
    else
      var first := qs[0].(subtype := FirstMarker);
      if |qs| == 1 then Ok([Bare(first, order)])
      else
        var second := qs[1].(subtype := SecondMarker);
        if first.endAt.None? then Err(PythonErr(KeyError("end_x")))
        else if first.endAt.value != Point(second.x, second.y) then Err(SyntaxErr(MisplacedSecondMarker))
        else if |qs| > 2 then Err(SyntaxErr(BadMarkerCount))
        else Ok([Bare(first, order).(second := Some(second))])
  }

  // -------------------------------------------------------------- ref cells

  /** The cells of the tokens on row y left of column x, in token order:
      `t["assign_to_cell"] for t in ref`. */
  function CellsLeftOf(ts: seq<Token>, y: nat, x: nat): (r: seq<Option<nat>>)
    ensures |r| <= |ts|
  {
    if |ts| == 0 then []
    else
      var n := |ts| - 1;
      var t := ts[n].strand;
      CellsLeftOf(ts[..n], y, x) + (if t.y == y && t.x < x then [ts[n].cell] else [])
  }

  predicate AllSet(cs: seq<Option<nat>>) {
    forall i :: 0 <= i < |cs| ==> cs[i].Some?
  }

  /** `min` of the cells. */
  function MinCell(cs: seq<Option<nat>>): (m: nat)
    requires |cs| > 0 && AllSet(cs)
    ensures forall i :: 0 <= i < |cs| ==> m <= cs[i].value
    ensures exists i :: 0 <= i < |cs| && m == cs[i].value
  {
    if |cs| == 1 then cs[0].value
    else
      var rest := cs[1..];
      assert forall i :: 0 <= i < |rest| ==> rest[i] == cs[i + 1];
      var m := MinCell(rest);
      if cs[0].value <= m then cs[0].value else m
  }

  /** `ref_cell` of a ref token t among the tokens ts: the prime of the row it
      ended on and one more than the least cell of the tokens left of its end on
      that row, or 0 when there are none. A missing end is a KeyError, a row past
      the prime table an IndexError, and a token with no cell among them (the
      first question marker) a KeyError. */
  function RefCell(primes: seq<nat>, ts: seq<Token>, t: Strand): (r: Result<(int, nat), Error>)
  {
    if t.endAt.None? then Err(PythonErr(KeyError("end_y")))
    else
      var e := t.endAt.value;
      if e.y >= |primes| then Err(PythonErr(IndexError("list index out of range")))
      else
        var cs := CellsLeftOf(ts, e.y, e.x);
        if |cs| == 0 then Ok((primes[e.y] as int, 0))
        else if !AllSet(cs) then Err(PythonErr(KeyError("assign_to_cell")))
        else Ok((primes[e.y] as int, MinCell(cs) + 1))
  }

  /** The ref loop over the tokens before k: each ref token, in turn, gets its
      `ref_cell`, computed among the tokens as they were (the loop changes no
      cell, so that is the same as among the tokens as they are). */
  function ResolveRefs(primes: seq<nat>, ts: seq<Token>, k: nat): (r: Result<seq<Token>, Error>)
    requires k <= |ts|
    ensures r.Ok? ==> |r.value| == |ts|
  {
    if k == 0 then Ok(ts)
    else
      var cur :- ResolveRefs(primes, ts, k - 1);
      var t := ts[k - 1];
      if t.strand.subtype != RefStrand then Ok(cur)
      else
        var rc :- RefCell(primes, ts, t.strand);
        Ok(cur[k - 1 := cur[k - 1].(refCell := Some(rc))])
  }

  /** After the ref loop over the first k tokens, every ref token among them holds its
      `ref_cell` and nothing else has changed. */
  lemma {:induction false} ResolveRefsSpec(primes: seq<nat>, ts: seq<Token>, k: nat)
    requires k <= |ts|
    ensures ResolveRefs(primes, ts, k).Ok? <==>
              forall i :: 0 <= i < k && ts[i].strand.subtype == RefStrand ==> RefCell(primes, ts, ts[i].strand).Ok?
    ensures ResolveRefs(primes, ts, k).Ok? ==>
              forall i :: 0 <= i < |ts| ==>
                ResolveRefs(primes, ts, k).value[i] ==
                  if i < k && ts[i].strand.subtype == RefStrand
                  then ts[i].(refCell := Some(RefCell(primes, ts, ts[i].strand).value))
                  else ts[i]
  {
    if k > 0 {
      ResolveRefsSpec(primes, ts, k - 1);
    }
  }

  /** The ref loop keeps every token's place in the run order. */
  lemma ResolveRefsOrder(primes: seq<nat>, ts: seq<Token>, i: nat)
    requires ResolveRefs(primes, ts, |ts|).Ok? && i < |ts|
    ensures ResolveRefs(primes, ts, |ts|).value[i].order == ts[i].order
  {
    ResolveRefsSpec(primes, ts, |ts|);
  }

  /** Only ref_cell changes, so strands and cells stay as they were. */
  predicate SameCells(a: seq<Token>, b: seq<Token>) {
    |a| == |b| && forall i :: 0 <= i < |a| ==> a[i].strand == b[i].strand && a[i].cell == b[i].cell
  }

  lemma {:induction false} CellsLeftOfSame(a: seq<Token>, b: seq<Token>, y: nat, x: nat)
    requires SameCells(a, b)
    ensures CellsLeftOf(a, y, x) == CellsLeftOf(b, y, x)
  {
    if |a| > 0 {
      var n := |a| - 1;
      CellsLeftOfSame(a[..n], b[..n], y, x);
    }
  }

  lemma {:induction false} CellsLeftOfAppend(a: seq<Token>, b: seq<Token>, y: nat, x: nat)
    ensures CellsLeftOf(a + b, y, x) == CellsLeftOf(a, y, x) + CellsLeftOf(b, y, x)
  {
    if |b| > 0 {
      var n := |b| - 1;
      CellsLeftOfAppend(a, b[..n], y, x);
      assert (a + b)[..|a| + n] == a + b[..n];
      assert (a + b)[|a| + n] == b[n];
    } else {
      assert a + b == a;
    }
  }

  /** A token on row y left of x contributes its cell. */
  lemma {:induction false} CellsLeftOfHas(ts: seq<Token>, i: nat, y: nat, x: nat)
    requires i < |ts| && ts[i].strand.y == y && ts[i].strand.x < x
    ensures ts[i].cell in CellsLeftOf(ts, y, x)
  {
    var n := |ts| - 1;
    if i < n {
      CellsLeftOfHas(ts[..n], i, y, x);
    }
  }

  /** Tokens with no cell contribute only missing cells. */
  lemma {:induction false} CellsLeftOfUnset(ts: seq<Token>, y: nat, x: nat)
    requires forall i :: 0 <= i < |ts| ==> ts[i].cell.None?
    ensures forall i :: 0 <= i < |CellsLeftOf(ts, y, x)| ==> CellsLeftOf(ts, y, x)[i].None?
  {
    if |ts| > 0 {
      CellsLeftOfUnset(ts[..|ts| - 1], y, x);
    }
  }

  /** Each contributed cell comes from a token on row y left of x. */
  lemma {:induction false} CellsLeftOfFrom(ts: seq<Token>, y: nat, x: nat, c: Option<nat>)
    requires c in CellsLeftOf(ts, y, x)
    ensures exists i :: 0 <= i < |ts| && ts[i].strand.y == y && ts[i].strand.x < x && ts[i].cell == c
  {
    var n := |ts| - 1;
    if c in CellsLeftOf(ts[..n], y, x) {
      CellsLeftOfFrom(ts[..n], y, x, c);
      var i :| 0 <= i < n && ts[..n][i].strand.y == y && ts[..n][i].strand.x < x && ts[..n][i].cell == c;
      assert ts[i] == ts[..n][i];
    }
  }

  /** The first strand on row y, found from strand i on that row. */
  lemma FirstOnRow(ds: seq<Strand>, i: nat, y: nat) returns (j: nat)
    requires i < |ds| && ds[i].y == y
    ensures j <= i && ds[j].y == y && forall m :: 0 <= m < j ==> ds[m].y != y
  {
    j := 0;
    while ds[j].y != y
      invariant j <= i && forall m :: 0 <= m < j ==> ds[m].y != y
      decreases i - j
    {
      j := j + 1;
    }
  }

  lemma {:induction false} RowCountNone(ds: seq<Strand>, y: nat)
    requires forall m :: 0 <= m < |ds| ==> ds[m].y != y
    ensures RowCount(ds, y) == 0
  {
    if |ds| > 0 {
      RowCountNone(ds[..|ds| - 1], y);
    }
  }

  /**
   * With the data strands in (x, y) order, `ref_cell`'s cell is 1 when some
   * data strand starts on the end row left of the end, and 0 otherwise: the
   * leftmost data strand of a row has cell 0, so `min(...) + 1` is always 1.
   * The marker tokens appended after the data have no cell; one left of the end
   * makes RefCell fail.
   */
  lemma RefCellIsZeroOrOne(primes: seq<nat>, ds: seq<Strand>, marks: seq<Token>, t: Strand)
    requires NumberData(primes, ds).Ok? && SortedBy(ByXY, ds)
    requires forall i :: 0 <= i < |marks| ==> marks[i].cell.None?
    requires RefCell(primes, NumberData(primes, ds).value + marks, t).Ok?
    ensures t.endAt.Some?
    ensures RefCell(primes, NumberData(primes, ds).value + marks, t).value.1 ==
              if exists i :: 0 <= i < |ds| && ds[i].y == t.endAt.value.y && ds[i].x < t.endAt.value.x then 1 else 0
  {
    var e := t.endAt.value;
    if exists i :: 0 <= i < |ds| && ds[i].y == e.y && ds[i].x < e.x {
      var i :| 0 <= i < |ds| && ds[i].y == e.y && ds[i].x < e.x;
      RefCellOne(primes, ds, marks, t, i);
    } else {
      RefCellZero(primes, ds, marks, t);
    }
  }

  /** A data strand on the end row left of the end: the cell is 1. */
  lemma RefCellOne(primes: seq<nat>, ds: seq<Strand>, marks: seq<Token>, t: Strand, i: nat)
    requires NumberData(primes, ds).Ok? && SortedBy(ByXY, ds)
    requires forall i :: 0 <= i < |marks| ==> marks[i].cell.None?
    requires RefCell(primes, NumberData(primes, ds).value + marks, t).Ok? && t.endAt.Some?
    requires i < |ds| && ds[i].y == t.endAt.value.y && ds[i].x < t.endAt.value.x
    ensures RefCell(primes, NumberData(primes, ds).value + marks, t).value.1 == 1
  {
    var data := NumberData(primes, ds).value;
    var e := t.endAt.value;
    NumberDataSpec(primes, ds);
    CellsLeftOfAppend(data, marks, e.y, e.x);
    CellsLeftOfUnset(marks, e.y, e.x);
    var cs := CellsLeftOf(data + marks, e.y, e.x);
    var j := FirstOnRow(ds, i, e.y);
    assert ds[j].x <= ds[i].x by { assert Leq(ByXY, ds[j], ds[i]) || i == j; }
    RowCountNone(ds[..j], e.y);
    assert NumberedAt(primes, ds, data, j);
    CellsLeftOfHas(data, j, e.y, e.x);
    assert Some(0) in cs;
    var m := MinCell(cs);
  }

  /** No data strand on the end row left of the end: the cell is 0. */
  lemma RefCellZero(primes: seq<nat>, ds: seq<Strand>, marks: seq<Token>, t: Strand)
    requires NumberData(primes, ds).Ok?
    requires forall i :: 0 <= i < |marks| ==> marks[i].cell.None?
    requires RefCell(primes, NumberData(primes, ds).value + marks, t).Ok? && t.endAt.Some?
    requires forall i :: 0 <= i < |ds| ==> !(ds[i].y == t.endAt.value.y && ds[i].x < t.endAt.value.x)
    ensures RefCell(primes, NumberData(primes, ds).value + marks, t).value.1 == 0
  {
    var data := NumberData(primes, ds).value;
    var e := t.endAt.value;
    NumberDataSpec(primes, ds);
    CellsLeftOfAppend(data, marks, e.y, e.x);
    CellsLeftOfUnset(marks, e.y, e.x);
    forall i | 0 <= i < |data| ensures !(data[i].strand.y == e.y && data[i].strand.x < e.x) {
      assert NumberedAt(primes, ds, data, i);
    }
    CellsLeftOfNone(data, e.y, e.x);
  }

  /** No token on row y left of x: no cells. */
  lemma {:induction false} CellsLeftOfNone(ts: seq<Token>, y: nat, x: nat)
    requires forall i :: 0 <= i < |ts| ==> !(ts[i].strand.y == y && ts[i].strand.x < x)
    ensures CellsLeftOf(ts, y, x) == []
  {
    if |ts| > 0 {
      CellsLeftOfNone(ts[..|ts| - 1], y, x);
    }
  }

  // ---------------------------------------------------------------- actions

  /** `(curr_x, x_count)` after the action strands acts: the counter restarts at 0
      on a new column and goes up by one on the same column; curr_x starts at 0. */
  function XState(acts: seq<Strand>): (nat, nat) {
    if |acts| == 0 then (0, 0)
    else
      var n := |acts| - 1;
      var (cx, c) := XState(acts[..n]);
      if acts[n].x == cx then (cx, c + 1) else (acts[n].x, 0)
  }

  /** The strands of acts in column x. */
  function ColCount(acts: seq<Strand>, x: nat): nat {
    if |acts| == 0 then 0
    else
      var n := |acts| - 1;
      ColCount(acts[..n], x) + (if acts[n].x == x then 1 else 0)
  }

  lemma {:induction false} ColCountNone(acts: seq<Strand>, x: nat)
    requires forall m :: 0 <= m < |acts| ==> acts[m].x < x
    ensures ColCount(acts, x) == 0
  {
    if |acts| > 0 {
      ColCountNone(acts[..|acts| - 1], x);
    }
  }

  /**
   * With the action strands in (x, y) order, the `x_count` of action i is the
   * number of earlier action strands in its column, plus one in column 0
   * (curr_x starts at 0, so the first action there already counts as a
   * repeat); and curr_x is the column of the last action.
   */
  lemma {:induction false} XCountRank(acts: seq<Strand>, i: nat)
    requires i < |acts| && SortedBy(ByXY, acts)
    ensures XState(acts[..i + 1]).0 == acts[i].x
    ensures XState(acts[..i + 1]).1 == ColCount(acts[..i], acts[i].x) + (if acts[i].x == 0 then 1 else 0)
  {
    var pre := acts[..i + 1];
    assert pre[..i] == acts[..i];
    if i > 0 {
      XCountRank(acts, i - 1);
      assert acts[..i][..i - 1] == acts[..i - 1];
      assert Leq(ByXY, acts[i - 1], acts[i]);
      if acts[i].x != acts[i - 1].x {
        forall m | 0 <= m < i ensures acts[..i][m].x < acts[i].x {
          assert Leq(ByXY, acts[m], acts[i - 1]) || m == i - 1;
        }
        ColCountNone(acts[..i], acts[i].x);
      }
    }
  }

  /** The indices, in order, of the data tokens in column x: the list the
      attachment loop enumerates. */
  function DataColumn(ts: seq<Token>, x: nat): (r: seq<nat>)
    ensures forall k :: 0 <= k < |r| ==> r[k] < |ts|
  {
    if |ts| == 0 then []
    else
      var n := |ts| - 1;
      DataColumn(ts[..n], x) + (if ts[n].strand.kind == Data && ts[n].strand.x == x then [n] else [])
  }

  /** The column lists exactly the data tokens of column x, in increasing order. */
  lemma {:induction false} DataColumnSpec(ts: seq<Token>, x: nat)
    ensures forall j :: j in DataColumn(ts, x) <==> 0 <= j < |ts| && ts[j].strand.kind == Data && ts[j].strand.x == x
    ensures forall k, l :: 0 <= k < l < |DataColumn(ts, x)| ==> DataColumn(ts, x)[k] < DataColumn(ts, x)[l]
  {
    if |ts| > 0 {
      var n := |ts| - 1;
      DataColumnSpec(ts[..n], x);
    }
  }

  /** Tokens with the same strands have the same columns. */
  lemma {:induction false} DataColumnSame(a: seq<Token>, b: seq<Token>, x: nat)
    requires |a| == |b| && forall i :: 0 <= i < |a| ==> a[i].strand == b[i].strand
    ensures DataColumn(a, x) == DataColumn(b, x)
  {
    if |a| > 0 {
      DataColumnSame(a[..|a| - 1], b[..|b| - 1], x);
    }
  }

  /** The command applies at list level: the data strand is a list, or the action
      strand is a list or list-to-list strand. */
  predicate ListLevel(d: Token, a: Strand) {
    d.strand.subtype == ListStrand || a.subtype == ListStrand || a.subtype == ListToList
  }

  /** The action attached to data token d: at list level a command with a
      `list_name` gives its list name and list note; otherwise the command's
      name and note. A strand with no command, or a list-level command with a
      list name but no list note, is a KeyError. */
  function Choose(d: Token, a: Strand): (r: Result<Attached, Error>)
    ensures r.Err? <==> a.command.None? ||
                        (ListLevel(d, a) && a.command.value.listName.Some? && a.command.value.listNote.None?)
    ensures r.Err? ==> r.error.PythonErr? && r.error.fault.KeyError?
    ensures r.Ok? ==> r.value.strand == a
    ensures r.Ok? && ListLevel(d, a) && a.command.value.listName.Some? ==>
              r.value.command == a.command.value.listName.value && r.value.note == a.command.value.listNote.value
    ensures r.Ok? && !(ListLevel(d, a) && a.command.value.listName.Some?) ==>
              r.value.command == a.command.value.name && r.value.note == a.command.value.note
  {
    if a.command.None? then Err(PythonErr(KeyError("command")))
    else
      var c := a.command.value;
      if ListLevel(d, a) && c.listName.Some? then
        if c.listNote.None? then Err(PythonErr(KeyError("list_note")))
        else Ok(Attached(a, c.listName.value, c.listNote.value))
      else Ok(Attached(a, c.name, c.note))
  }

  /** One pass of the inner loop: the xc-th data token of a's column, if there is
      one, gets a attached. */
  function AttachOne(ts: seq<Token>, a: Strand, xc: nat): (r: Result<seq<Token>, Error>)
    ensures r.Ok? ==> |r.value| == |ts|
    ensures r.Err? ==> r.error.PythonErr? && r.error.fault.KeyError?
  {
    var col := DataColumn(ts, a.x);
    if xc < |col| then
      var j := col[xc];
      var at :- Choose(ts[j], a);
      Ok(ts[j := ts[j].(action := Some(at))])
    else Ok(ts)
  }

  /** The action loop over the action strands acts, in order. */
  function AttachAll(ts: seq<Token>, acts: seq<Strand>): (r: Result<seq<Token>, Error>)
    ensures r.Ok? ==> |r.value| == |ts|
    ensures r.Err? ==> r.error.PythonErr? && r.error.fault.KeyError?
  {
    if |acts| == 0 then Ok(ts)
    else
      var n := |acts| - 1;
      var cur :- AttachAll(ts, acts[..n]);
      AttachOne(cur, acts[n], XState(acts).1)
  }

  /** Attachment changes only the `action` of data tokens. */
  predicate ActionsOnly(a: seq<Token>, b: seq<Token>) {
    |a| == |b| &&
    forall i :: 0 <= i < |a| ==> b[i] == a[i].(action := b[i].action) && (b[i] != a[i] ==> a[i].strand.kind == Data)
  }

  /** The `x_count` of action i. */
  function XCount(acts: seq<Strand>, i: nat): nat
    requires i < |acts|
  {
    XState(acts[..i + 1]).1
  }

  /** Action i is attached to data token j: j is the x_count-th data token of
      the action's column. */
  predicate Targets(ts: seq<Token>, acts: seq<Strand>, i: nat, j: nat)
    requires i < |acts|
  {
    XCount(acts, i) < |DataColumn(ts, acts[i].x)| && DataColumn(ts, acts[i].x)[XCount(acts, i)] == j
  }

  /** One pass of the inner loop changes at most the action of one data token. */
  lemma AttachOneOnlyActions(ts: seq<Token>, a: Strand, xc: nat)
    requires AttachOne(ts, a, xc).Ok?
    ensures ActionsOnly(ts, AttachOne(ts, a, xc).value)
  {
    var col := DataColumn(ts, a.x);
    if xc < |col| {
      DataColumnSpec(ts, a.x);
      assert col[xc] in col;
    }
  }

  lemma ActionsOnlyTrans(a: seq<Token>, b: seq<Token>, c: seq<Token>)
    requires ActionsOnly(a, b) && ActionsOnly(b, c)
    ensures ActionsOnly(a, c)
  {
    forall i | 0 <= i < |a| ensures c[i] == a[i].(action := c[i].action) && (c[i] != a[i] ==> a[i].strand.kind == Data) {
      assert b[i].strand == a[i].strand;
    }
  }

  /** The action loop changes only the actions of data tokens. */
  lemma {:induction false} AttachAllOnlyActions(ts: seq<Token>, acts: seq<Strand>)
    requires AttachAll(ts, acts).Ok?
    ensures ActionsOnly(ts, AttachAll(ts, acts).value)
  {
    if |acts| > 0 {
      var n := |acts| - 1;
      AttachAllOnlyActions(ts, acts[..n]);
      var cur := AttachAll(ts, acts[..n]).value;
      AttachOneOnlyActions(cur, acts[n], XState(acts).1);
      ActionsOnlyTrans(ts, cur, AttachAll(ts, acts).value);
    }
  }

  /** The action a token gets does not depend on its other fields than its strand. */
  lemma ChooseSameStrand(d: Token, e: Token, a: Strand)
    requires d.strand == e.strand
    ensures Choose(d, a) == Choose(e, a)
  {
  }

  /** A later action strand in the same column has a larger x_count. */
  lemma {:induction false} ColCountGrows(acts: seq<Strand>, i: nat, n: nat)
    requires i < n <= |acts|
    ensures ColCount(acts[..i], acts[i].x) < ColCount(acts[..n], acts[i].x)
  {
    assert acts[..n][..n - 1] == acts[..n - 1];
    if n == i + 1 {
      assert acts[..n][n - 1] == acts[i];
    } else {
      ColCountGrows(acts, i, n - 1);
    }
  }

  /** The k-th entry of column x is a data token of that column. */
  lemma DataColumnAt(ts: seq<Token>, x: nat, k: nat)
    requires k < |DataColumn(ts, x)|
    ensures ts[DataColumn(ts, x)[k]].strand.x == x
  {
    DataColumnSpec(ts, x);
    assert DataColumn(ts, x)[k] in DataColumn(ts, x);
  }

  lemma DataColumnIncreasing(ts: seq<Token>, x: nat, k: nat, l: nat)
    requires k < l < |DataColumn(ts, x)|
    ensures DataColumn(ts, x)[k] < DataColumn(ts, x)[l]
  {
    DataColumnSpec(ts, x);
  }

  /** A later action n never targets the token an earlier action i targets: a
      different column holds different data tokens, and in the same column its
      x_count is larger. */
  lemma DistinctTargets(ts: seq<Token>, acts: seq<Strand>, i: nat, n: nat, j: nat)
    requires SortedBy(ByXY, acts) && i < n < |acts|
    ensures Targets(ts, acts, i, j) ==> !Targets(ts, acts, n, j)
  {
    if Targets(ts, acts, i, j) && Targets(ts, acts, n, j) {
      if acts[i].x == acts[n].x {
        XCountRank(acts, i);
        XCountRank(acts, n);
        ColCountGrows(acts, i, n);
        DataColumnIncreasing(ts, acts[i].x, XCount(acts, i), XCount(acts, n));
      } else {
        DataColumnAt(ts, acts[i].x, XCount(acts, i));
        DataColumnAt(ts, acts[n].x, XCount(acts, n));
      }
    }
  }

  /** The last pass of the action loop, after the earlier ones succeeded. */
  lemma AttachAllLast(ts: seq<Token>, acts: seq<Strand>)
    requires |acts| > 0 && AttachAll(ts, acts[..|acts| - 1]).Ok?
    ensures AttachAll(ts, acts) == AttachOne(AttachAll(ts, acts[..|acts| - 1]).value, acts[|acts| - 1], XCount(acts, |acts| - 1))
  {
    assert acts[..|acts|] == acts;
  }

  /** One pass leaves every token but its target as it was, and gives its
      target the action chosen for it. */
  lemma AttachOneAt(ts: seq<Token>, a: Strand, xc: nat, j: nat)
    requires AttachOne(ts, a, xc).Ok? && j < |ts|
    ensures (xc < |DataColumn(ts, a.x)| && DataColumn(ts, a.x)[xc] == j) ==>
              Choose(ts[j], a).Ok? && AttachOne(ts, a, xc).value[j].action == Some(Choose(ts[j], a).value)
    ensures !(xc < |DataColumn(ts, a.x)| && DataColumn(ts, a.x)[xc] == j) ==> AttachOne(ts, a, xc).value[j] == ts[j]
  {
  }

  /** Action i of acts targets the same token in acts as in any longer run. */
  lemma TargetsPrefix(ts: seq<Token>, acts: seq<Strand>, n: nat, i: nat, j: nat)
    requires i < n <= |acts|
    ensures Targets(ts, acts[..n], i, j) == Targets(ts, acts, i, j)
  {
    assert acts[..n][i] == acts[i] && acts[..n][..i + 1] == acts[..i + 1];
  }

  lemma SortedPrefix(k: SortKey, s: seq<Strand>, n: nat)
    requires SortedBy(k, s) && n <= |s|
    ensures SortedBy(k, s[..n])
  {
    forall a, b | 0 <= a < b < n ensures Leq(k, s[..n][a], s[..n][b]) {
      assert s[..n][a] == s[a] && s[..n][b] == s[b];
    }
  }

  /** The action loop keeps every strand, so the columns and the choices stay
      as they were. */
  lemma AttachAllKeeps(ts: seq<Token>, acts: seq<Strand>, j: nat, a: Strand)
    requires AttachAll(ts, acts).Ok? && j < |ts|
    ensures DataColumn(AttachAll(ts, acts).value, a.x) == DataColumn(ts, a.x)
    ensures Choose(AttachAll(ts, acts).value[j], a) == Choose(ts[j], a)
  {
    AttachAllOnlyActions(ts, acts);
    DataColumnSame(ts, AttachAll(ts, acts).value, a.x);
    ChooseSameStrand(AttachAll(ts, acts).value[j], ts[j], a);
  }

  /** The last pass leaves a token it does not target as the earlier passes left it. */
  lemma AttachAllLastElsewhere(ts: seq<Token>, acts: seq<Strand>, j: nat)
    requires |acts| > 0 && AttachAll(ts, acts).Ok? && j < |ts| && !Targets(ts, acts, |acts| - 1, j)
    ensures AttachAll(ts, acts[..|acts| - 1]).Ok?
    ensures AttachAll(ts, acts).value[j] == AttachAll(ts, acts[..|acts| - 1]).value[j]
  {
    var n := |acts| - 1;
    assert AttachAll(ts, acts[..n]).Ok?;
    AttachAllLast(ts, acts);
    AttachAllKeeps(ts, acts[..n], j, acts[n]);
    AttachOneAt(AttachAll(ts, acts[..n]).value, acts[n], XCount(acts, n), j);
  }

  /** The last pass gives the token it targets the action chosen for it. */
  lemma AttachAllLastTarget(ts: seq<Token>, acts: seq<Strand>, j: nat)
    requires |acts| > 0 && AttachAll(ts, acts).Ok? && Targets(ts, acts, |acts| - 1, j)
    ensures j < |ts| && Choose(ts[j], acts[|acts| - 1]).Ok?
    ensures AttachAll(ts, acts).value[j].action == Some(Choose(ts[j], acts[|acts| - 1]).value)
  {
    var n := |acts| - 1;
    assert AttachAll(ts, acts[..n]).Ok?;
    AttachAllLast(ts, acts);
    AttachAllKeeps(ts, acts[..n], j, acts[n]);
    AttachOneAt(AttachAll(ts, acts[..n]).value, acts[n], XCount(acts, n), j);
  }

  /** In (x, y) order the last pass does not overwrite what an earlier action attached. */
  lemma AttachAllKept(ts: seq<Token>, acts: seq<Strand>, i: nat, j: nat)
    requires SortedBy(ByXY, acts) && AttachAll(ts, acts).Ok?
    requires i < |acts| - 1 && Targets(ts, acts, i, j) && j < |ts|
    ensures AttachAll(ts, acts[..|acts| - 1]).Ok?
    ensures AttachAll(ts, acts).value[j] == AttachAll(ts, acts[..|acts| - 1]).value[j]
  {
    DistinctTargets(ts, acts, i, |acts| - 1, j);
    AttachAllLastElsewhere(ts, acts, j);
  }

  /**
   * With the action strands in (x, y) order, every action attaches to the
   * token it targets, and no later action overwrites it: a successful loop
   * leaves on token j the action that action i chose for it.
   */
  lemma {:induction false} AttachAllAttaches(ts: seq<Token>, acts: seq<Strand>, i: nat, j: nat)
    requires SortedBy(ByXY, acts) && AttachAll(ts, acts).Ok?
    requires i < |acts| && Targets(ts, acts, i, j)
    ensures j < |ts| && Choose(ts[j], acts[i]).Ok?
    ensures AttachAll(ts, acts).value[j].action == Some(Choose(ts[j], acts[i]).value)
  {
    var n := |acts| - 1;
    if i == n {
      AttachAllLastTarget(ts, acts, j);
    } else {
      var pre := acts[..n];
      TargetsPrefix(ts, acts, n, i, j);
      SortedPrefix(ByXY, acts, n);
      assert AttachAll(ts, pre).Ok?;
      AttachAllAttaches(ts, pre, i, j);
      assert pre[i] == acts[i];
      AttachAllKept(ts, acts, i, j);
    }
  }

  /** Action i's choice for the token j it targets fails. */
  predicate ChoiceFails(ts: seq<Token>, acts: seq<Strand>, i: nat, j: nat) {
    i < |acts| && j < |ts| && Targets(ts, acts, i, j) && Choose(ts[j], acts[i]).Err?
  }

  lemma ChoiceFailsPrefix(ts: seq<Token>, acts: seq<Strand>, n: nat, i: nat, j: nat)
    requires i < n <= |acts|
    ensures ChoiceFails(ts, acts[..n], i, j) == ChoiceFails(ts, acts, i, j)
  {
    TargetsPrefix(ts, acts, n, i, j);
    assert acts[..n][i] == acts[i];
  }

  /** After the earlier passes succeeded, the last pass fails exactly when the
      last action's choice for its target fails. */
  lemma AttachAllFailsLast(ts: seq<Token>, acts: seq<Strand>)
    requires |acts| > 0 && AttachAll(ts, acts[..|acts| - 1]).Ok?
    ensures AttachAll(ts, acts).Err? <==>
              var col := DataColumn(ts, acts[|acts| - 1].x);
              var xc := XCount(acts, |acts| - 1);
              xc < |col| && Choose(ts[col[xc]], acts[|acts| - 1]).Err?
  {
    var n := |acts| - 1;
    var cur := AttachAll(ts, acts[..n]).value;
    AttachAllLast(ts, acts);
    AttachAllOnlyActions(ts, acts[..n]);
    DataColumnSame(ts, cur, acts[n].x);
    var col := DataColumn(ts, acts[n].x);
    var xc := XCount(acts, n);
    if xc < |col| {
      ChooseSameStrand(cur[col[xc]], ts[col[xc]], acts[n]);
    }
  }

  /** The action loop fails exactly when some action's choice for the token it
      targets fails (a KeyError). */
  lemma {:induction false} AttachAllFails(ts: seq<Token>, acts: seq<Strand>)
    ensures AttachAll(ts, acts).Err? <==> exists i: nat, j: nat :: ChoiceFails(ts, acts, i, j)
  {
    if |acts| > 0 {
      var n := |acts| - 1;
      var pre := acts[..n];
      AttachAllFails(ts, pre);
      if AttachAll(ts, pre).Err? {
        var i: nat, j: nat :| ChoiceFails(ts, pre, i, j);
        ChoiceFailsPrefix(ts, acts, n, i, j);
      } else {
        AttachAllFailsLast(ts, acts);
        var col := DataColumn(ts, acts[n].x);
        var xc := XCount(acts, n);
        if AttachAll(ts, acts).Err? {
          assert ChoiceFails(ts, acts, n, col[xc]);
        } else {
          forall i: nat, j: nat ensures !ChoiceFails(ts, acts, i, j) {
            if i < n {
              ChoiceFailsPrefix(ts, acts, n, i, j);
            } else if i == n && j < |ts| && Targets(ts, acts, n, j) {
              assert j == col[xc];
            }
          }
        }
      }
    }
  }

  /**
   * A token the action loop changes holds an action strand i whose
   * x_count-th data token in its column it is, with the action i chose for it.
   */
  lemma {:induction false} AttachAllTargets(ts: seq<Token>, acts: seq<Strand>)
    requires AttachAll(ts, acts).Ok?
    ensures forall j :: 0 <= j < |ts| && AttachAll(ts, acts).value[j] != ts[j] ==>
              exists i :: 0 <= i < |acts| && Targets(ts, acts, i, j) && Choose(ts[j], acts[i]).Ok? &&
                          AttachAll(ts, acts).value[j].action == Some(Choose(ts[j], acts[i]).value)
  {
    if |acts| > 0 {
      var n := |acts| - 1;
      var pre := acts[..n];
      assert AttachAll(ts, pre).Ok?;
      AttachAllTargets(ts, pre);
      AttachAllOnlyActions(ts, pre);
      AttachAllLast(ts, acts);
      var cur := AttachAll(ts, pre).value;
      var r := AttachAll(ts, acts).value;
      DataColumnSame(ts, cur, acts[n].x);
      forall j | 0 <= j < |ts| && r[j] != ts[j]
        ensures exists i :: 0 <= i < |acts| && Targets(ts, acts, i, j) && Choose(ts[j], acts[i]).Ok? &&
                            r[j].action == Some(Choose(ts[j], acts[i]).value)
      {
        AttachOneAt(cur, acts[n], XCount(acts, n), j);
        if r[j] == cur[j] {
          var i :| 0 <= i < n && Targets(ts, pre, i, j) && Choose(ts[j], pre[i]).Ok? &&
                   cur[j].action == Some(Choose(ts[j], pre[i]).value);
          TargetsPrefix(ts, acts, n, i, j);
          assert pre[i] == acts[i];
        } else {
          ChooseSameStrand(cur[j], ts[j], acts[n]);
          assert Targets(ts, acts, n, j);
        }
      }
    }
  }

  // -------------------------------------------------------------- a glyph

  /** The data strands of a glyph in (x, y) order. */
  function DataInOrder(strands: seq<Strand>): seq<Strand> {
    OfKind(Sort(ByXY, strands), Data)
  }

  /** The question markers of a glyph in y order. */
  function MarkersInOrder(strands: seq<Strand>): seq<Strand> {
    OfKind(Sort(ByY, strands), QuestionMarker)
  }

  /** The action strands of a glyph in (x, y) order. */
  function ActionsInOrder(strands: seq<Strand>): seq<Strand> {
    OfKind(Sort(ByXY, strands), Action)
  }

  /** `_parse_glyphs` for one glyph: number the data, place the markers, resolve
      the refs and attach the actions; the first step that raises aborts. */
  function Organize(primes: seq<nat>, strands: seq<Strand>): (r: Result<seq<Token>, Error>)
  {
    var data :- NumberData(primes, DataInOrder(strands));
    var marks :- Markers(MarkersInOrder(strands), |data|);
    var refs :- ResolveRefs(primes, data + marks, |data + marks|);
    AttachAll(refs, ActionsInOrder(strands))
  }

  /** The data strands come in (x, y) order and are exactly the data strands of
      the glyph; likewise the markers in y order and the actions in (x, y) order. */
  lemma Orders(strands: seq<Strand>)
    ensures SortedBy(ByXY, DataInOrder(strands))
    ensures SortedBy(ByY, MarkersInOrder(strands))
    ensures SortedBy(ByXY, ActionsInOrder(strands))
    ensures forall kind: Kind, t: Strand :: t.kind == kind ==>
              multiset(OfKind(Sort(ByXY, strands), kind))[t] == multiset(strands)[t] &&
              multiset(OfKind(Sort(ByY, strands), kind))[t] == multiset(strands)[t]
  {
    SortSpec(ByXY, strands);
    SortSpec(ByY, strands);
    OfKindSorted(ByXY, Sort(ByXY, strands), Data);
    OfKindSorted(ByY, Sort(ByY, strands), QuestionMarker);
    OfKindSorted(ByXY, Sort(ByXY, strands), Action);
    forall kind: Kind ensures forall t: Strand :: t.kind == kind ==>
              multiset(OfKind(Sort(ByXY, strands), kind))[t] == multiset(strands)[t] &&
              multiset(OfKind(Sort(ByY, strands), kind))[t] == multiset(strands)[t]
    {
      OfKindCount(Sort(ByXY, strands), kind);
      OfKindCount(Sort(ByY, strands), kind);
    }
  }

  /** Token i of an organized glyph, for a data strand: the strand in (x, y)
      order, its order, row prime and cell; its ref cell if it is a ref; at most an
      added action. */
  predicate DataTokenAt(primes: seq<nat>, ds: seq<Strand>, toks: seq<Token>, r: seq<Token>, i: nat)
    requires i < |ds| && i < |toks| && i < |r| && ds[i].y < |primes|
  {
    r[i].strand == ds[i] && r[i].order == i && r[i].list == Some(primes[ds[i].y] as int) &&
    r[i].cell == Some(RowCount(ds[..i], ds[i].y)) && r[i].second.None? &&
    (ds[i].subtype == RefStrand ==> RefCell(primes, toks, ds[i]).Ok? && r[i].refCell == Some(RefCell(primes, toks, ds[i]).value)) &&
    (ds[i].subtype != RefStrand ==> r[i].refCell.None?)
  }

  /**
   * An organized glyph holds its data tokens first, in (x, y) order, numbered
   * 0, 1, 2, ... with their row's prime and per-row cells, each ref token
   * holding its ref cell; then the first question marker, if any, as placed.
   * Every token's order is its position.
   */
  lemma OrganizeSpec(primes: seq<nat>, strands: seq<Strand>)
    requires Organize(primes, strands).Ok?
    ensures var ds := DataInOrder(strands);
            var r := Organize(primes, strands).value;
            NumberData(primes, ds).Ok? &&
            |r| == |ds| + (if |MarkersInOrder(strands)| == 0 then 0 else 1) &&
            (forall i :: 0 <= i < |r| ==> r[i].order == i) &&
            (forall i :: 0 <= i < |ds| ==>
               ds[i].y < |primes| && DataTokenAt(primes, ds, NumberData(primes, ds).value + Markers(MarkersInOrder(strands), |ds|).value, r, i)) &&
            (|MarkersInOrder(strands)| > 0 ==> r[|ds|] == Markers(MarkersInOrder(strands), |ds|).value[0])
  {
    OrganizeOrders(primes, strands);
    OrganizeData(primes, strands);
    if |MarkersInOrder(strands)| > 0 {
      OrganizeMarker(primes, strands);
    }
  }

  /** The token after the data tokens of an organized glyph is the first question
      marker as placed: the ref loop and the action loop leave it alone. */
  lemma OrganizeMarker(primes: seq<nat>, strands: seq<Strand>)
    requires Organize(primes, strands).Ok? && |MarkersInOrder(strands)| > 0
    ensures var ds := DataInOrder(strands);
            var r := Organize(primes, strands).value;
            Markers(MarkersInOrder(strands), |ds|).Ok? && |ds| < |r| &&
            r[|ds|] == Markers(MarkersInOrder(strands), |ds|).value[0]
  {
    var ds := DataInOrder(strands);
    var qs := MarkersInOrder(strands);
    OrganizeLength(primes, strands);
    var data := NumberData(primes, ds).value;
    var marks := Markers(qs, |data|).value;
    var toks := data + marks;
    ResolveRefsSpec(primes, toks, |toks|);
    var refs := ResolveRefs(primes, toks, |toks|).value;
    AttachAllOnlyActions(refs, ActionsInOrder(strands));
    OfKindCount(Sort(ByY, strands), QuestionMarker);
    assert qs[0] in multiset(qs);
    assert toks[|ds|] == marks[0];
  }

  /** The ref loop and the action loop keep the strands of the numbered tokens. */
  lemma OrganizeStrands(primes: seq<nat>, strands: seq<Strand>, j: nat, a: Strand)
    requires Organize(primes, strands).Ok? && j < |DataInOrder(strands)|
    ensures var ds := DataInOrder(strands);
            var data := NumberData(primes, ds).value;
            var toks := data + Markers(MarkersInOrder(strands), |data|).value;
            var refs := ResolveRefs(primes, toks, |toks|).value;
            NumberData(primes, ds).Ok? && Markers(MarkersInOrder(strands), |data|).Ok? &&
            ResolveRefs(primes, toks, |toks|).Ok? && Organize(primes, strands) == AttachAll(refs, ActionsInOrder(strands)) &&
            j < |data| == |ds| && refs[j] == data[j].(refCell := refs[j].refCell) && data[j].action.None? &&
            DataColumn(Organize(primes, strands).value, a.x) == DataColumn(refs, a.x)
  {
    var ds := DataInOrder(strands);
    NumberDataSpec(primes, ds);
    var data := NumberData(primes, ds).value;
    var toks := data + Markers(MarkersInOrder(strands), |data|).value;
    ResolveRefsSpec(primes, toks, |toks|);
    var refs := ResolveRefs(primes, toks, |toks|).value;
    assert NumberedAt(primes, ds, data, j);
    assert toks[j] == data[j];
    AttachAllOnlyActions(refs, ActionsInOrder(strands));
    DataColumnSame(refs, Organize(primes, strands).value, a.x);
  }

  /** The action strands of a glyph come in (x, y) order. */
  lemma ActionsSorted(strands: seq<Strand>)
    ensures SortedBy(ByXY, ActionsInOrder(strands))
  {
    SortSpec(ByXY, strands);
    OfKindSorted(ByXY, Sort(ByXY, strands), Action);
  }

  /** A data token that action i of the glyph targets holds the action chosen
      for it from action i. */
  lemma OrganizeAttaches(primes: seq<nat>, strands: seq<Strand>, i: nat, j: nat)
    requires Organize(primes, strands).Ok? && j < |DataInOrder(strands)|
    requires i < |ActionsInOrder(strands)| && Targets(Organize(primes, strands).value, ActionsInOrder(strands), i, j)
    ensures var r := Organize(primes, strands).value;
            var a := ActionsInOrder(strands)[i];
            j < |r| && Choose(r[j], a).Ok? && r[j].action == Some(Choose(r[j], a).value)
  {
    var acts := ActionsInOrder(strands);
    var ds := DataInOrder(strands);
    var data := NumberData(primes, ds).value;
    var toks := data + Markers(MarkersInOrder(strands), |data|).value;
    OrganizeStrands(primes, strands, j, acts[i]);
    var refs := ResolveRefs(primes, toks, |toks|).value;
    ActionsSorted(strands);
    assert AttachAll(refs, acts).Ok?;
    assert Targets(refs, acts, i, j);
    AttachAllAttaches(refs, acts, i, j);
    AttachAllKeeps(refs, acts, j, acts[i]);
  }

  /** A data token that no action of the glyph targets holds no action. */
  lemma OrganizeUnattached(primes: seq<nat>, strands: seq<Strand>, j: nat)
    requires Organize(primes, strands).Ok? && j < |DataInOrder(strands)|
    requires forall i :: 0 <= i < |ActionsInOrder(strands)| ==> !Targets(Organize(primes, strands).value, ActionsInOrder(strands), i, j)
    ensures j < |Organize(primes, strands).value| && Organize(primes, strands).value[j].action.None?
  {
    var acts := ActionsInOrder(strands);
    var ds := DataInOrder(strands);
    var data := NumberData(primes, ds).value;
    var toks := data + Markers(MarkersInOrder(strands), |data|).value;
    OrganizeStrands(primes, strands, j, ds[j]);
    var refs := ResolveRefs(primes, toks, |toks|).value;
    var r := Organize(primes, strands).value;
    AttachAllTargets(refs, acts);
    if r[j] != refs[j] {
      var i :| 0 <= i < |acts| && Targets(refs, acts, i, j) && Choose(refs[j], acts[i]).Ok? &&
               r[j].action == Some(Choose(refs[j], acts[i]).value);
      OrganizeStrands(primes, strands, j, acts[i]);
      assert Targets(r, acts, i, j);
    }
  }

  /**
   * The actions of an organized glyph: a data token that an action of the glyph
   * targets holds the action chosen for it from that action, and a data token
   * that no action targets holds none.
   */
  lemma OrganizeActions(primes: seq<nat>, strands: seq<Strand>, j: nat)
    requires Organize(primes, strands).Ok? && j < |DataInOrder(strands)|
    ensures var r := Organize(primes, strands).value;
            var acts := ActionsInOrder(strands);
            j < |r| &&
            (forall i :: 0 <= i < |acts| && Targets(r, acts, i, j) ==>
               Choose(r[j], acts[i]).Ok? && r[j].action == Some(Choose(r[j], acts[i]).value)) &&
            ((forall i :: 0 <= i < |acts| ==> !Targets(r, acts, i, j)) ==> r[j].action.None?)
  {
    OrganizeLength(primes, strands);
    var acts := ActionsInOrder(strands);
    forall i | 0 <= i < |acts| && Targets(Organize(primes, strands).value, acts, i, j)
      ensures Choose(Organize(primes, strands).value[j], acts[i]).Ok? &&
              Organize(primes, strands).value[j].action == Some(Choose(Organize(primes, strands).value[j], acts[i]).value)
    {
      OrganizeAttaches(primes, strands, i, j);
    }
    if forall i :: 0 <= i < |acts| ==> !Targets(Organize(primes, strands).value, acts, i, j) {
      OrganizeUnattached(primes, strands, j);
    }
  }

  /** The tokens of an organized glyph: the data tokens and at most one marker. */
  lemma OrganizeLength(primes: seq<nat>, strands: seq<Strand>)
    requires Organize(primes, strands).Ok?
    ensures NumberData(primes, DataInOrder(strands)).Ok?
    ensures |Organize(primes, strands).value| == |DataInOrder(strands)| + (if |MarkersInOrder(strands)| == 0 then 0 else 1)
  {
    NumberDataSpec(primes, DataInOrder(strands));
  }

  /** Token i of an organized glyph is numbered i. */
  lemma OrganizeOrderAt(primes: seq<nat>, strands: seq<Strand>, i: nat)
    requires Organize(primes, strands).Ok? && i < |Organize(primes, strands).value|
    ensures Organize(primes, strands).value[i].order == i
  {
    var ds := DataInOrder(strands);
    var qs := MarkersInOrder(strands);
    OrganizeLength(primes, strands);
    var data := NumberData(primes, ds).value;
    var marks := Markers(qs, |data|).value;
    var toks := data + marks;
    ResolveRefsOrder(primes, toks, i);
    var refs := ResolveRefs(primes, toks, |toks|).value;
    AttachAllOnlyActions(refs, ActionsInOrder(strands));
    if i < |ds| {
      NumberDataSpec(primes, ds);
      assert NumberedAt(primes, ds, data, i);
      assert toks[i] == data[i];
    } else {
      assert toks[i] == marks[0];
    }
  }

  /** Every token of an organized glyph is numbered with its position. */
  lemma OrganizeOrders(primes: seq<nat>, strands: seq<Strand>)
    requires Organize(primes, strands).Ok?
    ensures var ds := DataInOrder(strands);
            var r := Organize(primes, strands).value;
            NumberData(primes, ds).Ok? &&
            |r| == |ds| + (if |MarkersInOrder(strands)| == 0 then 0 else 1) &&
            (forall i :: 0 <= i < |r| ==> r[i].order == i)
  {
    OrganizeLength(primes, strands);
    var r := Organize(primes, strands).value;
    forall i | 0 <= i < |r| ensures r[i].order == i {
      OrganizeOrderAt(primes, strands, i);
    }
  }

  /** The data tokens of an organized glyph, in (x, y) order, as numbered, each
      ref token holding its ref cell. */
  lemma OrganizeData(primes: seq<nat>, strands: seq<Strand>)
    requires Organize(primes, strands).Ok?
    ensures var ds := DataInOrder(strands);
            var r := Organize(primes, strands).value;
            NumberData(primes, ds).Ok? && |ds| <= |r| &&
            (forall i :: 0 <= i < |ds| ==>
               ds[i].y < |primes| && DataTokenAt(primes, ds, NumberData(primes, ds).value + Markers(MarkersInOrder(strands), |ds|).value, r, i))
  {
    var ds := DataInOrder(strands);
    var qs := MarkersInOrder(strands);
    NumberDataSpec(primes, ds);
    var data := NumberData(primes, ds).value;
    var marks := Markers(qs, |data|).value;
    var toks := data + marks;
    ResolveRefsSpec(primes, toks, |toks|);
    var refs := ResolveRefs(primes, toks, |toks|).value;
    AttachAllOnlyActions(refs, ActionsInOrder(strands));
    var r := Organize(primes, strands).value;
    forall i | 0 <= i < |ds|
      ensures ds[i].y < |primes| && DataTokenAt(primes, ds, toks, r, i)
    {
      assert NumberedAt(primes, ds, data, i);
      assert toks[i] == data[i];
    }
  }

  /** A lexed glyph: its level and grid, and the strands `_lex_glyph` returned. */
  datatype LexedGlyph = LexedGlyph(level: nat, grid: Grid, strands: seq<Strand>)

  /** `_parse_glyphs`: organize every glyph in turn. */
  function ParseGlyphs(primes: seq<nat>, gs: seq<LexedGlyph>): (r: Result<seq<ParsedGlyph>, Error>)
    ensures r.Ok? ==> |r.value| == |gs|
  {
    if |gs| == 0 then Ok([])
    else
      var n := |gs| - 1;
      var prev :- ParseGlyphs(primes, gs[..n]);
      var toks :- Organize(primes, gs[n].strands);
      Ok(prev + [ParsedGlyph(gs[n].level, gs[n].grid, toks)])
  }

  /** Glyph g organizes. */
  predicate Organizes(primes: seq<nat>, g: LexedGlyph) {
    Organize(primes, g.strands).Ok?
  }

  /** p is glyph g with its organized tokens. */
  predicate OrganizedAs(primes: seq<nat>, g: LexedGlyph, p: ParsedGlyph) {
    Organize(primes, g.strands) == Ok(p.tokens) && p.level == g.level && p.grid == g.grid
  }

  /** ParseGlyphs succeeds exactly when every glyph organizes, and then keeps each
      glyph's level and grid with its organized tokens. */
  lemma {:induction false} ParseGlyphsExact(primes: seq<nat>, gs: seq<LexedGlyph>)
    ensures ParseGlyphs(primes, gs).Ok? <==> forall i :: 0 <= i < |gs| ==> Organizes(primes, gs[i])
    ensures ParseGlyphs(primes, gs).Ok? ==>
              forall i :: 0 <= i < |gs| ==> OrganizedAs(primes, gs[i], ParseGlyphs(primes, gs).value[i])
  {
    if |gs| > 0 {
      var n := |gs| - 1;
      var pre := gs[..n];
      ParseGlyphsExact(primes, pre);
      assert forall i :: 0 <= i < n ==> pre[i] == gs[i];
      var r := ParseGlyphs(primes, gs);
      if r.Ok? {
        var prev := ParseGlyphs(primes, pre).value;
        var last := Organize(primes, gs[n].strands);
        assert last.Ok? && r.value == prev + [ParsedGlyph(gs[n].level, gs[n].grid, last.value)];
        forall i | 0 <= i < |gs| ensures OrganizedAs(primes, gs[i], r.value[i]) {
          if i < n {
            assert r.value[i] == prev[i];
          } else {
            assert gs[i] == gs[n] && r.value[i] == ParsedGlyph(gs[n].level, gs[n].grid, last.value);
          }
        }
      }
    }
  }
}
