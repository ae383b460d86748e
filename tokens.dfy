/**
 * The records the parser builds: strands traced out of a glyph, the tokens they
 * become once organized, and the located and extracted glyphs.
 */
module Tokens {
  import opened Wrappers
  import opened Symbols
  import opened Grids

  datatype Point = Point(x: nat, y: nat)

  /** The `subtype` a strand is given; `Unset` until the strand is classified. */
  datatype Subtype =
    | Unset
    | ValueStrand
    | RefStrand
    | ListStrand
    | ElementStrand
    | ListToList
    | FirstMarker
    | SecondMarker

  /**
   * One strand, as the dict `_check_is_start` creates and `_interpret_strand`,
   * `_mark_end` fill in: where it starts and which way it points, its kind, the
   * two prime sums, its classification, where it ended (`end_x`/`end_y`), and the
   * command an action strand looked up.
   */
  datatype Strand = Strand(
    name: string,
    symbol: seq<char>,
    x: nat,
    y: nat,
    dir: Dir,
    kind: Kind,
    value: Option<int>,
    vertValue: Option<int>,
    subtype: Subtype,
    endAt: Option<Point>,
    command: Option<Command>)

  /** The strand fields that no step of tracing changes. */
  predicate SameOrigin(a: Strand, b: Strand) {
    a.name == b.name && a.symbol == b.symbol && a.x == b.x && a.y == b.y &&
    a.dir == b.dir && a.kind == b.kind
  }

  /** An action strand attached to a data token, with the command name and note chosen for it. */
  datatype Attached = Attached(strand: Strand, command: string, note: string)

  /**
   * A strand after `_parse_glyphs`: its run `order`, the prime of its row (`list`),
   * its `assign_to_cell`, its `ref_cell`, the attached action, and for the first
   * question marker the `second` one.
   */
  datatype Token = Token(
    strand: Strand,
    order: nat,
    list: Option<int>,
    cell: Option<nat>,
    refCell: Option<(int, nat)>,
    action: Option<Attached>,
    second: Option<Strand>)

  /** A Start marker found by the locator, with its nesting level. */
  datatype StartMark = StartMark(x: nat, y: nat, level: nat)

  /** A Start marker paired with its End marker. */
  datatype GlyphLoc = GlyphLoc(start: Point, end: Point, level: nat)

  /** A glyph cut out of the program, Start and End cells blanked. */
  datatype Glyph = Glyph(level: nat, grid: Grid)

  /** A glyph with its organized tokens: one entry of the parse tree. */
  datatype ParsedGlyph = ParsedGlyph(level: nat, grid: Grid, tokens: seq<Token>)
}
