# Rivulet parser, modelled in Dafny

Rivulet is an esoteric language whose programs are drawings. A program is a
grid of box-drawing characters. It holds one or more *glyphs*, rectangular
blocks each opened by a Start symbol (stacked Starts give its nesting level)
at the top left and closed by an End symbol at the bottom right. Inside a
glyph, *strands* run from a hook-shaped start symbol through continue and
corner symbols to an end or location marker. A strand's course encodes a
number: each straight horizontal step adds or subtracts the prime of its row,
and each vertical step adds or subtracts a prime picked by its distance from
the strand's start column.

The parser (`riv_parser.py`) turns the text of a program into a parse tree.
It works in these steps:

- It cuts the text into rows and trims a blank first and last row.
- It locates every glyph by pairing each Start marker with the first unused
  End marker that closes a box with it.
- It cuts each glyph out of the program and blanks its Start and End cells.
- It loads a table of primes as long as the largest glyph dimension.
- It lexes each glyph: it finds every strand start and traces each strand to
  its end. The trace sums the primes along the way, then classifies the strand:
  - a data strand becomes a value or a ref;
  - an action strand becomes an element, list or list-to-list strand and looks
    up its command by its vertical value;
  - a question marker records where it ended.
- It organizes each glyph's strands into tokens in run order:
  - data tokens are numbered in (x, y) order with their row's prime and a
    per-row cell;
  - the question markers are checked, and the first runs last;
  - ref tokens find their reference cell;
  - each action is attached to a data token of its column.

The model follows the code's own structure:

- The lexicon of symbols and the command table are immutable parameters (module
  `Symbols`).
- Strands, tokens and glyph locations are datatypes (`Tokens`).
- Each pure computation is a function with its properties proved as lemmas:
  `Grids`, `Lines`, `Primes`, `Extract`, `Locator`, `Lexer` and `Organizer`.
- The loops of the `Parser` class are methods of a Dafny `class Parser`
  (`RivParser`). The class holds the two tables and the mutable `primes`
  field. Each method is proved to compute the function that describes its
  loop.
- Every error the source can raise is an explicit error value:
  `RivuletSyntaxError`, `InternalError`, and the Python `IndexError`,
  `KeyError`, `TypeError` and `ValueError` the code can trip over.

## Model

| member | source | states |
|---|---|---|
| Symbols.Opposite | riv_parser.py:14-19 | the opposite of a direction differs from it and lies on the same axis |
| Symbols.OppositeInvolution | riv_parser.py:14-19 | taking the opposite twice gives the direction back |
| Symbols.LettersWithSpec | riv_parser.py:107 | the lexicon filter keeps exactly the letters drawn with the character, and its first entry is the first such letter of the lexicon |
| Symbols.SymbolsNamed | riv_parser.py:39-47 | a character is in the result exactly when some letter with that name draws it |
| Symbols.LastWithPos | riv_parser.py:182-184 | the readings dict maps a position to a reading with that position after which no other reading has it: the last one wins |
| Symbols.KeyRoundTrip | riv_parser.py:278 | `str(vert_value)` reads back as the vertical value, so distinct vertical values look up distinct command-table entries |
| Grids.GetNeighbor | riv_parser.py:50-68 | None exactly when the step leaves the grid over the top, left, bottom or right edge; otherwise the neighbouring cell with its coordinates; an IndexError only when a ragged row lacks the cell, never on a rectangular grid |
| Grids.MaxWidth | riv_parser.py:290 | the longest row length: no row is longer, some row has it, 0 for no rows |
| Grids.Pad | riv_parser.py:290 | padding keeps the number of rows and makes every row the same length |
| Grids.PadCells | riv_parser.py:290 | every padded row is as long as the longest row; it keeps the original cells and has spaces beyond them |
| Primes.TrialIsPrimality | riv_parser.py:381 | trial division by 2 up to the square root passes exactly for the primes |
| Primes.SieveSpec | riv_parser.py:380-384 | the candidate loop, run from any state it maintains, ends with 1 followed by increasing primes below the limit that skip none, at most `count` long, and short only when every prime below the limit is in it |
| Primes.PrimeTableSpec | riv_parser.py:373-384 | the table is 1 followed by strictly increasing primes below count squared; it skips no prime below its last entry, and holds at most `count` entries (one when count ≤ 1) |
| Primes.PrimeCount | riv_parser.py:376-379 | the largest height or first-row width over the glyphs, bounding all and reached by one; a TypeError for no glyphs and an IndexError for a glyph with no rows |
| Lines.SplitLinesClean | riv_parser.py:507 | no line of `splitlines` holds a line boundary |
| Lines.SplitTerminated | riv_parser.py:507 | splitting boundary-free lines joined with line feeds gives back exactly those lines |
| Extract.RemoveBlankLines | riv_parser.py:387-393 | an IndexError exactly for no rows or a single blank row |
| Extract.RemoveBlankLinesTrims | riv_parser.py:387-393 | the result is the program without its first row exactly when that row is blank, and without its last row exactly when that one is blank; nothing else changes |
| Extract.PySliceWithin | riv_parser.py:401-402 | within bounds a Python slice is the subsequence |
| Extract.PySliceCells | riv_parser.py:401-402 | with non-negative bounds a Python slice holds the cells from `a` up to `b` or the end, clamped |
| Extract.BlankStart | riv_parser.py:405-406 | blanking `level` cells of row 0 succeeds exactly when the level is 0 or row 0 has that many cells |
| Extract.BlankStartCells | riv_parser.py:405-406 | exactly the first `level` cells of row 0 become spaces; every other cell and every row length is unchanged |
| Extract.BlankEnd | riv_parser.py:407 | `glyph[-1][-1] = ' '` succeeds exactly when the last row exists and is not empty |
| Extract.BlankEndCells | riv_parser.py:407 | exactly the last cell of the last row becomes a space |
| Extract.PrepareAllExact | riv_parser.py:396-411 | preparation succeeds exactly when every location cuts, and then gives the cut glyphs in location order |
| Extract.LocatedBoxed | riv_parser.py:348-358 | a located pair has the box geometry cutting relies on: the End is right of and below the Start inside the program, and the level counts the stacked Starts |
| Extract.IsolateCells | riv_parser.py:401-402 | every cell of an isolated glyph is the program's cell at the same offset from the glyph's first column |
| Extract.IsolateBoxed | riv_parser.py:401-402 | a boxed glyph isolates to the rows from its Start's to its End's; row 0 reaches past the stacked Starts and the last row ends at the End |
| Extract.CutBoxed | riv_parser.py:400-409 | a boxed glyph cuts without error; it keeps its level and spans the Start row through the End row. Its first `level` cells and End cell are blanked, and every other cell is the program's |
| Extract.PrepareLocated | riv_parser.py:396-411 | located glyphs all cut, each with its location's level and at least two rows |
| Locator.IndicesBelow | riv_parser.py:11 | every listed index is below n and holds the value |
| Locator.IndicesBelowComplete | riv_parser.py:11 | every index below n holding the value is listed |
| Locator.CharsInList | riv_parser.py:8-12 | every result is an index of list2 |
| Locator.CharsInListSound | riv_parser.py:8-12 | every listed index of list2 holds a value of list1 |
| Locator.CharsInListComplete | riv_parser.py:8-12 | every index of list2 whose value is in list1 is listed |
| Locator.RunLeftMaximal | riv_parser.py:331-337 | the level walk counts the longest run of Start symbols just left of the Start: all of it Start symbols, the cell before it not |
| Locator.RowStartsSound | riv_parser.py:327-338 | each Start found on a row is a Start marker of that row with its level |
| Locator.RowStartsComplete | riv_parser.py:327-338 | every candidate column meeting the Start rules gives its marker |
| Locator.RowEndsSound | riv_parser.py:339-341 | each End found on a row is an End symbol nothing continues into |
| Locator.RowEndsComplete | riv_parser.py:339-341 | every candidate column meeting the End rules is found |
| Locator.StartsUpToSound | riv_parser.py:326-338 | every Start collected is a Start symbol that is not a row's last cell, has no Start to its right and no continuation above or below, with its level |
| Locator.StartsUpToComplete | riv_parser.py:326-338 | every Start symbol meeting those rules is collected |
| Locator.EndsUpToSound | riv_parser.py:326-341 | every End collected is an End symbol with no continuation above or below |
| Locator.EndsUpToComplete | riv_parser.py:326-341 | every End symbol meeting that rule is collected |
| Locator.LeftoverSpec | riv_parser.py:346 | the candidate list holds exactly the ends not used yet |
| Locator.FirstFitSpec | riv_parser.py:346-364 | no end is found exactly when no candidate closes the box; otherwise the first candidate that closes it is found |
| Locator.MatchStarts | riv_parser.py:343-366 | on success one pair and one used end per start; on failure a no-matching-end syntax error |
| Locator.MatchStartsGreedy | riv_parser.py:343-366 | a successful pairing joins start i, with its level, to the first end unused by the pairs before it that closes its box |
| Locator.MatchStartsFails | riv_parser.py:365-366 | on failure the error names a start whose predecessors were paired and which no unused end closes |
| Locator.GreedyPairsSound | riv_parser.py:343-366 | the ends paired are program ends, pairwise distinct, each right of and below its start and closing its box |
| Locator.CheckLeftover | riv_parser.py:367-369 | passes exactly when the counts agree; a syntax error names the sole unused end |
| Locator.AllEndsUsed | riv_parser.py:367-369 | for distinct used ends, passing the count check means every end was used, and a single unused end is the one reported |
| Locator.LocatePairs | riv_parser.py:313-370 | on success one location per Start marker, in the order found, each joining a Start marker with its level to an End marker right of and below it that closes the box |
| Locator.LocateUsesEveryEnd | riv_parser.py:313-370 | on success no End is used twice and every End marker is used |
| Locator.LocateNoMatchingEnd | riv_parser.py:365-366 | a no-matching-end error names a Start marker that no End marker left unused by the earlier starts can close |
| Locator.LocateNoCorrespondingStart | riv_parser.py:367-369 | a no-corresponding-start error comes after every start was paired, and names an End marker that is the only unused one |
| Lexer.PointsBackSpec | riv_parser.py:298-310 | `_has_continuation` holds exactly when the neighbour is a cell of the glyph, some letter draws it, and the first such letter has a reading pointing back; an edge, a caught IndexError on a ragged row and an undrawn symbol all read as false. The end test at riv_parser.py:215-236 reuses it through `EndsHere`, where an off-grid next cell also counts as not continuing |
| Lexer.CountTowardSpec | riv_parser.py:308 | the count of readings going in a direction is non-zero exactly when some reading goes that way |
| Lexer.ConnectingDirs | riv_parser.py:85-100 | a direction is kept exactly when it is in the list and the neighbour there has a non-pre_start reading pointing back |
| Lexer.PassingReadings | riv_parser.py:77-80 | keeps exactly the corner, continue and question-marker readings; the first kept is the first such reading |
| Lexer.SuccessfulMatches | riv_parser.py:71-102 | None exactly when no reading is a corner, continue or question marker; otherwise the directions of the first such reading that connect to their neighbour |
| Lexer.StartReadingsFor | riv_parser.py:125-127 | keeps exactly the start readings whose direction list is that one direction |
| Lexer.CheckIsStart | riv_parser.py:105-144 | a cell whose first letter has no start reading, or a character outside the lexicon, starts nothing. With a start reading: no reading to pass on from is the TypeError of `len(None)`; zero or several connecting directions start nothing; exactly one, d, gives the untraced strand at the cell heading d with the kind of the one start reading pointing along d, and any other number of such readings is an internal error |
| Lexer.ScanRowOk | riv_parser.py:150-153 | a row scan fails exactly when one of its cell checks fails |
| Lexer.ScanRowSound | riv_parser.py:150-153 | a row scan lists, left to right, only strands checked at their own cell |
| Lexer.ScanRowComplete | riv_parser.py:150-153 | a row scan lists every strand its checks accepted |
| Lexer.ScanRowsOk | riv_parser.py:147-154 | the scan of all rows fails exactly when some check fails |
| Lexer.ScanRowsSound | riv_parser.py:147-154 | the scan of all rows lists, row by row, only strands accepted at their cell |
| Lexer.ScanRowsComplete | riv_parser.py:147-154 | the scan of all rows lists every accepted strand |
| Lexer.StrandStartsOk | riv_parser.py:147-154 | `_find_strand_starts` fails exactly when some cell check fails |
| Lexer.StrandStartsSound | riv_parser.py:147-154 | it lists, in row-major order, only untraced strands accepted at their cell |
| Lexer.StrandStartsComplete | riv_parser.py:147-154 | it lists every strand a cell check accepts |
| Lexer.StrandStartsExact | riv_parser.py:147-154 | it succeeds exactly when every check does, and then lists exactly the accepted strands, in row-major order |
| Lexer.OtherDirs | riv_parser.py:190 | `set(dirs) - {back}`: the other directions of the list, each once |
| Lexer.NextDir | riv_parser.py:186-193 | the strand goes on only from a continue or corner symbol whose last reading points back, in the one other direction. Any number of other directions but one is an internal error; at any other symbol, or one whose last reading does not point back, it does not go on |
| Lexer.Advance | riv_parser.py:166-246 | the next cell is one step on and inside the glyph; the walk goes on from a continue or corner symbol in a known direction, and stops only on an end or location marker that passes the end test |
| Lexer.AdvanceNoReading | riv_parser.py:246 | a symbol that can neither carry the strand on nor end it is a syntax error at that cell |
| Lexer.AdvanceSideEntry | riv_parser.py:186-246 | a strand entering a continue or corner symbol from a side its last reading does not list, where the symbol has no end or loc_marker reading, is the RivuletSyntaxError at that cell |
| Lexer.AdvanceErrors | riv_parser.py:172-179 | stepping off the glyph is a Python error; a blank or unknown symbol, or one drawn by two letters, is an internal error |
| Lexer.FloorHalf | riv_parser.py:211 | the floor of n / 2 for negative n too |
| Lexer.Accumulate | riv_parser.py:196-213 | a step right or left adds or subtracts the row's prime to `value`; a step down or up adds or subtracts the prime indexed by half the distance from the start column to `vert_value`. A missing sum counts as 0, the other sum is kept, and an index past the table is an IndexError |
| Lexer.MarkEnd | riv_parser.py:249-282 | a question marker records its end and forgets both sums. A data strand is a ref (ending at a facing location marker) or a value. An action strand takes the command of its vertical value (a KeyError when missing) and is list-to-list at a facing location marker, else list or element by its last direction |
| Lexer.MarkEndClassified | riv_parser.py:249-282 | `_mark_end` always leaves a classification the strand's kind allows |
| Lexer.MarkEndCommand | riv_parser.py:269-278 | an action strand carries the command-table entry of its vertical value |
| Lexer.Interpret | riv_parser.py:157-246 | tracing keeps the strand's origin, direction and kind |
| Lexer.InterpretCons | riv_parser.py:237-244 | a successful trace reaches the next cell and updates its sums there; it either ends there with `_mark_end` or is the trace from that cell onward |
| Lexer.InterpretReplays | riv_parser.py:157-246 | a successful trace walks a path, and its outcome is the path's sums and classification replayed over that path |
| Lexer.InterpretClassified | riv_parser.py:157-282 | every traced strand ends with a classification its kind allows |
| Lexer.InterpretCommand | riv_parser.py:269-278 | every traced action strand carries the command of its vertical value |
| Lexer.ReplayValue | riv_parser.py:196-207 | a value strand's `value` is the sum of the horizontal steps along its path, None if no continue step was counted |
| Lexer.ReplayVertValue | riv_parser.py:209-213 | an action strand's `vert_value` is the sum of the vertical steps along its path, None if none was counted |
| Lexer.TraceSums | riv_parser.py:196-213 | a traced value strand's `value` and an action strand's `vert_value` are the sums over the cells it walked |
| Lexer.HDeltaOneRow | riv_parser.py:204-207 | a strand running along one row has value `primes[y]` times (steps right − steps left) |
| Lexer.TraceAll | riv_parser.py:293-294 | on success one traced strand per start |
| Lexer.TraceAllExact | riv_parser.py:293-294 | tracing succeeds exactly when every start traces, and gives each start's trace in order |
| Lexer.TracedStart | riv_parser.py:292-294 | a strand traced from an accepted start keeps that start and ends classified |
| Lexer.LexedStrands | riv_parser.py:285-295 | `_lex_glyph` gives one strand per accepted start of the padded glyph, in row-major order, each traced from its start and classified |
| Organizer.SortSpec | riv_parser.py:431-432 | `sorted` returns its input reordered into key order |
| Organizer.SortKeepsSorted | riv_parser.py:431-432 | the sort is stable: input already in key order is unchanged |
| Organizer.RowMajorSortedByY | riv_parser.py:446-448 | strands lexed row by row keep their order when sorted by y |
| Organizer.OfKindCount | riv_parser.py:433-434 | the type filter keeps each strand of that kind as often as it occurs, and no others |
| Organizer.OfKindSorted | riv_parser.py:433-434 | the type filter keeps key order |
| Organizer.Orders | riv_parser.py:430-477 | data and actions come in (x, y) order and markers in y order, each exactly the glyph's strands of that kind |
| Organizer.NumberData | riv_parser.py:430-442 | on success one token per data strand |
| Organizer.NumberDataSpec | riv_parser.py:430-442 | succeeds exactly when every data row has a prime; token i is strand i with order i, its row's prime as list, and the count of earlier strands on its row as its cell |
| Organizer.RowCells | riv_parser.py:439-440 | cells in a row run upwards: a later strand on the row has a larger cell, all below the row's strand count |
| Organizer.Markers | riv_parser.py:446-462 | succeeds exactly with at most two markers, the second starting where the first ends. On success it appends the first marker, numbered after the data and holding the second. A misplaced second marker is reported before a third marker |
| Organizer.MinCell | riv_parser.py:470 | `min` of the cells: no cell is smaller and one equals it |
| Organizer.ResolveRefsSpec | riv_parser.py:465-470 | succeeds exactly when every ref token's reference resolves; then each ref token holds its ref cell and nothing else changes |
| Organizer.ResolveRefsOrder | riv_parser.py:465-470 | the ref loop keeps every token's run order |
| Organizer.RefCellIsZeroOrOne | riv_parser.py:466-470 | a ref cell's index is 1 when a data strand starts on the end row left of the end, else 0 |
| Organizer.XCountRank | riv_parser.py:474-484 | the `x_count` of action i is the number of earlier actions in its column, plus one in column 0 |
| Organizer.DataColumnSpec | riv_parser.py:485-486 | the enumerated list is exactly the data tokens of the column, in increasing order |
| Organizer.Choose | riv_parser.py:491-496 | at list level a command with a list name gives its list name and note, otherwise its name and note. A missing command or list note is a KeyError |
| Organizer.AttachAllOnlyActions | riv_parser.py:474-496 | the action loop changes only the action of data tokens |
| Organizer.AttachAllTargets | riv_parser.py:474-496 | a token the action loop changes is the x_count-th data token of some action i's column, and holds the action chosen for it from action i |
| Organizer.DistinctTargets | riv_parser.py:474-486 | with the actions in (x, y) order, two actions never target the same data token |
| Organizer.AttachAllKept | riv_parser.py:474-496 | with the actions in (x, y) order, the last pass does not overwrite a token an earlier action targets |
| Organizer.AttachAllAttaches | riv_parser.py:474-496 | with the actions in (x, y) order, as a glyph supplies them (Organizer.Orders), a successful loop leaves on every targeted data token the action its action chose for it |
| Organizer.AttachAllFails | riv_parser.py:474-496 | the action loop fails exactly when some action's choice for the token it targets fails |
| Organizer.AttachAll | riv_parser.py:474-496 | the action loop keeps the number of tokens, and its only error is a KeyError |
| Organizer.OrganizeSpec | riv_parser.py:414-498 | an organized glyph holds its data tokens in (x, y) order, numbered with row prime and per-row cell, and ref tokens hold their ref cell. Then comes the first question marker, if any, exactly as placed; every order is the position; data tokens differ from their numbering at most by an added action |
| Organizer.OrganizeMarker | riv_parser.py:446-498 | the token after the data tokens of an organized glyph is the first question marker as placed, untouched by the ref and action loops |
| Organizer.OrganizeActions | riv_parser.py:472-496 | in an organized glyph, a data token that an action of the glyph targets holds the action chosen for it from that action, and a data token no action targets holds none |
| Organizer.OrganizeAttaches | riv_parser.py:472-496 | a data token that action i of the glyph targets holds the action chosen for it from action i |
| Organizer.OrganizeUnattached | riv_parser.py:472-496 | a data token that no action of the glyph targets holds no action |
| Organizer.OrganizeOrders | riv_parser.py:436-453 | an organized glyph has one token per data strand plus one for a first marker, and every token's order is its position |
| Organizer.OrganizeData | riv_parser.py:428-470 | the data tokens of an organized glyph are in (x, y) order, as numbered, each ref token holding its ref cell |
| Organizer.ParseGlyphsExact | riv_parser.py:414-499 | `_parse_glyphs` succeeds exactly when every glyph organizes, and keeps each glyph's level and grid beside its tokens |
| RivParser.LexAll | riv_parser.py:521-522 | on success one lexed glyph per glyph, keeping each glyph's level and grid beside its strands |
| RivParser.LexAllStops | riv_parser.py:521-522 | once a glyph fails to lex, the whole pass fails with that error |
| RivParser.LocatedGlyphsCut | riv_parser.py:510-519 | after successful location the only error before lexing is "no glyph found"; otherwise every glyph cuts and the prime table loads |
| RivParser.CutReady | riv_parser.py:515-519 | located glyphs cut into as many glyphs, with their levels and at least two rows, so the prime count succeeds |
| RivParser.ParseShape | riv_parser.py:503-528 | a parsed program holds one parsed glyph per cut glyph, with its level and grid, and at least one |
| RivParser.Parser.constructor | riv_parser.py:24-36 | the parser holds the given tables and an empty prime table |
| RivParser.Parser.LoadPrimes | riv_parser.py:373-384 | the prime table becomes the table for the largest dimension (see PrimeTableSpec), or `[1]` with the error when there is no largest dimension |
| RivParser.Parser.ScanRowInto | riv_parser.py:150-153 | the row loop appends the row's accepted strands to those before it, or gives the first check's error (see ScanRowSound) |
| RivParser.Parser.FindStrandStarts | riv_parser.py:147-154 | computes the strand starts of the glyph (see StrandStartsExact) |
| RivParser.Parser.StartLevel | riv_parser.py:330-337 | the level is 1 plus the run of Start symbols left of the Start (see RunLeftMaximal) |
| RivParser.Parser.RowStartsInto | riv_parser.py:327-338 | appends the row's Start markers (see StartsUpToSound/Complete) |
| RivParser.Parser.RowEndsInto | riv_parser.py:339-341 | appends the row's End markers (see EndsUpToSound/Complete) |
| RivParser.Parser.FindEnd | riv_parser.py:346-364 | finds the first candidate that closes the box (see FirstFitSpec) |
| RivParser.Parser.CollectMarkers | riv_parser.py:326-341 | collects all Start and End markers of the program |
| RivParser.Parser.PairStarts | riv_parser.py:343-366 | computes the greedy pairing or the first start's error (see MatchStartsGreedy) |
| RivParser.Parser.LocateGlyphs | riv_parser.py:313-370 | computes `_locate_glyphs` (see LocatePairs, LocateUsesEveryEnd) |
| RivParser.Parser.BlankFirstRow | riv_parser.py:405-406 | blanks the first `level` cells of row 0 or raises the IndexError (see BlankStartCells) |
| RivParser.Parser.BlankLastCell | riv_parser.py:407 | blanks the last cell or raises the IndexError (see BlankEndCells) |
| RivParser.Parser.PrepareGlyph | riv_parser.py:400-409 | cuts out one glyph (see CutBoxed) |
| RivParser.Parser.PrepareGlyphs | riv_parser.py:396-411 | cuts out every glyph in order (see PrepareAllExact) |
| RivParser.Parser.NumberDataTokens | riv_parser.py:430-442 | numbers the data strands (see NumberDataSpec) |
| RivParser.Parser.PlaceMarkers | riv_parser.py:446-462 | checks and places the question markers (see Markers) |
| RivParser.Parser.ResolveRefCells | riv_parser.py:465-470 | gives every ref token its ref cell (see ResolveRefsSpec) |
| RivParser.Parser.AttachTo | riv_parser.py:485-496 | attaches an action to the x_count-th data token of its column |
| RivParser.Parser.AttachActions | riv_parser.py:474-496 | computes the action loop: the result, or the KeyError, is that of AttachAll (see AttachAllAttaches, AttachAllTargets and AttachAllFails) |
| RivParser.Parser.OrganizeGlyph | riv_parser.py:417-498 | organizes one glyph (see OrganizeSpec) |
| RivParser.Parser.ParseAll | riv_parser.py:414-499 | organizes every glyph (see ParseGlyphsExact) |
| RivParser.Parser.TraceStarts | riv_parser.py:293-294 | traces every start in turn (see TraceAllExact) |
| RivParser.Parser.LexGlyph | riv_parser.py:285-295 | lexes one glyph (see LexedStrands) |
| RivParser.Parser.LexGlyphs | riv_parser.py:521-522 | lexes every glyph with the loaded prime table |
| RivParser.Parser.CutGlyphs | riv_parser.py:507-515 | splits, trims, locates and cuts out the glyphs, or raises "no glyph found" (see LocatedGlyphsCut) |
| RivParser.Parser.ParseProgram | riv_parser.py:503-528 | parses the program; the prime table is untouched if the program fails before loading it, `[1]` if loading fails, and the table for the largest glyph otherwise |

## Where the code departs from its own docstrings, comments and messages

In six places the code does less or more than its own docstrings, comments
and error messages say it does. The model follows the code each time:

- **Question markers.** The error at riv_parser.py:461-462 says "only 0 or 2
  are allowed in a glyph". The marker loop at riv_parser.py:446-455 also
  accepts a lone marker without complaint (`Organizer.Markers`).
- **Pairing actions with data tokens.** The comment at riv_parser.py:472-473
  says the top action strand of a column goes to the top data strand of that
  column. The counter starts with `curr_x = 0` (riv_parser.py:474-475), so in
  column 0 the first action gets `x_count` 1 and takes the second data token
  (`Organizer.XCountRank`).
- **Continuing directions.** The `len(next_dir) != 1` test at
  riv_parser.py:190-192 demands one continuing direction, and its message
  speaks only of "more than one". The test also fires on zero directions. It
  reads the direction list of `r`, the last reading the loop at
  riv_parser.py:183-184 visited, which need not be the continue or corner
  reading that the test at riv_parser.py:186 found (`Lexer.NextDir`).
- **Which sides of a glyph's box are tested.** The `_locate_glyphs`
  docstring (riv_parser.py:313-316) asks for a blank column left of the Start
  and a blank row below the End. The checks at riv_parser.py:351-358 test the
  row above the Start and the column right of the End instead
  (`Locator.Fits`).
- **When the right-hand column is skipped.** The comment at riv_parser.py:355
  says "no col to the right". The test at riv_parser.py:356 is
  `e["y"] == len(program)-1`: an End on the program's last row skips the
  right-column check, and an End in the last column does not
  (`Locator.Fits`).
- **The leftover-End error.** The raise at riv_parser.py:367-369 names one
  unused End. With two or more unused Ends, `min` over dicts raises a
  TypeError instead. With an End that `_chars_in_list` lists twice, no End is
  left over and `min([])` raises a ValueError. So a leftover End is a
  RivuletSyntaxError only when exactly one End is left over
  (`Locator.CheckLeftover`).

The ref-cell rule at riv_parser.py:465-470 is one more than the least cell
left of the end. Since the leftmost data token on a row always has cell 0, the
resulting index is always 0 or 1 (`Organizer.RefCellIsZeroOrOne`).

## Left out

- Reading `_lexicon.json` and `_commands.json` in `__init__`: the tables are constructor parameters. The conversion of single-string `dir` entries into lists is taken as already done, so a reading's `dir` is always a list.
- A letter's `symbol` is taken to be a list of single characters. That fixes the order in which `_chars_in_list` scans. It also makes `None in i['symbol']` at riv_parser.py:220 false when the next cell is off the glyph. Were a `symbol` a string, that line would raise a TypeError, which the model does not capture.
- The `print` calls of `_parse_glyphs` and `parse_program`: they are output only.
- The text of exception messages: errors keep their kind and coordinates, not their wording.
- riv_interpreter.py and riv_exceptions.py are not part of this model. The exception classes become the `Error` datatype.
- Trial division uses `int(math.sqrt(num))`, a floating-point square root. The model uses the exact test `i * i <= num`, which agrees with it for every candidate a glyph of practical size produces.
- Lexer.Interpret: the source recurses without bound, so a cyclic strand, or one longer than Python's recursion limit, raises a RecursionError. The model bounds the walk by `StrandFuel`, four times the glyph's cell count plus one. A longer walk must have repeated a cell and heading, and it ends in an `OutOfFuel` error. Strands longer than Python's recursion limit but within this bound succeed in the model.
- Updates in place and aliasing are modelled as values:
  - `_interpret_strand` and `_mark_end` return the updated strand instead of mutating the start dict;
  - `del s["level"]` is not modelled; a location carries its level;
  - the first question marker holds a copy of the second rather than a reference;
  - the attached action is an `Attached` record holding the action strand with the chosen command name and note. The source instead overwrites the shared action dict's `command` field.
- `_get_neighbor`'s `include_coords` switch: both forms are one `Step` value.
- Unicode: `str.splitlines` line boundaries are modelled exactly. Beyond that, characters are compared as code points, with no normalisation.
