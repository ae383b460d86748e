/**
 * The configuration the Rivulet parser is given: the lexicon of box-drawing
 * symbols with their readings, and the command table. Both are immutable
 * parameters of the model (the parser loads them from two JSON files).
 * Also the errors the parser can raise.
 */
module Symbols {
  import opened Wrappers

  /** A direction a strand can point or move in. */
  datatype Dir = Up | Down | Left | Right

  /** `OPPOSITE_DIR` of riv_parser.py. */
  function Opposite(d: Dir): (r: Dir)
    ensures r != d
    ensures IsHorizontal(r) == IsHorizontal(d)
  {
    match d
    case Up => Down
    case Down => Up
    case Left => Right
    case Right => Left
  }

  predicate IsHorizontal(d: Dir) {
    d == Left || d == Right
  }

  lemma OppositeInvolution(d: Dir)
    ensures Opposite(Opposite(d)) == d
  {
  }

  /** The `pos` of a reading: what role the symbol plays in a strand. */
  datatype Position = Start | Continue | Corner | End | LocMarker | PreStart

  /** The `type` of a reading: which kind of strand it belongs to. */
  datatype Kind = Data | Action | QuestionMarker

  /** One interpretation of a symbol. `dir` is a list in the lexicon and is kept as one. */
  datatype Reading = Reading(pos: Position, dir: seq<Dir>, kind: Kind)

  /** A lexicon entry: a name, the characters drawing it, and their readings. */
  datatype Letter = Letter(name: string, symbol: seq<char>, readings: seq<Reading>)

  type Lexicon = seq<Letter>

  /** A command-table entry; the list-level fields are optional in the table. */
  datatype Command = Command(name: string, note: string, listName: Option<string>, listNote: Option<string>)

  /** The command table, keyed by the decimal string of a vertical value. */
  type CommandMap = map<string, Command>

  /** User-program errors (`RivuletSyntaxError`). */
  datatype SyntaxIssue =
    | NoMatchingEnd(x: nat, y: nat)
    | NoCorrespondingStart(x: nat, y: nat)
    | NoGlyphFound
    | NoValidReading(x: nat, y: nat)
    | MisplacedSecondMarker
    | BadMarkerCount

  /** Lexicon or engine defects (`InternalError`). */
  datatype InternalIssue =
    | StartReadingCount(count: nat)
    | BlankSpace(x: nat, y: nat)
    | NoSymbol(c: char)
    | MultipleSymbols(c: char)
    | AmbiguousDirection

  /** Python runtime exceptions the source can raise without meaning to. */
  datatype PyFault =
    | TypeError(what: string)
    | IndexError(what: string)
    | KeyError(key: string)
    | ValueError(what: string)

  datatype Error =
    | SyntaxErr(syntax: SyntaxIssue)
    | InternalErr(internal: InternalIssue)
    | PythonErr(fault: PyFault)
    | OutOfFuel

  /** The letters of `lex` drawn with `c`, in lexicon order. */
  function LettersWith(lex: Lexicon, c: char): (r: seq<Letter>)
    ensures |r| <= |lex|
  {
    if |lex| == 0 then []
    else if c in lex[0].symbol then [lex[0]] + LettersWith(lex[1..], c)
    else LettersWith(lex[1..], c)
  }

  /** LettersWith keeps exactly the letters drawn with c, and the first one it
      keeps is the first such letter of the lexicon. */
  lemma {:induction false} LettersWithSpec(lex: Lexicon, c: char)
    ensures forall l :: l in LettersWith(lex, c) <==> l in lex && c in l.symbol
    ensures var r := LettersWith(lex, c);
            |r| > 0 ==> exists i :: 0 <= i < |lex| && lex[i] == r[0] && c in lex[i].symbol &&
                                    forall j :: 0 <= j < i ==> c !in lex[j].symbol
  {
    if |lex| > 0 {
      LettersWithSpec(lex[1..], c);
      assert forall l :: l in lex <==> l == lex[0] || l in lex[1..];
      var rest := LettersWith(lex[1..], c);
      if c !in lex[0].symbol && |rest| > 0 {
        var i :| 0 <= i < |lex[1..]| && lex[1..][i] == rest[0] && c in lex[1..][i].symbol &&
                 forall j :: 0 <= j < i ==> c !in lex[1..][j].symbol;
        assert lex[i + 1] == rest[0];
        forall j | 0 <= j < i + 1 ensures c !in lex[j].symbol {
          if j > 0 { assert lex[j] == lex[1..][j - 1]; }
        }
      }
    }
  }

  /** `get_symbol_by_name`: the symbol characters of every letter called `name`, concatenated. */
  function SymbolsNamed(lex: Lexicon, name: string): (r: seq<char>)
    ensures forall c :: c in r <==> exists l :: l in lex && l.name == name && c in l.symbol
  {
    if |lex| == 0 then []
    else
      var rest := SymbolsNamed(lex[1..], name);
      assert forall l :: l in lex[1..] ==> l in lex;
      assert forall l :: l in lex ==> l == lex[0] || l in lex[1..];
      if lex[0].name == name then lex[0].symbol + rest else rest
  }

  /** `pos in readings` for the dict the source builds from a reading list. */
  predicate HasPos(rs: seq<Reading>, p: Position) {
    exists i :: 0 <= i < |rs| && rs[i].pos == p
  }

  /** `readings[pos]` for that dict: the last reading with that position wins. */
  function LastWithPos(rs: seq<Reading>, p: Position): (r: Reading)
    requires HasPos(rs, p)
    ensures r.pos == p
    ensures exists i :: 0 <= i < |rs| && rs[i] == r && forall j :: i < j < |rs| ==> rs[j].pos != p
  {
    var n := |rs| - 1;
    if rs[n].pos == p then rs[n]
    else
      assert HasPos(rs[..n], p) by {
        var i :| 0 <= i < |rs| && rs[i].pos == p;
        assert rs[..n][i] == rs[i];
      }
      var r := LastWithPos(rs[..n], p);
      assert exists i :: 0 <= i < |rs| && rs[i] == r && forall j :: i < j < |rs| ==> rs[j].pos != p by {
        var i :| 0 <= i < n && rs[..n][i] == r && forall j :: i < j < n ==> rs[..n][j].pos != p;
        assert rs[i] == r;
        forall j | i < j < |rs| ensures rs[j].pos != p {
          if j < n { assert rs[j] == rs[..n][j]; }
        }
      }
      r
  }

  /** The decimal digit for d. */
  function DigitChar(d: nat): (c: char)
    requires d < 10
    ensures '0' <= c <= '9' && c as int - '0' as int == d
  {
    ('0' as int + d) as char
  }

  function NatToString(n: nat): (s: string)
    ensures |s| > 0
    ensures forall i :: 0 <= i < |s| ==> '0' <= s[i] <= '9'
  {
    if n < 10 then [DigitChar(n)] else NatToString(n / 10) + [DigitChar(n % 10)]
  }

  /** Python's `str` on an optional integer: "None", or the decimal form with a leading '-'. */
  function Key(v: Option<int>): string {
    match v
    case None => "None"
    case Some(i) => if i < 0 then "-" + NatToString(-i) else NatToString(i)
  }

  function ParseNat(s: string): nat {
    if |s| == 0 then 0
    else
      var d := s[|s| - 1] as int - '0' as int;
      ParseNat(s[..|s| - 1]) * 10 + (if 0 <= d then d else 0)
  }

  /** Reads a command-table key back into the value it was made from. */
  function ParseKey(s: string): Option<int> {
    if s == "None" then None
    else if |s| > 0 && s[0] == '-' then Some(0 - ParseNat(s[1..]) as int)
    else Some(ParseNat(s))
  }

  lemma {:induction false} ParseNatToString(n: nat)
    ensures ParseNat(NatToString(n)) == n
  {
    if n >= 10 {
      ParseNatToString(n / 10);
      var s := NatToString(n);
      assert s[..|s| - 1] == NatToString(n / 10);
      assert s[|s| - 1] as int - '0' as int == n % 10;
      assert ParseNat(s) == (n / 10) * 10 + n % 10;
    }
  }

  /** The key of a non-negative value reads back as that value. */
  lemma ParseDigits(n: nat)
    ensures ParseKey(NatToString(n)) == Some(n as int)
  {
    var s := NatToString(n);
    assert s != "None" by { assert '0' <= s[0] <= '9'; }
    assert !(|s| > 0 && s[0] == '-');
    ParseNatToString(n);
  }

  /** The key of a negative value, a '-' then its digits, reads back as that value. */
  lemma ParseMinus(n: nat)
    ensures ParseKey("-" + NatToString(n)) == Some(0 - n as int)
  {
    var s := "-" + NatToString(n);
    assert s != "None" by { assert s[0] != "None"[0]; }
    assert s[1..] == NatToString(n);
    ParseNatToString(n);
  }

  /** Distinct vertical values look up distinct command-table keys. */
  lemma KeyRoundTrip(v: Option<int>)
    ensures ParseKey(Key(v)) == v
  {
    match v
    case None =>
    case Some(i) =>
      if i < 0 {
        ParseMinus(-i);
      } else {
        ParseDigits(i);
      }
  }
}
