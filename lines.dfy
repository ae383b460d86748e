/**
 * `program.splitlines()`: the text of a program cut into its lines at every
 * line boundary Python's `str.splitlines` recognises, the boundaries dropped.
 */
module Lines {

  /** The line boundaries of `str.splitlines`: line feed, carriage return,
      line and form feed, the file, group and record separators, next line,
      and the line and paragraph separators. */
  predicate IsLineBreak(c: char) {
    c == '\n' || c == '\r' || c == '\U{000B}' || c == '\U{000C}' ||
    c == '\U{001C}' || c == '\U{001D}' || c == '\U{001E}' ||
    c == '\U{0085}' || c == '\U{2028}' || c == '\U{2029}'
  }

  predicate NoBreaks(s: string) {
    forall i :: 0 <= i < |s| ==> !IsLineBreak(s[i])
  }

  /** The length of the first line of s: the index of its first boundary, or |s|. */
  function LineEnd(s: string): (i: nat)
    ensures i <= |s| && (i < |s| ==> IsLineBreak(s[i]))
    ensures forall j :: 0 <= j < i ==> !IsLineBreak(s[j])
  {
    if |s| == 0 || IsLineBreak(s[0]) then 0
    else
      var k := LineEnd(s[1..]);
      assert forall j :: 1 <= j < 1 + k ==> s[j] == s[1..][j - 1];
      1 + k
  }

  /** The width of the boundary at s[i]: "\r\n" is one boundary of two characters. */
  function BreakWidth(s: string, i: nat): (w: nat)
    requires i < |s|
    ensures 1 <= w && i + w <= |s|
  {
    if s[i] == '\r' && i + 1 < |s| && s[i + 1] == '\n' then 2 else 1
  }

  /** `s.splitlines()`: the lines of s without their boundaries; a final
      boundary does not start another line, and the empty text has no lines. */
  function SplitLines(s: string): (r: seq<string>)
    decreases |s|
  {
    if |s| == 0 then []
    else
      var i := LineEnd(s);
      if i == |s| then [s]
      else [s[..i]] + SplitLines(s[i + BreakWidth(s, i)..])
  }

  /** No line holds a boundary, and each is at most as long as the text. */
  lemma {:induction false} SplitLinesClean(s: string)
    ensures forall k :: 0 <= k < |SplitLines(s)| ==> NoBreaks(SplitLines(s)[k]) && |SplitLines(s)[k]| <= |s|
    decreases |s|
  {
    if |s| > 0 {
      var i := LineEnd(s);
      if i < |s| {
        var rest := s[i + BreakWidth(s, i)..];
        SplitLinesClean(rest);
        var r := SplitLines(s);
        assert r == [s[..i]] + SplitLines(rest);
        forall k | 0 <= k < |r| ensures NoBreaks(r[k]) && |r[k]| <= |s| {
          if k > 0 {
            assert r[k] == SplitLines(rest)[k - 1];
          }
        }
      }
    }
  }

  /** The lines, each followed by a line feed. */
  function Terminated(lines: seq<string>): string {
    if |lines| == 0 then [] else lines[0] + "\n" + Terminated(lines[1..])
  }

  /** A line with no boundary, then a boundary: the line ends just before it. */
  lemma LineEndAt(line: string, rest: string)
    requires NoBreaks(line) && |rest| > 0 && IsLineBreak(rest[0])
    ensures LineEnd(line + rest) == |line|
  {
    var s := line + rest;
    assert s[|line|] == rest[0];
    assert forall j :: 0 <= j < |line| ==> s[j] == line[j];
  }

  /** A line with no boundary, a line feed, then more text: that line, then the lines of the rest. */
  lemma SplitAtFeed(line: string, t: string)
    requires NoBreaks(line)
    ensures SplitLines(line + "\n" + t) == [line] + SplitLines(t)
  {
    var s := line + "\n" + t;
    var i := |line|;
    LineEndAt(line, "\n" + t);
    assert s[i] == '\n' && s[..i] == line && s[i + 1..] == t;
  }

  /** Splitting undoes terminating: lines with no boundary in them, each
      followed by a line feed, split back into exactly those lines. */
  lemma {:induction false} SplitTerminated(lines: seq<string>)
    requires forall k :: 0 <= k < |lines| ==> NoBreaks(lines[k])
    ensures SplitLines(Terminated(lines)) == lines
  {
    if |lines| > 0 {
      var tail := lines[1..];
      assert forall k :: 0 <= k < |tail| ==> tail[k] == lines[k + 1];
      SplitTerminated(tail);
      SplitAtFeed(lines[0], Terminated(tail));
      assert [lines[0]] + tail == lines;
    }
  }
}
