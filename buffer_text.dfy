/**
 * The buffer edit the visual-mode commands ask for, `insert("")` over one
 * selection, carried out on the text itself so that what a command does to
 * the buffer can be stated: the text is its lines without terminators, and
 * deleting the exclusive range [start, end) removes exactly the characters
 * between those two offsets of the joined text.
 */
module BufferText {
  import opened DisplayMap
  import opened Selections
  import opened Visual

  /** A buffer as its lines, without their '\n' terminators. */
  type Text = t: seq<string> | |t| > 0 witness [""]

  /** The display snapshot of a buffer. */
  function LineLengths(text: Text): (lines: Lines)
    ensures |lines| == |text|
    ensures forall r :: 0 <= r < |text| ==> lines[r] == |text[r]|
  {
    seq(|text|, r requires 0 <= r < |text| => |text[r]|)
  }

  /** The buffer's characters: its lines separated by '\n'. */
  function Join(lines: seq<string>): string
  {
    if lines == [] then ""
    else if |lines| == 1 then lines[0]
    else lines[0] + "\n" + Join(lines[1..])
  }

  /** The characters of the lines before a line, with their terminators. */
  function Above(lines: seq<string>): string
  {
    if lines == [] then "" else Join(lines) + "\n"
  }

  /** The characters after a line: its terminator and the lines below. */
  function Below(lines: seq<string>): string
  {
    if lines == [] then "" else "\n" + Join(lines)
  }

  /** A line in front of other lines is joined to them by a terminator. */
  lemma JoinCons(line: string, rest: seq<string>)
    ensures Join([line] + rest) == line + Below(rest)
  {
    if rest != [] {
      assert ([line] + rest)[1..] == rest;
    }
  }

  lemma AboveCons(line: string, rest: seq<string>)
    ensures Above([line] + rest) == line + "\n" + Above(rest)
  {
    JoinCons(line, rest);
  }

  /** The joined text around one of its lines. */
  lemma {:induction false} JoinAround(above: seq<string>, line: string, below: seq<string>)
    ensures Join(above + [line] + below) == Above(above) + line + Below(below)
  {
    if above == [] {
      assert above + [line] + below == [line] + below;
      JoinCons(line, below);
    } else {
      var first, rest := above[0], above[1..];
      var tail := rest + [line] + below;
      var a, b := Above(rest), Below(below);
      JoinAround(rest, line, below);
      assert above + [line] + below == [first] + tail;
      JoinCons(first, tail);
      assert Join([first] + tail) == first + ("\n" + (a + line + b));
      assert above == [first] + rest;
      AboveCons(first, rest);
      assert first + ("\n" + (a + line + b)) == first + "\n" + a + line + b;
    }
  }

  /** A buffer is the lines above a row, that row, and the lines below it. */
  lemma SplitAt(text: seq<string>, row: nat)
    requires row < |text|
    ensures text[..row] + [text[row]] + text[row + 1..] == text
  {
  }

  /** The offset of a position in the joined text. */
  function Offset(text: Text, p: Point): (k: nat)
    requires InBounds(LineLengths(text), p)
    ensures k <= |Join(text)|
  {
    SplitAt(text, p.row);
    JoinAround(text[..p.row], text[p.row], text[p.row + 1..]);
    |Above(text[..p.row])| + p.column
  }

  lemma SliceUpTo(a: string, line: string, b: string, column: nat)
    requires column <= |line|
    ensures (a + line + b)[..|a| + column] == a + line[..column]
  {
  }

  lemma SliceFrom(a: string, line: string, b: string, column: nat)
    requires column <= |line|
    ensures (a + line + b)[|a| + column..] == line[column..] + b
  {
  }

  /** The joined text up to a position: the lines above it and its line up to it. */
  lemma JoinUpTo(text: Text, p: Point)
    requires InBounds(LineLengths(text), p)
    ensures Join(text)[..Offset(text, p)] == Above(text[..p.row]) + text[p.row][..p.column]
  {
    SplitAt(text, p.row);
    JoinAround(text[..p.row], text[p.row], text[p.row + 1..]);
    SliceUpTo(Above(text[..p.row]), text[p.row], Below(text[p.row + 1..]), p.column);
  }

  /** The joined text from a position on: its line from it and the lines below. */
  lemma JoinFrom(text: Text, p: Point)
    requires InBounds(LineLengths(text), p)
    ensures Join(text)[Offset(text, p)..] == text[p.row][p.column..] + Below(text[p.row + 1..])
  {
    SplitAt(text, p.row);
    JoinAround(text[..p.row], text[p.row], text[p.row + 1..]);
    SliceFrom(Above(text[..p.row]), text[p.row], Below(text[p.row + 1..]), p.column);
  }

  /**
   * `insert("")` on the range [a, b): the part of a's line before a joined
   * with the part of b's line from b on, replacing the lines in between.
   */
  function EraseRange(text: Text, a: Point, b: Point): (r: Text)
    requires InBounds(LineLengths(text), a) && InBounds(LineLengths(text), b) && LessEq(a, b)
    ensures |r| == |text| - (b.row - a.row)
    ensures InBounds(LineLengths(r), a)
  {
    text[..a.row] + [text[a.row][..a.column] + text[b.row][b.column..]] + text[b.row + 1..]
  }

  /** Erasing [a, b) removes exactly the characters between their offsets. */
  lemma EraseRangeDeletesSpan(text: Text, a: Point, b: Point)
    requires InBounds(LineLengths(text), a) && InBounds(LineLengths(text), b) && LessEq(a, b)
    ensures Join(EraseRange(text, a, b)) == Join(text)[..Offset(text, a)] + Join(text)[Offset(text, b)..]
  {
    var above, below := text[..a.row], text[b.row + 1..];
    var head, tail := text[a.row][..a.column], text[b.row][b.column..];
    var erased := EraseRange(text, a, b);
    assert erased == above + [head + tail] + below;
    JoinAround(above, head + tail, below);
    Regroup(Above(above), head, tail, Below(below));
    JoinUpTo(text, a);
    JoinFrom(text, b);
  }

  lemma Regroup(x: string, head: string, tail: string, y: string)
    ensures x + (head + tail) + y == (x + head) + (tail + y)
  {
  }

  /** The buffer and the cursor once a command has run on one selection. */
  datatype Outcome = Outcome(text: Text, cursor: Selection)

  /**
   * `delete` on one selection: the extended range is erased, the edit
   * leaves a cursor at its start, and the fix-up clips it Left with
   * line-end clipping on.
   */
  function CharDelete(text: Text, s: Selection): (r: Outcome)
    requires SelectionInBounds(LineLengths(text), s) && Ordered(s)
    ensures r.cursor.start == r.cursor.end && !r.cursor.reversed && r.cursor.id == s.id
    ensures IsClipped(LineLengths(r.text), r.cursor.start, true)
  {
    var range := ExtendEnd(LineLengths(text), false, s, Right);
    var edited := EraseRange(text, range.start, range.end);
    Outcome(edited, CollapseAtHead(LineLengths(edited), true, CollapseTo(range, range.start, range.goal)))
  }

  /** `change` on one selection: the same range, clipped Left, and the cursor stays at its start. */
  function CharChange(text: Text, s: Selection): (r: Outcome)
    requires SelectionInBounds(LineLengths(text), s) && Ordered(s)
    ensures r.cursor.start == r.cursor.end && !r.cursor.reversed && r.cursor.id == s.id
    ensures InBounds(LineLengths(r.text), r.cursor.start)
  {
    var range := ExtendEnd(LineLengths(text), false, s, Left);
    var edited := EraseRange(text, range.start, range.end);
    Outcome(edited, CollapseTo(range, range.start, range.goal))
  }

  /**
   * `delete_line` on one selection: whole lines are erased and the cursor
   * the edit leaves gets back the head column recorded beforehand.
   */
  function LineDelete(text: Text, s: Selection): (r: Outcome)
    requires SelectionInBounds(LineLengths(text), s) && Ordered(s)
    ensures r.cursor.start == r.cursor.end && !r.cursor.reversed && r.cursor.id == s.id
    ensures IsClipped(LineLengths(r.text), r.cursor.start, true)
  {
    var columns := RecordColumns([s]);
    var range := ExpandToWholeLines(LineLengths(text), s);
    var edited := EraseRange(text, range.start, range.end);
    Outcome(edited, RestoreColumn(LineLengths(edited), true, CollapseTo(range, range.start, range.goal), columns))
  }

  /** `change_line` on one selection: the lines' contents are erased, their terminators kept. */
  function LineChange(text: Text, s: Selection): (r: Outcome)
    requires SelectionInBounds(LineLengths(text), s) && Ordered(s)
    ensures r.cursor.start == r.cursor.end && !r.cursor.reversed && r.cursor.id == s.id
    ensures InBounds(LineLengths(r.text), r.cursor.start)
  {
    var range := ExpandToLines(LineLengths(text), s);
    var edited := EraseRange(text, range.start, range.end);
    Outcome(edited, CollapseTo(range, range.start, range.goal))
  }

  /**
   * A visual delete removes exactly the characters from the earlier to the
   * later of the anchor and the head, both included, and leaves the cursor
   * where the removed text began.
   */
  lemma CharDeleteRemovesSelection(text: Text, s: Selection, anchor: Point)
    requires AnchoredAt(LineLengths(text), s, anchor)
    ensures var first := MinPoint(anchor, Head(s));
            var past := ColumnAfter(LineLengths(text), MaxPoint(anchor, Head(s)), Right, false);
            var r := CharDelete(text, s);
            Join(r.text) == Join(text)[..Offset(text, first)] + Join(text)[Offset(text, past)..] &&
            r.cursor.start == ClipPoint(LineLengths(r.text), first, Left, true)
  {
    ExtendEndCoversSelection(LineLengths(text), s, anchor, Right);
    var range := ExtendEnd(LineLengths(text), false, s, Right);
    EraseRangeDeletesSpan(text, range.start, range.end);
  }

  /** Deleting a one-character visual selection removes that character only. */
  lemma CharDeleteOneCharacter(text: Text, p: Point, id: nat, goal: Goal)
    requires p.row < |text| && p.column < |text[p.row]|
    ensures var r := CharDelete(text, Selection(id, p, p, false, goal));
            r.text == text[p.row := text[p.row][..p.column] + text[p.row][p.column + 1..]] &&
            r.cursor.start == ClipPoint(LineLengths(r.text), p, Left, true)
  {
    var s := Selection(id, p, p, false, goal);
    assert ExtendEnd(LineLengths(text), false, s, Right).end == Point(p.row, p.column + 1);
    var edited := EraseRange(text, p, Point(p.row, p.column + 1));
    assert edited == text[p.row := text[p.row][..p.column] + text[p.row][p.column + 1..]];
  }

  /** Change removes the same text as delete; only the cursor fix-up differs. */
  lemma ChangeErasesAsDelete(text: Text, s: Selection)
    requires SelectionInBounds(LineLengths(text), s) && Ordered(s)
    ensures CharChange(text, s).text == CharDelete(text, s).text
    ensures CharChange(text, s).cursor.start == ExtendEnd(LineLengths(text), false, s, Left).start
  {
    ClipPointIgnoresBias(LineLengths(text), Point(s.end.row, s.end.column + 1), false);
  }

  /**
   * Deleting lines above the last one removes them with their terminators;
   * the line below moves up and the cursor keeps its column on it.
   */
  lemma LineDeleteAboveLast(text: Text, s: Selection)
    requires SelectionInBounds(LineLengths(text), s) && Ordered(s)
    requires s.end.row < |text| - 1
    ensures var r := LineDelete(text, s);
            r.text == text[..s.start.row] + text[s.end.row + 1..] &&
            r.cursor.start == ClipPoint(LineLengths(r.text), Point(s.start.row, Head(s).column), Left, true)
  {
    var edited := EraseRange(text, Point(s.start.row, 0), Point(s.end.row + 1, 0));
    assert text[s.start.row][..0] + text[s.end.row + 1][0..] == text[s.end.row + 1];
    assert edited == text[..s.start.row] + [text[s.end.row + 1]] + text[s.end.row + 2..];
    assert text[s.end.row + 1..] == [text[s.end.row + 1]] + text[s.end.row + 2..];
  }

  /**
   * Deleting lines that end the buffer also takes the terminator of the
   * line above them, so no empty last line is left; the cursor keeps its
   * column on that line.
   */
  lemma LineDeleteAtEnd(text: Text, s: Selection)
    requires SelectionInBounds(LineLengths(text), s) && Ordered(s)
    requires s.end.row == |text| - 1 && s.start.row > 0
    ensures var r := LineDelete(text, s);
            r.text == text[..s.start.row] &&
            r.cursor.start == ClipPoint(LineLengths(r.text), Point(s.start.row - 1, Head(s).column), Left, true)
  {
    var above := s.start.row - 1;
    var edited := EraseRange(text, Point(above, |text[above]|), Point(s.end.row, |text[s.end.row]|));
    assert text[above][..|text[above]|] + text[s.end.row][|text[s.end.row]|..] == text[above];
    assert edited == text[..above] + [text[above]];
    assert text[..s.start.row] == text[..above] + [text[above]];
  }

  /** Deleting every line leaves one empty line and the cursor at its start. */
  lemma LineDeleteEverything(text: Text, s: Selection)
    requires SelectionInBounds(LineLengths(text), s) && Ordered(s)
    requires s.start.row == 0 && s.end.row == |text| - 1
    ensures LineDelete(text, s).text == [""]
    ensures LineDelete(text, s).cursor.start == Point(0, 0)
  {
    var edited := EraseRange(text, Point(0, 0), Point(s.end.row, |text[s.end.row]|));
    assert edited == [""];
  }

  /**
   * Changing lines empties them into one line, keeping its terminator, and
   * puts the cursor at its start; the lines around are untouched.
   */
  lemma LineChangeLeavesEmptyLine(text: Text, s: Selection)
    requires SelectionInBounds(LineLengths(text), s) && Ordered(s)
    ensures var r := LineChange(text, s);
            r.text == text[..s.start.row] + [""] + text[s.end.row + 1..] &&
            r.cursor.start == Point(s.start.row, 0)
  {
    var edited := EraseRange(text, Point(s.start.row, 0), Point(s.end.row, |text[s.end.row]|));
    assert text[s.end.row][|text[s.end.row]|..] == "";
    assert edited == text[..s.start.row] + [""] + text[s.end.row + 1..];
  }
}
