/**
 * The expectations of the visual-mode tests of crates/vim/src/visual.rs,
 * stated on the model. The motions themselves are not modelled: each
 * lemma gives the position the motion keys (`w`, `b`, `j`, `k`) reach on
 * the test's buffer. Visual mode runs with line-end clipping off.
 */
module VisualExamples {
  import opened DisplayMap
  import opened Selections
  import opened Visual
  import opened BufferText

  function ThreeLines(): Text
  {
    ["The quick brown", "fox jumps over", "the lazy dog"]
  }

  /** The selection visual mode starts with: a cursor at `p`. */
  function Entered(p: Point): Selection
  {
    Selection(0, p, p, false, NoGoal)
  }

  /** Visual mode entered at `p`, then one motion reaching `target`. */
  function OneMotion(text: Text, p: Point, target: Point): Selection
    requires InBounds(LineLengths(text), p)
  {
    MotionStep(LineLengths(text), false, Entered(p), target, Column(target.column))
  }

  /** Visual mode entered at `p`, then two motions reaching `first` and `second`. */
  function TwoMotions(text: Text, p: Point, first: Point, second: Point): Selection
    requires InBounds(LineLengths(text), p)
  {
    var lines := LineLengths(text);
    MotionStep(lines, false, MotionStep(lines, false, Entered(p), first, NoGoal), second, Column(second.column))
  }

  // ----- `v w j` and `v b k` -----

  /** `v w j` from "The |quick": a forward selection up to the `o` of "over". */
  lemma EnterVisualForward()
    ensures var s := TwoMotions(ThreeLines(), Point(0, 4), Point(0, 10), Point(1, 10));
            s.start == Point(0, 4) && s.end == Point(1, 10) && !s.reversed
  {
  }

  /** `v w j` from "the |lazy": `j` stays on the last line. */
  lemma EnterVisualForwardOnLastLine()
    ensures var s := TwoMotions(ThreeLines(), Point(2, 4), Point(2, 9), Point(2, 9));
            s.start == Point(2, 4) && s.end == Point(2, 9) && !s.reversed
  {
  }

  /** `v w j` from "fox jumps |over": `w` reaches the start of the last line. */
  lemma EnterVisualForwardOntoLastLine()
    ensures var s := TwoMotions(ThreeLines(), Point(1, 10), Point(2, 0), Point(2, 0));
            s.start == Point(1, 10) && s.end == Point(2, 0) && !s.reversed
  {
  }

  /** `v b k` from "The |quick": the head crosses the anchor, so `q` stays selected. */
  lemma EnterVisualBackwardOnFirstLine()
    ensures var s := TwoMotions(ThreeLines(), Point(0, 4), Point(0, 0), Point(0, 0));
            s.start == Point(0, 0) && s.end == Point(0, 5) && s.reversed
  {
  }

  /** `v b k` from "the |lazy": the head crosses the anchor, so `l` stays selected. */
  lemma EnterVisualBackward()
    ensures var s := TwoMotions(ThreeLines(), Point(2, 4), Point(2, 0), Point(1, 0));
            s.start == Point(1, 0) && s.end == Point(2, 5) && s.reversed
  {
  }

  /** `v b k` from "fox jumps |over": a reversed selection ending after the `o`. */
  lemma EnterVisualBackwardUp()
    ensures var s := TwoMotions(ThreeLines(), Point(1, 10), Point(1, 4), Point(0, 4));
            s.start == Point(0, 4) && s.end == Point(1, 11) && s.reversed
  {
  }

  // ----- `v … x` -----

  /** `v w x` on "The quick |brown" leaves "The quick| ". */
  lemma VisualDeleteToLineEnd()
    ensures var text: Text := ["The quick brown"];
            var r := CharDelete(text, OneMotion(text, Point(0, 10), Point(0, 15)));
            r.text == ["The quick "] && r.cursor.start == Point(0, 9)
  {
    var text: Text := ["The quick brown"];
    assert text[0][..10] + text[0][15..] == "The quick ";
  }

  /** `v w j x` from "The |quick" leaves "The |ver". */
  lemma VisualDeleteDown()
    ensures var text := ThreeLines();
            var r := CharDelete(text, TwoMotions(text, Point(0, 4), Point(0, 10), Point(1, 10)));
            r.text == ["The ver", "the lazy dog"] && r.cursor.start == Point(0, 4)
  {
    var text := ThreeLines();
    assert text[0][..4] + text[1][11..] == "The ver";
  }

  /** `v w j x` from "the |lazy" leaves "the |og". */
  lemma VisualDeleteDownOnLastLine()
    ensures var text := ThreeLines();
            var r := CharDelete(text, TwoMotions(text, Point(2, 4), Point(2, 9), Point(2, 9)));
            r.text == ["The quick brown", "fox jumps over", "the og"] && r.cursor.start == Point(2, 4)
  {
    var text := ThreeLines();
    assert text[2][..4] + text[2][10..] == "the og";
  }

  /** `v w j x` from "fox jumps |over": the range takes the first character of the last line. */
  lemma VisualDeleteDownToLineStart()
    ensures var text := ThreeLines();
            var r := CharDelete(text, TwoMotions(text, Point(1, 10), Point(2, 0), Point(2, 0)));
            r.text == ["The quick brown", "fox jumps he lazy dog"] && r.cursor.start == Point(1, 10)
  {
    var text := ThreeLines();
    assert text[1][..10] + text[2][1..] == "fox jumps he lazy dog";
  }

  /** `v b k x` from "The |quick" leaves "|uick brown". */
  lemma VisualDeleteUpOnFirstLine()
    ensures var text := ThreeLines();
            var r := CharDelete(text, TwoMotions(text, Point(0, 4), Point(0, 0), Point(0, 0)));
            r.text == ["uick brown", "fox jumps over", "the lazy dog"] && r.cursor.start == Point(0, 0)
  {
    var text := ThreeLines();
    assert text[0][..0] + text[0][5..] == "uick brown";
  }

  /** `v b k x` from "the |lazy" leaves "|azy dog". */
  lemma VisualDeleteUpToLineStart()
    ensures var text := ThreeLines();
            var r := CharDelete(text, TwoMotions(text, Point(2, 4), Point(2, 0), Point(1, 0)));
            r.text == ["The quick brown", "azy dog"] && r.cursor.start == Point(1, 0)
  {
    var text := ThreeLines();
    assert text[1][..0] + text[2][5..] == "azy dog";
  }

  /** `v b k x` from "fox jumps |over" leaves "The |ver". */
  lemma VisualDeleteUp()
    ensures var text := ThreeLines();
            var r := CharDelete(text, TwoMotions(text, Point(1, 10), Point(1, 4), Point(0, 4)));
            r.text == ["The ver", "the lazy dog"] && r.cursor.start == Point(0, 4)
  {
    var text := ThreeLines();
    assert text[0][..4] + text[1][11..] == "The ver";
  }

  // ----- `shift-V … x` -----

  /** `shift-V x` on the first line keeps "fox ju|mps over" as the new first line. */
  lemma VisualLineDeleteFirst()
    ensures var r := LineDelete(ThreeLines(), Entered(Point(0, 6)));
            r.text == ["fox jumps over", "the lazy dog"] && r.cursor.start == Point(0, 6)
  {
    LineDeleteAboveLast(ThreeLines(), Entered(Point(0, 6)));
  }

  /** `shift-V x` on the middle line: the cursor lands at column 6 of the following line. */
  lemma VisualLineDeleteMiddle()
    ensures var r := LineDelete(ThreeLines(), Entered(Point(1, 6)));
            r.text == ["The quick brown", "the lazy dog"] && r.cursor.start == Point(1, 6)
  {
    LineDeleteAboveLast(ThreeLines(), Entered(Point(1, 6)));
  }

  /** `shift-V x` on the last line leaves two lines and no empty last line. */
  lemma VisualLineDeleteLast()
    ensures var r := LineDelete(ThreeLines(), Entered(Point(2, 6)));
            r.text == ["The quick brown", "fox jumps over"] && r.cursor.start == Point(1, 6)
  {
    LineDeleteAtEnd(ThreeLines(), Entered(Point(2, 6)));
  }

  /** `shift-V j x` from the first line leaves "the la|zy dog". */
  lemma VisualLineDeleteFirstDown()
    ensures var text := ThreeLines();
            var r := LineDelete(text, OneMotion(text, Point(0, 6), Point(1, 6)));
            r.text == ["the lazy dog"] && r.cursor.start == Point(0, 6)
  {
    var text := ThreeLines();
    LineDeleteAboveLast(text, OneMotion(text, Point(0, 6), Point(1, 6)));
  }

  /** `shift-V j x` from the middle line leaves "The qu|ick brown". */
  lemma VisualLineDeleteMiddleDown()
    ensures var text := ThreeLines();
            var r := LineDelete(text, OneMotion(text, Point(1, 6), Point(2, 6)));
            r.text == ["The quick brown"] && r.cursor.start == Point(0, 6)
  {
    var text := ThreeLines();
    LineDeleteAtEnd(text, OneMotion(text, Point(1, 6), Point(2, 6)));
  }

  /** `shift-V j x` on the last line: `j` stays, and the last line goes. */
  lemma VisualLineDeleteLastDown()
    ensures var text := ThreeLines();
            var r := LineDelete(text, OneMotion(text, Point(2, 6), Point(2, 6)));
            r.text == ["The quick brown", "fox jumps over"] && r.cursor.start == Point(1, 6)
  {
    var text := ThreeLines();
    LineDeleteAtEnd(text, OneMotion(text, Point(2, 6), Point(2, 6)));
  }

  // ----- `v … c` -----

  /** `v w c` on "The quick |brown" leaves "The quick |". */
  lemma VisualChangeToLineEnd()
    ensures var text: Text := ["The quick brown"];
            var r := CharChange(text, OneMotion(text, Point(0, 10), Point(0, 15)));
            r.text == ["The quick "] && r.cursor.start == Point(0, 10)
  {
    var text: Text := ["The quick brown"];
    assert text[0][..10] + text[0][15..] == "The quick ";
  }

  /** `v w j c` from "The |quick" leaves "The |ver". */
  lemma VisualChangeDown()
    ensures var text := ThreeLines();
            var r := CharChange(text, TwoMotions(text, Point(0, 4), Point(0, 10), Point(1, 10)));
            r.text == ["The ver", "the lazy dog"] && r.cursor.start == Point(0, 4)
  {
    var text := ThreeLines();
    assert text[0][..4] + text[1][11..] == "The ver";
  }

  /** `v w j c` from "the |lazy" leaves "the |og". */
  lemma VisualChangeDownOnLastLine()
    ensures var text := ThreeLines();
            var r := CharChange(text, TwoMotions(text, Point(2, 4), Point(2, 9), Point(2, 9)));
            r.text == ["The quick brown", "fox jumps over", "the og"] && r.cursor.start == Point(2, 4)
  {
    var text := ThreeLines();
    assert text[2][..4] + text[2][10..] == "the og";
  }

  /** `v w j c` from "fox jumps |over" leaves "fox jumps |he lazy dog". */
  lemma VisualChangeDownToLineStart()
    ensures var text := ThreeLines();
            var r := CharChange(text, TwoMotions(text, Point(1, 10), Point(2, 0), Point(2, 0)));
            r.text == ["The quick brown", "fox jumps he lazy dog"] && r.cursor.start == Point(1, 10)
  {
    var text := ThreeLines();
    assert text[1][..10] + text[2][1..] == "fox jumps he lazy dog";
  }

  /** `v b k c` from "The |quick" leaves "|uick brown". */
  lemma VisualChangeUpOnFirstLine()
    ensures var text := ThreeLines();
            var r := CharChange(text, TwoMotions(text, Point(0, 4), Point(0, 0), Point(0, 0)));
            r.text == ["uick brown", "fox jumps over", "the lazy dog"] && r.cursor.start == Point(0, 0)
  {
    var text := ThreeLines();
    assert text[0][..0] + text[0][5..] == "uick brown";
  }

  /** `v b k c` from "the |lazy" leaves "|azy dog". */
  lemma VisualChangeUpToLineStart()
    ensures var text := ThreeLines();
            var r := CharChange(text, TwoMotions(text, Point(2, 4), Point(2, 0), Point(1, 0)));
            r.text == ["The quick brown", "azy dog"] && r.cursor.start == Point(1, 0)
  {
    var text := ThreeLines();
    assert text[1][..0] + text[2][5..] == "azy dog";
  }

  /** `v b k c` from "fox jumps |over" leaves "The |ver". */
  lemma VisualChangeUp()
    ensures var text := ThreeLines();
            var r := CharChange(text, TwoMotions(text, Point(1, 10), Point(1, 4), Point(0, 4)));
            r.text == ["The ver", "the lazy dog"] && r.cursor.start == Point(0, 4)
  {
    var text := ThreeLines();
    assert text[0][..4] + text[1][11..] == "The ver";
  }

  // ----- `shift-V … c` -----

  /** `shift-V c` on the first line leaves an empty first line with the cursor on it. */
  lemma VisualLineChangeFirst()
    ensures var r := LineChange(ThreeLines(), Entered(Point(0, 6)));
            r.text == ["", "fox jumps over", "the lazy dog"] && r.cursor.start == Point(0, 0)
  {
    LineChangeLeavesEmptyLine(ThreeLines(), Entered(Point(0, 6)));
  }

  /** `shift-V c` on the middle line leaves an empty middle line. */
  lemma VisualLineChangeMiddle()
    ensures var r := LineChange(ThreeLines(), Entered(Point(1, 6)));
            r.text == ["The quick brown", "", "the lazy dog"] && r.cursor.start == Point(1, 0)
  {
    LineChangeLeavesEmptyLine(ThreeLines(), Entered(Point(1, 6)));
  }

  /** `shift-V c` on the last line leaves an empty last line. */
  lemma VisualLineChangeLast()
    ensures var r := LineChange(ThreeLines(), Entered(Point(2, 6)));
            r.text == ["The quick brown", "fox jumps over", ""] && r.cursor.start == Point(2, 0)
  {
    LineChangeLeavesEmptyLine(ThreeLines(), Entered(Point(2, 6)));
  }

  /** `shift-V j c` from the first line leaves an empty line above "the lazy dog". */
  lemma VisualLineChangeFirstDown()
    ensures var text := ThreeLines();
            var r := LineChange(text, OneMotion(text, Point(0, 6), Point(1, 6)));
            r.text == ["", "the lazy dog"] && r.cursor.start == Point(0, 0)
  {
    var text := ThreeLines();
    LineChangeLeavesEmptyLine(text, OneMotion(text, Point(0, 6), Point(1, 6)));
  }

  /** `shift-V j c` from the middle line leaves "The quick brown" and an empty last line. */
  lemma VisualLineChangeMiddleDown()
    ensures var text := ThreeLines();
            var r := LineChange(text, OneMotion(text, Point(1, 6), Point(2, 6)));
            r.text == ["The quick brown", ""] && r.cursor.start == Point(1, 0)
  {
    var text := ThreeLines();
    LineChangeLeavesEmptyLine(text, OneMotion(text, Point(1, 6), Point(2, 6)));
  }

  /** `shift-V j c` on the last line: `j` stays, and the last line is emptied. */
  lemma VisualLineChangeLastDown()
    ensures var text := ThreeLines();
            var r := LineChange(text, OneMotion(text, Point(2, 6), Point(2, 6)));
            r.text == ["The quick brown", "fox jumps over", ""] && r.cursor.start == Point(2, 0)
  {
    var text := ThreeLines();
    LineChangeLeavesEmptyLine(text, OneMotion(text, Point(2, 6), Point(2, 6)));
  }

  /**
   * Two cursors through the `Editor`: `shift-V x` on two lines. The edit
   * hands the cursors back in the other order; each still gets its own
   * column back, found by its id.
   */
  method TwoCursorLineDelete()
  {
    var sels := [Selection(1, Point(0, 6), Point(0, 6), false, NoGoal),
                 Selection(2, Point(2, 3), Point(2, 3), false, NoGoal)];
    var editor := new Editor([15, 14, 12, 7], true, sels);
    var ranges := editor.DeleteLine([14, 7],
      [Selection(2, Point(1, 0), Point(1, 0), false, NoGoal),
       Selection(1, Point(0, 0), Point(0, 0), false, NoGoal)]);
    assert ranges[0].start == Point(0, 0) && ranges[0].end == Point(1, 0);
    assert ranges[1].start == Point(2, 0) && ranges[1].end == Point(3, 0);
    assert editor.selections[0].start == Point(1, 3);
    assert editor.selections[1].start == Point(0, 6);
  }
}
