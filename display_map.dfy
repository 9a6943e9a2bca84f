/**
 * The display map as the vim visual-mode commands see it: a snapshot of the
 * buffer's display rows given by their lengths, the "clip at line ends"
 * switch, and the clipping that snaps a position back onto a line.
 * Folds, tab expansion and multi-byte characters are not modelled, so a
 * display point and a buffer point coincide (`to_point` is the identity).
 */
module DisplayMap {

  /** A display position; rows and columns count from zero. */
  datatype Point = Point(row: nat, column: nat)

  /** The direction in which a position that is not a valid stop is snapped. */
  datatype Bias = Left | Right

  /** The total order on points: by row, then by column. */
  predicate Less(a: Point, b: Point)
  {
    a.row < b.row || (a.row == b.row && a.column < b.column)
  }

  predicate LessEq(a: Point, b: Point)
  {
    a.row < b.row || (a.row == b.row && a.column <= b.column)
  }

  function MinPoint(a: Point, b: Point): Point
  {
    if LessEq(a, b) then a else b
  }

  function MaxPoint(a: Point, b: Point): Point
  {
    if LessEq(a, b) then b else a
  }

  /** The lengths of the display rows of a snapshot; a buffer always has a row. */
  type Lines = s: seq<nat> | |s| > 0 witness [0]

  /** `max_point().row()`. */
  function MaxRow(lines: Lines): nat
  {
    |lines| - 1
  }

  /** `line_len(row)`. */
  function LineLen(lines: Lines, row: nat): nat
    requires row < |lines|
  {
    lines[row]
  }

  /**
   * The rightmost column a position on `row` may take: the end of the line
   * when line-end clipping is off, its last character (column 0 on an
   * empty line) when it is on.
   */
  function MaxColumn(lines: Lines, row: nat, clipAtLineEnds: bool): (c: nat)
    requires row < |lines|
    ensures c <= LineLen(lines, row)
    ensures !clipAtLineEnds ==> c == LineLen(lines, row)
    ensures clipAtLineEnds ==> c + 1 == LineLen(lines, row) || c == LineLen(lines, row) == 0
  {
    if clipAtLineEnds && lines[row] > 0 then lines[row] - 1 else lines[row]
  }

  /** `p` names a position of the snapshot (possibly the end of its line). */
  predicate InBounds(lines: Lines, p: Point)
  {
    p.row < |lines| && p.column <= lines[p.row]
  }

  /** `p` is a position clipping leaves where it is. */
  predicate IsClipped(lines: Lines, p: Point, clipAtLineEnds: bool)
  {
    p.row < |lines| && p.column <= MaxColumn(lines, p.row, clipAtLineEnds)
  }

  /**
   * `clip_point(p, bias)`: the nearest valid position. On a row of the
   * snapshot that is the rightmost valid position at or before `p` on the
   * same row; a point below the last row snaps to the end of the buffer.
   * With rows given only by their lengths, both biases clip alike.
   */
  function ClipPoint(lines: Lines, p: Point, bias: Bias, clipAtLineEnds: bool): (r: Point)
    ensures IsClipped(lines, r, clipAtLineEnds)
    ensures IsClipped(lines, p, clipAtLineEnds) ==> r == p
    ensures p.row < |lines| ==> r.row == p.row && r.column <= p.column
    ensures p.row < |lines| ==>
      forall c: nat :: c <= p.column && IsClipped(lines, Point(p.row, c), clipAtLineEnds) ==> c <= r.column
    ensures p.row >= |lines| ==>
      r == Point(MaxRow(lines), MaxColumn(lines, MaxRow(lines), clipAtLineEnds))
  {
    if p.row > MaxRow(lines) then
      Point(MaxRow(lines), MaxColumn(lines, MaxRow(lines), clipAtLineEnds))
    else if p.column <= MaxColumn(lines, p.row, clipAtLineEnds) then
      p
    else
      Point(p.row, MaxColumn(lines, p.row, clipAtLineEnds))
  }

  /**
   * `clip_at_line_end(p)`: the head of a visual selection never rests past
   * the last character of its line, whatever the clipping switch says.
   */
  function ClipAtLineEnd(lines: Lines, p: Point): (r: Point)
    ensures IsClipped(lines, r, true)
    ensures IsClipped(lines, p, true) ==> r == p
    ensures p.row < |lines| ==> r.row == p.row
    ensures p.row < |lines| && !IsClipped(lines, p, true) ==> r.column == MaxColumn(lines, p.row, true)
  {
    ClipPoint(lines, p, Left, true)
  }

  /** `prev_line_boundary(p).1`: the start of `p`'s line. */
  function PrevLineBoundary(lines: Lines, p: Point): (r: Point)
    requires p.row < |lines|
    ensures InBounds(lines, r) && r.row == p.row && LessEq(r, p)
    ensures forall q :: InBounds(lines, q) && q.row == p.row ==> LessEq(r, q)
  {
    Point(p.row, 0)
  }

  /** `next_line_boundary(p).1`: the end of `p`'s line. */
  function NextLineBoundary(lines: Lines, p: Point): (r: Point)
    requires p.row < |lines|
    ensures InBounds(lines, r) && r.row == p.row
    ensures forall q :: InBounds(lines, q) && q.row == p.row ==> LessEq(q, r)
  {
    Point(p.row, LineLen(lines, p.row))
  }

  /** Clipping is idempotent, and the bias never changes its result. */
  lemma ClipPointIgnoresBias(lines: Lines, p: Point, clipAtLineEnds: bool)
    ensures ClipPoint(lines, p, Left, clipAtLineEnds) == ClipPoint(lines, p, Right, clipAtLineEnds)
    ensures ClipPoint(lines, ClipPoint(lines, p, Left, clipAtLineEnds), Right, clipAtLineEnds)
         == ClipPoint(lines, p, Left, clipAtLineEnds)
  {
  }
}
