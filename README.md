# Vim visual-mode selection arithmetic, in Dafny

This project models the selection arithmetic of the vim layer's visual
(characterwise) and visual-line modes in `crates/vim/src/visual.rs`:

- `visual_motion` extends every selection with a motion. The head is
  clipped to the line end. When the head crosses the tail, the tail is
  nudged one column so the character under it stays selected.
- `delete` and `change` turn a selection into the exclusive range they
  remove. A forward selection is extended over the character under its
  head. `delete` then collapses each selection to a cursor at its head.
- `delete_line` and `change_line` expand selections to whole lines.
  `delete_line` records each head column by selection id and gives it back
  to the cursor after the edit.

Modules:

- `DisplayMap` (`display_map.dfy`) holds points, the `Left`/`Right` bias and
  the display snapshot as a list of line lengths. It also holds
  `clip_point`, `clip_at_line_end` and the line boundaries.
- `Selections` (`selection.dfy`) holds the selection record (`id`, `start`,
  `end`, `reversed`, `goal`), its head and tail, and the editor's
  `set_head` and `collapse_to`.
- `Visual` (`visual.dfy`) has one function per `move_with` closure, stating
  what the closure does to one selection. It also has the `Editor` class,
  whose fields are the snapshot, the line-end clipping switch and the
  selections. Its methods run each closure over all selections in place and
  chain the passes of the four commands. Each method's postcondition ties
  the new selections to those functions. The `original_columns` map is a
  local of `DeleteLine`, specified by `RecordColumns`.
- `BufferText` (`buffer_text.dfy`) carries out the buffer edit for one
  selection on the text itself, as lines without terminators.
  `EraseRangeDeletesSpan` proves that erasing `[start, end)` removes exactly
  the characters between the two offsets of the joined text. The four
  commands on one selection are then stated end to end.
- `VisualExamples` (`visual_examples.dfy`) restates as lemmas every
  expected buffer and selection of the visual-mode tests in
  `crates/vim/src/visual.rs`. The paste checks are not restated. It also
  holds a verified two-cursor scenario for `Editor.DeleteLine`
  (`TwoCursorLineDelete`).

The line-end clipping switch is an explicit parameter of every clipping
function. The `Editor` methods set it as the commands do: off for the
adjusting pass, and back on for the delete fix-ups. The `Editor` keeps every
selection on the snapshot with its start not after its end, and every
method preserves that.

Points of visual.rs that are easy to misread:

- The head columns of `delete_line` are recorded in the same pass that
  expands the selections. Each is recorded before its own selection
  changes, which gives the same table as a separate first pass.
- Column restoration happens only in `delete_line`. `change_line` restores
  nothing.
- `change` does not collapse the selections after the edit.
- `reversed` is the flag that `set_head` maintains. For an empty selection
  it is false even though the head equals the start.

## Model

| member | source | states |
|---|---|---|
| DisplayMap.ClipPoint | crates/vim/src/visual.rs:112 | the result is a valid position; a valid position is left unchanged (re-clipping is idempotent); on a row of the snapshot the result is the rightmost valid position at or before the input on that row; a point below the last row snaps to the end of the buffer |
| DisplayMap.ClipPointIgnoresBias | crates/vim/src/visual.rs:100 | on plain line lengths, clipping with `Left` and with `Right` gives the same point, and re-clipping a clipped point changes nothing |
| DisplayMap.MaxColumn | crates/vim/src/visual.rs:108 | with line-end clipping off a position may reach the end of the line; with it on, the last character (column 0 on an empty line) |
| DisplayMap.ClipAtLineEnd | crates/vim/src/visual.rs:31 | the result never lies past the last character of its line and stays on the same row; a position already on a character is unchanged, and a position past the last character moves to exactly the last character (column 0 on an empty line) |
| DisplayMap.PrevLineBoundary | crates/vim/src/visual.rs:79 | the result is the first position of the point's line: same row, in bounds, not after the point, and not after any position of that line |
| DisplayMap.NextLineBoundary | crates/vim/src/visual.rs:80 | the result is the last position of the point's line: same row, in bounds, and not before any position of that line |
| Selections.SetHead | crates/vim/src/visual.rs:33 | the tail is kept, the head becomes the new point, the selection is reversed exactly when the head lies before the tail, start ≤ end, id kept and goal replaced |
| Selections.CollapseTo | crates/vim/src/visual.rs:113 | start, end, head and tail are all the given point, the selection is forward, id kept, goal set |
| Visual.ColumnBefore | crates/vim/src/visual.rs:38-39 | same row; one column back when that column is valid, column 0 stays at 0, never to the right of the input |
| Visual.ColumnAfter | crates/vim/src/visual.rs:43-44 | same row; one column forward while that is still a valid column, otherwise the last valid column |
| Visual.MotionStep | crates/vim/src/visual.rs:30-45 | head = the motion's target clipped to the line end, so never past the last character; new goal stored; reversed iff the head lies before the old tail; no flip leaves the tail alone; reversed→forward moves start to the column before the old tail, forward→reversed moves end to the column after it; bounds and start ≤ end hold afterwards |
| Visual.ApplyMotion | crates/vim/src/visual.rs:30-34 | the motion is applied to the old head and goal; the new head is the motion's point clipped to the line end, the goal is the motion's goal, the id is kept, the selection is reversed exactly when the new head lies before the old tail, and it stays in bounds with start ≤ end |
| Visual.MotionKeepsAnchor | crates/vim/src/visual.rs:35-45 | with line-end clipping off, the character the selection was entered on stays selected through any motion: a forward selection starts on it, a reversed one ends just after it |
| Visual.ExtendEnd | crates/vim/src/visual.rs:95-101 | a reversed selection is unchanged; a forward one keeps its start, and its end moves to one column past the head, clipped; id, direction and goal kept; start ≤ end kept with clipping off |
| Visual.ExtendEndCoversSelection | crates/vim/src/visual.rs:57-63 | the range that delete or change removes starts at the earlier of anchor and head and ends just past the later one: both end characters are included |
| Visual.CollapseAtHead | crates/vim/src/visual.rs:110-114 | the result is a forward cursor (start = end) at the head, clipped Left: on the head's row, at the head's column when that is valid, otherwise at the last valid column of the row; a head already on a valid position is kept; id and goal kept |
| Visual.ExpandToLines | crates/vim/src/visual.rs:78-81 | start moves to column 0 of its row and end to the end of its row; rows, id, direction and goal are unchanged |
| Visual.ExpandToWholeLines | crates/vim/src/visual.rs:127-142 | end above the last row: start at column 0 of its row, end at the start of the next row; end on the last row: start at the end of the previous line when there is one, else at (0, 0); end at the end of its line; id, direction, goal kept; in bounds and ordered |
| Visual.RecordColumns | crates/vim/src/visual.rs:125-128 | every entry of the table is the head column of a recorded selection with that id |
| Visual.RecordColumnsKeys | crates/vim/src/visual.rs:125-128 | the column table holds exactly the ids of the recorded selections |
| Visual.RecordColumnsLastWins | crates/vim/src/visual.rs:128 | the last selection recorded under an id decides its column, as each insert overwrites the earlier one |
| Visual.RecordColumnsFind | crates/vim/src/visual.rs:128 | with distinct ids, each selection's head column is found under its id |
| Visual.RestoreColumn | crates/vim/src/visual.rs:150-157 | the result is a forward cursor on the head's row; with a record, its column is the recorded column clipped to the row; without one it is the plain delete fix-up; id and goal kept |
| Visual.Editor.SetClipAtLineEnds | crates/vim/src/visual.rs:108 | the switch takes the given value |
| Visual.Editor.VisualMotion | crates/vim/src/visual.rs:25-50 | every selection, in place, becomes MotionStep of itself with the motion's result for its old head and goal; all selections stay in bounds |
| Visual.Editor.ExtendEnds | crates/vim/src/visual.rs:94-103 | with clipping off, as both commands set it first, every selection, in place, becomes ExtendEnd of itself with the given bias, and stays in bounds with start ≤ end |
| Visual.Editor.ExpandSelectionsToLines | crates/vim/src/visual.rs:77-82 | every selection, in place, becomes ExpandToLines of itself |
| Visual.Editor.ExpandSelectionsToWholeLines | crates/vim/src/visual.rs:125-143 | every selection, in place, becomes ExpandToWholeLines of itself, and the returned table is the head columns recorded by id before the change |
| Visual.Editor.InsertEmpty | crates/vim/src/visual.rs:105 | the snapshot and the selections become those the buffer edit leaves, which must be in bounds with start ≤ end |
| Visual.Editor.CollapseSelectionsAtHeads | crates/vim/src/visual.rs:109-115 | every selection, in place, becomes CollapseAtHead of itself |
| Visual.Editor.RestoreColumns | crates/vim/src/visual.rs:149-158 | every selection, in place, becomes RestoreColumn of itself with the recorded table |
| Visual.Editor.Change | crates/vim/src/visual.rs:52-71 | the removed ranges are the selections extended with bias Left and clipping off; afterwards line-end clipping stays off and the selections are those the edit leaves |
| Visual.Editor.ChangeLine | crates/vim/src/visual.rs:73-88 | the removed ranges are the selections expanded to their lines; clipping stays off |
| Visual.Editor.Delete | crates/vim/src/visual.rs:90-119 | the removed ranges are the selections extended with bias Right and clipping off; afterwards clipping is on and every selection the edit left is a cursor at its head clipped Left, on the same row |
| Visual.Editor.DeleteLine | crates/vim/src/visual.rs:121-162 | the removed ranges are the whole-line expansions; afterwards clipping is on and, with distinct ids, every cursor the edit left whose id matches an old selection sits on its own row at that selection's old head column, clipped Left |
| BufferText.EraseRange | crates/vim/src/visual.rs:105 | erasing [a, b) removes b.row − a.row lines, and a is still a position of the result |
| BufferText.EraseRangeDeletesSpan | crates/vim/src/visual.rs:105 | the joined text after the erase is the joined text before a followed by the joined text from b: exactly the characters in [a, b) are gone |
| BufferText.CharDelete | crates/vim/src/visual.rs:90-119 | one selection: the result is a forward cursor, same id, on a valid position of the edited text with clipping on |
| BufferText.CharChange | crates/vim/src/visual.rs:52-71 | one selection: the result is a forward cursor, same id, on a position of the edited text |
| BufferText.LineDelete | crates/vim/src/visual.rs:121-162 | one selection: the result is a forward cursor, same id, on a valid position of the edited text with clipping on |
| BufferText.LineChange | crates/vim/src/visual.rs:73-88 | one selection: the result is a forward cursor, same id, on a position of the edited text |
| BufferText.CharDeleteRemovesSelection | crates/vim/src/visual.rs:96-114 | a visual delete removes exactly the characters from the earlier to the later of anchor and head, both included, and leaves the cursor where the removed text began |
| BufferText.CharDeleteOneCharacter | crates/vim/src/visual.rs:96-101 | deleting a one-character selection removes exactly that character, and the cursor stays at that position, clipped |
| BufferText.ChangeErasesAsDelete | crates/vim/src/visual.rs:58-63 | change removes the same text as delete, and its cursor is the start of the removed range |
| BufferText.LineDeleteAboveLast | crates/vim/src/visual.rs:131-135 | deleting lines above the last removes them with their terminators, the next line moves up, and the cursor keeps its column on it |
| BufferText.LineDeleteAtEnd | crates/vim/src/visual.rs:136-141 | deleting lines that end the buffer leaves exactly the lines above, with no empty last line; the cursor keeps its column on the new last line |
| BufferText.LineDeleteEverything | crates/vim/src/visual.rs:141 | deleting every line leaves a single empty line with the cursor at (0, 0) |
| BufferText.LineChangeLeavesEmptyLine | crates/vim/src/visual.rs:79-80 | changing lines replaces them with one empty line, keeping its terminator, with the cursor at its start; lines around are untouched |
| VisualExamples.EnterVisualForward | crates/vim/src/visual.rs:173-183 | `v w j` from "The \|quick" selects forward from (0, 4) to (1, 10) |
| VisualExamples.EnterVisualForwardOnLastLine | crates/vim/src/visual.rs:184-193 | `v w j` from "the \|lazy" selects forward from (2, 4) to (2, 9), `j` staying on the last line |
| VisualExamples.EnterVisualForwardOntoLastLine | crates/vim/src/visual.rs:194-203 | `v w j` from "fox jumps \|over" selects forward from (1, 10) to (2, 0) |
| VisualExamples.EnterVisualBackwardOnFirstLine | crates/vim/src/visual.rs:205-214 | `v b k` from "The \|quick" gives a reversed selection from (0, 0) to (0, 5) |
| VisualExamples.EnterVisualBackward | crates/vim/src/visual.rs:215-224 | `v b k` from "the \|lazy" gives a reversed selection from (1, 0) to (2, 5) |
| VisualExamples.EnterVisualBackwardUp | crates/vim/src/visual.rs:225-234 | `v b k` from "fox jumps \|over" gives a reversed selection from (0, 4) to (1, 11) |
| VisualExamples.VisualDeleteToLineEnd | crates/vim/src/visual.rs:240-241 | `v w x` on "The quick \|brown" leaves "The quick " with the cursor at column 9 |
| VisualExamples.VisualDeleteDown | crates/vim/src/visual.rs:242-252 | `v w j x` from "The \|quick" leaves "The ver" and "the lazy dog", cursor at (0, 4) |
| VisualExamples.VisualDeleteDownOnLastLine | crates/vim/src/visual.rs:259-268 | `v w j x` from "the \|lazy" leaves "the og", cursor at (2, 4) |
| VisualExamples.VisualDeleteDownToLineStart | crates/vim/src/visual.rs:269-277 | `v w j x` from "fox jumps \|over" leaves "fox jumps he lazy dog", cursor at (1, 10) |
| VisualExamples.VisualDeleteUpOnFirstLine | crates/vim/src/visual.rs:278-288 | `v b k x` from "The \|quick" leaves "uick brown", cursor at (0, 0) |
| VisualExamples.VisualDeleteUpToLineStart | crates/vim/src/visual.rs:289-297 | `v b k x` from "the \|lazy" leaves "The quick brown" and "azy dog", cursor at (1, 0) |
| VisualExamples.VisualDeleteUp | crates/vim/src/visual.rs:298-306 | `v b k x` from "fox jumps \|over" leaves "The ver" and "the lazy dog", cursor at (0, 4) |
| VisualExamples.VisualLineDeleteFirst | crates/vim/src/visual.rs:312-322 | `shift-V x` on the first line leaves "fox jumps over" first, cursor at (0, 6) |
| VisualExamples.VisualLineDeleteMiddle | crates/vim/src/visual.rs:329-337 | `shift-V x` on the middle line puts the cursor at column 6 of the following line |
| VisualExamples.VisualLineDeleteLast | crates/vim/src/visual.rs:338-346 | `shift-V x` on the last line leaves two lines and no empty line, cursor at (1, 6) |
| VisualExamples.VisualLineDeleteFirstDown | crates/vim/src/visual.rs:347-355 | `shift-V j x` from the first line leaves only "the lazy dog", cursor at (0, 6) |
| VisualExamples.VisualLineDeleteMiddleDown | crates/vim/src/visual.rs:362-368 | `shift-V j x` from the middle line leaves "The quick brown", cursor at (0, 6) |
| VisualExamples.VisualLineDeleteLastDown | crates/vim/src/visual.rs:369-377 | `shift-V j x` on the last line leaves the two lines above, cursor at (1, 6) |
| VisualExamples.VisualChangeToLineEnd | crates/vim/src/visual.rs:383-384 | `v w c` on "The quick \|brown" leaves "The quick " with the cursor at the line end |
| VisualExamples.VisualChangeDown | crates/vim/src/visual.rs:385-394 | `v w j c` from "The \|quick" leaves "The ver" and "the lazy dog", cursor at (0, 4) |
| VisualExamples.VisualChangeDownOnLastLine | crates/vim/src/visual.rs:395-404 | `v w j c` from "the \|lazy" leaves "the og", cursor at (2, 4) |
| VisualExamples.VisualChangeDownToLineStart | crates/vim/src/visual.rs:405-413 | `v w j c` from "fox jumps \|over" leaves "fox jumps he lazy dog", cursor at (1, 10) |
| VisualExamples.VisualChangeUpOnFirstLine | crates/vim/src/visual.rs:414-424 | `v b k c` from "The \|quick" leaves "uick brown", cursor at (0, 0) |
| VisualExamples.VisualChangeUpToLineStart | crates/vim/src/visual.rs:425-433 | `v b k c` from "the \|lazy" leaves "The quick brown" and "azy dog", cursor at (1, 0) |
| VisualExamples.VisualChangeUp | crates/vim/src/visual.rs:434-442 | `v b k c` from "fox jumps \|over" leaves "The ver" and "the lazy dog", cursor at (0, 4) |
| VisualExamples.VisualLineChangeFirst | crates/vim/src/visual.rs:448-458 | `shift-V c` on the first line leaves an empty first line, cursor at (0, 0) |
| VisualExamples.VisualLineChangeMiddle | crates/vim/src/visual.rs:467-476 | `shift-V c` on the middle line leaves an empty middle line, cursor at (1, 0) |
| VisualExamples.VisualLineChangeLast | crates/vim/src/visual.rs:477-486 | `shift-V c` on the last line leaves an empty last line, cursor at (2, 0) |
| VisualExamples.VisualLineChangeFirstDown | crates/vim/src/visual.rs:487-497 | `shift-V j c` from the first line leaves an empty line and "the lazy dog", cursor at (0, 0) |
| VisualExamples.VisualLineChangeMiddleDown | crates/vim/src/visual.rs:504-512 | `shift-V j c` from the middle line leaves "The quick brown" and an empty line, cursor at (1, 0) |
| VisualExamples.VisualLineChangeLastDown | crates/vim/src/visual.rs:513-522 | `shift-V j c` on the last line leaves an empty last line, cursor at (2, 0) |

## Left out

- Action registration and dispatch (`actions!`, `init`, visual.rs:8-23): framework plumbing with no selection arithmetic.
- `Vim::update`, `update_active_editor` and `Autoscroll::Fit`: UI and context wrappers.
- `copy_selections_content`: register storage is not part of this model. The `Editor` command methods return the ranges that would be copied. The tests' paste round trips depend on it and are not stated.
- `vim.switch_mode`: mode bookkeeping is not part of this model.
- `Motion::move_point`: motions are not modelled. `Editor.VisualMotion` takes the motion as a function of the old head and goal. The example lemmas give the position each motion key reaches.
- Display-map internals (folds, tab expansion, multi-byte characters, display/buffer conversion): the snapshot is a list of line lengths and `to_point` is the identity.
- Visual.Editor.InsertEmpty: the buffer edit belongs to the editor, so its outcome (new line lengths and the selections left behind) is a parameter. It is not computed. The editor's merging of overlapping selections is likewise outside the model. The edit is computed on real text only for one selection, in `BufferText`.
- DisplayMap.ClipPoint: both biases clip alike. With plain line lengths there is no position between two valid stops for the bias to choose from.
- DisplayMap.ClipAtLineEnd: it clamps any column past the last character, whatever the clipping switch says. It is not limited to a column exactly at the line end.
- BufferText.CharDelete: after the edit the cursor keeps the range's goal. What goal the editor gives the cursors it creates is not modelled.
- Visual.Editor.ExtendEnds: it is stated only with line-end clipping off. Both commands switch clipping off before this pass (visual.rs:55, 93). With clipping on, extending a cursor at the end of a line could put the end before the start.
