/** The selection cursor of the menu: the selected note is an index into the
    note list, and the arrow keys move it along the visual order. */
module Cursor {
  import opened Ordering

  /** get_visual_position: where the selected note is shown, or -1 when there
      is no selection or it is not on screen. */
  function VisualPosition(notes: seq<string>, current: int, v: seq<int>): (pos: int)
    ensures -1 <= pos < |v|
    ensures pos >= 0 ==> v[pos] == current && current !in v[..pos]
    ensures pos == -1 <==> |notes| == 0 || current < 0 || current !in v
  {
    if |notes| == 0 || current < 0 then -1 else IndexOf(v, current)
  }

  /** The selection after move_up. */
  function MoveUpTarget(notes: seq<string>, current: int, v: seq<int>): int
  {
    if |notes| == 0 || |v| == 0 then current
    else
      var pos := VisualPosition(notes, current, v);
      if pos <= 0 then current else v[pos - 1]
  }

  /** The selection after move_down. */
  function MoveDownTarget(notes: seq<string>, current: int, v: seq<int>): int
  {
    if |notes| == 0 || |v| == 0 then current
    else
      var pos := VisualPosition(notes, current, v);
      if pos < 0 || pos >= |v| - 1 then current else v[pos + 1]
  }

  /** In a visual order that shows every note once, the position of the
      note at position `p` is `p`. */
  lemma PositionOfShownNote(notes: seq<string>, v: seq<int>, p: int)
    requires IsPermutationOfRange(v, |notes|) && 0 <= p < |v|
    ensures 0 <= v[p] < |notes|
    ensures VisualPosition(notes, v[p], v) == p
  {
    var r := VisualPosition(notes, v[p], v);
    assert v[p] in v;
    if r < p {
      assert v[r] == v[p];
    }
  }

  /** A selection is on screen exactly when it is an index of the list. */
  lemma SelectionIsShown(notes: seq<string>, current: int, v: seq<int>)
    requires IsPermutationOfRange(v, |notes|)
    ensures VisualPosition(notes, current, v) >= 0 <==> 0 <= current < |notes|
  {
    if 0 <= current < |notes| {
      assert current in v;
    }
  }

  /** move_up keeps the selection at the top or off screen, and otherwise
      selects the note shown one line higher, which is a note of the list. */
  lemma MoveUpStep(notes: seq<string>, current: int, v: seq<int>)
    requires IsPermutationOfRange(v, |notes|)
    ensures var pos := VisualPosition(notes, current, v);
            var t := MoveUpTarget(notes, current, v);
            && (pos <= 0 ==> t == current)
            && (pos > 0 ==> 0 <= t < |notes| && VisualPosition(notes, t, v) == pos - 1)
  {
    var pos := VisualPosition(notes, current, v);
    if pos > 0 {
      PositionOfShownNote(notes, v, pos - 1);
    }
  }

  /** move_down keeps the selection at the bottom or off screen, and
      otherwise selects the note shown one line lower. */
  lemma MoveDownStep(notes: seq<string>, current: int, v: seq<int>)
    requires IsPermutationOfRange(v, |notes|)
    ensures var pos := VisualPosition(notes, current, v);
            var t := MoveDownTarget(notes, current, v);
            && (pos < 0 || pos == |v| - 1 ==> t == current)
            && (0 <= pos < |v| - 1 ==> 0 <= t < |notes| && VisualPosition(notes, t, v) == pos + 1)
  {
    var pos := VisualPosition(notes, current, v);
    if 0 <= pos < |v| - 1 {
      PositionOfShownNote(notes, v, pos + 1);
    }
  }

  /** Moving down after a move up that moved returns to the same note, and
      the other way round. */
  lemma MovesAreInverse(notes: seq<string>, current: int, v: seq<int>)
    requires IsPermutationOfRange(v, |notes|)
    ensures VisualPosition(notes, current, v) > 0 ==>
              MoveDownTarget(notes, MoveUpTarget(notes, current, v), v) == current
    ensures 0 <= VisualPosition(notes, current, v) < |v| - 1 ==>
              MoveUpTarget(notes, MoveDownTarget(notes, current, v), v) == current
  {
    var pos := VisualPosition(notes, current, v);
    if pos > 0 {
      PositionOfShownNote(notes, v, pos - 1);
    }
    if 0 <= pos < |v| - 1 {
      PositionOfShownNote(notes, v, pos + 1);
    }
  }
}
