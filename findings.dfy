/** The neighbour and capture guards of `GetAllStep` and `RunStep` as they
    are written in `nonzero.go`: they bound the blank's row by `xMax` (the
    number of columns) and its column by `yMax` (the number of rows). On a
    square board that is harmless; on any other board it offers steps off
    the board, reads past the array, or turns a capture into a slide. The
    rest of the model uses the corrected guards of `Rules.Moves` and
    `Rules.Apply`. A read or write outside the array, where the source
    panics, is `None` here. */
module Findings {
  import opened Rules

  /** The source's `get`: the count at flat index `w * i + j`, or `None`
      where that index is outside the array. */
  function Read(c: seq<int>, w: int, i: int, j: int): (r: Option<int>)
    ensures r.Some? <==> 0 <= Idx(w, i, j) < |c|
    ensures r.Some? ==> r.value == c[Idx(w, i, j)]
  {
    if 0 <= Idx(w, i, j) < |c| then Some(c[Idx(w, i, j)]) else None
  }

  /** One guarded neighbour test of `GetAllStep` as written: the cell is
      read only when the guard holds. */
  function PickAsWritten(guard: bool, c: seq<int>, w: nat, i: int, j: int): (r: Option<seq<Step>>)
    ensures !guard ==> r == Some([])
    ensures guard ==> (r.None? <==> !(0 <= Idx(w, i, j) < |c|))
    ensures r.Some? ==> r.value == [] || (r.value == [Step(i, j)] && Playable(c, w, Step(i, j)))
    ensures guard && Playable(c, w, Step(i, j)) ==> r == Some([Step(i, j)])
  {
    if !guard then Some([])
    else match Read(c, w, i, j)
      case None => None
      case Some(v) => Some(if v > 0 then [Step(i, j)] else [])
  }

  /** Two parts of the step list in order; a panic in either is a panic. */
  function Then(a: Option<seq<Step>>, b: Option<seq<Step>>): Option<seq<Step>> {
    match a
    case None => None
    case Some(x) => match b
      case None => None
      case Some(y) => Some(x + y)
  }

  /** `GetAllStep` as written: the "down" test bounds the row by `w - 1`
      and the "right" test bounds the column by `h - 1`. */
  function MovesAsWritten(c: seq<int>, w: nat, h: nat, b: int): (r: Option<seq<Step>>)
    requires WellFormed(c, w, h) && 0 <= b < |c|
    ensures r.Some? ==> |r.value| <= 4 && forall st :: st in r.value ==> Playable(c, w, st)
  {
    Coords(w, h, b);
    var x, y := b / w, b % w;
    Then(Then(Then(PickAsWritten(x > 0, c, w, x - 1, y), PickAsWritten(y > 0, c, w, x, y - 1)),
              PickAsWritten(x < w - 1, c, w, x + 1, y)),
         PickAsWritten(y < h - 1, c, w, x, y + 1))
  }

  /** `RunStep` as written: the capture test bounds the opposite row by `w`
      and its column by `h`. */
  function ApplyAsWritten(c: seq<int>, w: nat, h: nat, s: Step, b: int): (r: Option<seq<int>>)
    requires WellFormed(c, w, h) && 0 <= b < |c|
    ensures r.Some? ==> 0 <= Idx(w, s.x, s.y) < |c| && |r.value| == |c|
    ensures w > 0
    ensures var xO, yO := 2 * (b / w) - s.x, 2 * (b % w) - s.y;
      var capture := xO >= 0 && xO < w && yO >= 0 && yO < h;
      (r.None? <==> !(0 <= Idx(w, s.x, s.y) < |c|) || (capture && !(0 <= Idx(w, xO, yO) < |c|))) &&
      (r.Some? ==> r.value[b] == (if capture then c[Idx(w, s.x, s.y)] - 1 else c[Idx(w, s.x, s.y)]))
  {
    Coords(w, h, b);
    var xB, yB := b / w, b % w;
    var xO, yO := 2 * xB - s.x, 2 * yB - s.y;
    match Read(c, w, s.x, s.y)
    case None => None
    case Some(carried) =>
      var c1 := c[Idx(w, s.x, s.y) := -1];
      if xO >= 0 && xO < w && yO >= 0 && yO < h then
        match Read(c1, w, xO, yO)
        case None => None
        case Some(v) => Some(c1[Idx(w, xO, yO) := v - 1][b := carried - 1])
      else
        Some(c1[b := carried])
  }

  /** The step list as written for the blank at row `x`, column `y`. */
  lemma MovesAsWrittenAt(c: seq<int>, w: nat, h: nat, x: int, y: int)
    requires WellFormed(c, w, h) && InBoard(w, h, x, y)
    ensures 0 <= Idx(w, x, y) < |c|
    ensures MovesAsWritten(c, w, h, Idx(w, x, y)) ==
      Then(Then(Then(PickAsWritten(x > 0, c, w, x - 1, y), PickAsWritten(y > 0, c, w, x, y - 1)),
                PickAsWritten(x < w - 1, c, w, x + 1, y)),
           PickAsWritten(y < h - 1, c, w, x, y + 1))
  {
    IdxBounds(w, h, x, y);
    IdxDivMod(w, x, y);
  }

  /** A move as written into the blank at row `x`, column `y`. */
  lemma ApplyAsWrittenAt(c: seq<int>, w: nat, h: nat, s: Step, x: int, y: int)
    requires WellFormed(c, w, h) && InBoard(w, h, x, y)
    ensures 0 <= Idx(w, x, y) < |c|
    ensures var b, xO, yO := Idx(w, x, y), 2 * x - s.x, 2 * y - s.y;
      ApplyAsWritten(c, w, h, s, b) ==
      match Read(c, w, s.x, s.y)
      case None => None
      case Some(carried) =>
        var c1 := c[Idx(w, s.x, s.y) := -1];
        if xO >= 0 && xO < w && yO >= 0 && yO < h then
          match Read(c1, w, xO, yO)
          case None => None
          case Some(v) => Some(c1[Idx(w, xO, yO) := v - 1][b := carried - 1])
        else
          Some(c1[b := carried])
  {
    IdxBounds(w, h, x, y);
    IdxDivMod(w, x, y);
  }

  /** On a board with 2 columns and 3 rows and the blank at row 0, column 1,
      the code as written offers step (0, 2), a column that does not exist:
      it reads the cell at row 1, column 0 instead. The corrected list is
      empty. */
  lemma OffBoardStep(c: seq<int>)
    requires c == [0, -1, 1, 0, 0, 0]
    ensures MovesAsWritten(c, 2, 3, 1) == Some([Step(0, 2)]) && !InBoard(2, 3, 0, 2)
    ensures Moves(c, 2, 3, 1) == []
  {
    OffBoardAsWritten(c);
    OffBoardCorrected(c);
  }

  lemma OffBoardAsWritten(c: seq<int>)
    requires c == [0, -1, 1, 0, 0, 0]
    ensures MovesAsWritten(c, 2, 3, 1) == Some([Step(0, 2)])
  {
    MovesAsWrittenAt(c, 2, 3, 0, 1);
    var up, left := PickAsWritten(false, c, 2, -1, 1), PickAsWritten(true, c, 2, 0, 0);
    var down, right := PickAsWritten(true, c, 2, 1, 1), PickAsWritten(true, c, 2, 0, 2);
    assert up == Some([]) && left == Some([]) && down == Some([]);
    assert right == Some([Step(0, 2)]);
    var empty: seq<Step> := [];
    assert empty + empty == empty && empty + [Step(0, 2)] == [Step(0, 2)];
    assert Then(Then(up, left), down) == Some(empty);
  }

  lemma OffBoardCorrected(c: seq<int>)
    requires c == [0, -1, 1, 0, 0, 0]
    ensures Moves(c, 2, 3, 1) == []
  {
    MovesAt(c, 2, 3, 0, 1);
  }

  /** On a board with 3 columns and 2 rows and the blank at row 1, column 0,
      the code as written tests a row 2 that does not exist and reads past
      the end of the array, whatever the counts. */
  lemma ReadPastEnd(c: seq<int>)
    requires |c| == 6
    ensures MovesAsWritten(c, 3, 2, 3) == None
  {
    MovesAsWrittenAt(c, 3, 2, 1, 0);
    assert PickAsWritten(true, c, 3, 2, 0) == None;
  }

  /** On a board with 2 columns and 3 rows, the blank at row 1, column 0,
      and a 1 above it, the opposite cell (2, 0) is on the board, so the
      move is a capture; the code as written slides instead and leaves the
      count on the board. */
  lemma MissedCapture(c: seq<int>)
    requires c == [1, 0, -1, 0, 1, 0]
    ensures Step(0, 0) in Moves(c, 2, 3, 2)
    ensures ApplyAsWritten(c, 2, 3, Step(0, 0), 2) == Some([-1, 0, 1, 0, 1, 0])
    ensures Apply(c, 2, 3, Step(0, 0), 2) == [-1, 0, 0, 0, 0, 0]
  {
    MovesAt(c, 2, 3, 1, 0);
    MissedCaptureAsWritten(c);
    MissedCaptureCorrected(c);
  }

  lemma MissedCaptureAsWritten(c: seq<int>)
    requires c == [1, 0, -1, 0, 1, 0]
    ensures ApplyAsWritten(c, 2, 3, Step(0, 0), 2) == Some([-1, 0, 1, 0, 1, 0])
  {
    ApplyAsWrittenAt(c, 2, 3, Step(0, 0), 1, 0);
    var c1 := c[0 := -1];
    assert c1[2 := 1] == [-1, 0, 1, 0, 1, 0];
  }

  lemma MissedCaptureCorrected(c: seq<int>)
    requires c == [1, 0, -1, 0, 1, 0]
    ensures Apply(c, 2, 3, Step(0, 0), 2) == [-1, 0, 0, 0, 0, 0]
  {
    IdxDivMod(2, 1, 0);
    CaptureIs(c, 2, 3, Step(0, 0), 2);
    var r := Apply(c, 2, 3, Step(0, 0), 2);
    assert r[0] == -1 && r[1] == 0 && r[2] == 0 && r[3] == 0 && r[4] == 0 && r[5] == 0;
  }

  /** Where the guard admits an on-board cell, the test as written is the
      corrected one. */
  lemma PickAgrees(guard: bool, c: seq<int>, w: nat, h: nat, i: int, j: int)
    requires WellFormed(c, w, h) && (guard ==> InBoard(w, h, i, j))
    ensures PickAsWritten(guard, c, w, i, j) == Some(Pick(guard, c, w, h, i, j))
  {
    if guard {
      IdxBounds(w, h, i, j);
    }
  }

  /** On a square board the step list as written is the corrected one. */
  lemma SquareMovesAgree(c: seq<int>, w: nat, h: nat, b: int)
    requires WellFormed(c, w, h) && 0 <= b < |c| && w == h
    ensures MovesAsWritten(c, w, h, b) == Some(Moves(c, w, h, b))
  {
    Coords(w, h, b);
    var x, y := b / w, b % w;
    PickAgrees(x > 0, c, w, h, x - 1, y);
    PickAgrees(y > 0, c, w, h, x, y - 1);
    PickAgrees(x < w - 1, c, w, h, x + 1, y);
    PickAgrees(y < h - 1, c, w, h, x, y + 1);
  }

  /** On a square board a move played as written is the corrected move. */
  lemma SquareApplyAgrees(c: seq<int>, w: nat, h: nat, s: Step, b: int)
    requires WellFormed(c, w, h) && 0 <= b < |c| && w == h
    requires InBoard(w, h, s.x, s.y) && Adjacent(s, b / w, b % w)
    ensures 0 <= Idx(w, s.x, s.y) < |c|
    ensures ApplyAsWritten(c, w, h, s, b) == Some(Apply(c, w, h, s, b))
  {
    MoveIndices(w, h, s, b);
    var o := Opposite(s, b / w, b % w);
    var si := Idx(w, s.x, s.y);
    if InBoard(w, h, o.x, o.y) {
      assert Apply(c, w, h, s, b) == Shift(c, si, b, Idx(w, o.x, o.y), true);
    } else {
      assert Apply(c, w, h, s, b) == Shift(c, si, b, 0, false);
    }
  }
}
