/** Why the search ends: on a board with no side of length two every move
    lowers a measure, and on a board with a side of length two it need not
    end at all. */
module Termination {
  import opened Rules

  /** How many of the blank's row and column lie on the border of the
      board: a move that slides instead of capturing lowers it. */
  function Edge(c: seq<int>, w: nat, h: nat): nat {
    if w == 0 then 0 else EdgeAt(w, h, Blank(c) / w, Blank(c) % w)
  }

  /** A capture takes the carried count off the board, one more from the
      opposite cell and gives back one less than it took: the sum of the
      positive counts drops. */
  lemma CaptureShiftSum(c: seq<int>, si: int, b: int, oi: int)
    requires 0 <= si < |c| && 0 <= b < |c| && 0 <= oi < |c|
    requires si != b && oi != b && oi != si && c[si] > 0 && c[b] < 0
    ensures PosSum(Shift(c, si, b, oi, true)) < PosSum(c)
  {
    var v := c[si];
    var c1 := c[si := -1];
    var c2 := c1[oi := c[oi] - 1];
    assert Shift(c, si, b, oi, true) == c2[b := v - 1];
    PosSumUpdate(c, si, -1);
    PosSumUpdate(c1, oi, c[oi] - 1);
    PosSumUpdate(c2, b, v - 1);
    assert c2[b] == c[b];
  }

  /** A slide moves a positive count into a negative cell: the sum of the
      positive counts stays. */
  lemma SlideShiftSum(c: seq<int>, si: int, b: int)
    requires 0 <= si < |c| && 0 <= b < |c| && si != b && c[si] > 0 && c[b] < 0
    ensures PosSum(Shift(c, si, b, 0, false)) == PosSum(c)
  {
    var c1 := c[si := -1];
    PosSumUpdate(c, si, -1);
    PosSumUpdate(c1, b, c[si]);
  }

  /** A slide leaves the blank a border it was on: the cell opposite the
      move is off the board, so the blank sits on that border, and the cell
      it moves to, one step inwards, is on no border in that direction
      unless that side has length two. */
  lemma SlideEdge(w: nat, h: nat, s: Step, xB: int, yB: int)
    requires w != 2 && h != 2 && InBoard(w, h, s.x, s.y) && InBoard(w, h, xB, yB)
    requires Adjacent(s, xB, yB)
    requires var o := Opposite(s, xB, yB); !InBoard(w, h, o.x, o.y)
    ensures EdgeAt(w, h, s.x, s.y) < EdgeAt(w, h, xB, yB)
  {
  }

  /** A capture lowers the sum of the positive counts. */
  lemma CaptureLowersSum(c: seq<int>, w: nat, h: nat, s: Step)
    requires WellFormed(c, w, h) && IsValid(c)
    requires s in Moves(c, w, h, Blank(c))
    requires var o := Opposite(s, Blank(c) / w, Blank(c) % w); InBoard(w, h, o.x, o.y)
    ensures PosSum(Apply(c, w, h, s, Blank(c))) < PosSum(c)
  {
    BlankUnique(c);
    var b := Blank(c);
    MovesSound(c, w, h, b);
    MoveIndices(w, h, s, b);
    var o := Opposite(s, b / w, b % w);
    var si, oi := Idx(w, s.x, s.y), Idx(w, o.x, o.y);
    assert Apply(c, w, h, s, b) == Shift(c, si, b, oi, true);
    CaptureShiftSum(c, si, b, oi);
  }

  /** A slide keeps the sum of the positive counts and, on a board with no
      side of length two, moves the blank off one of the borders it was on. */
  lemma SlideLeavesBorder(c: seq<int>, w: nat, h: nat, s: Step)
    requires WellFormed(c, w, h) && w != 2 && h != 2 && IsValid(c)
    requires s in Moves(c, w, h, Blank(c))
    requires var o := Opposite(s, Blank(c) / w, Blank(c) % w); !InBoard(w, h, o.x, o.y)
    ensures PosSum(Apply(c, w, h, s, Blank(c))) == PosSum(c)
    ensures Edge(Apply(c, w, h, s, Blank(c)), w, h) < Edge(c, w, h)
  {
    BlankUnique(c);
    var b := Blank(c);
    Coords(w, h, b);
    MovesSound(c, w, h, b);
    MoveIndices(w, h, s, b);
    var si := Idx(w, s.x, s.y);
    var r := Apply(c, w, h, s, b);
    assert r == Shift(c, si, b, 0, false);
    SlideShiftSum(c, si, b);
    ShiftEffect(c, si, b, 0, false);
    ValidIff(r, si);
    IdxDivMod(w, s.x, s.y);
    SlideEdge(w, h, s, b / w, b % w);
  }

  /** On a board with no side of length two every move lowers the sum of
      the positive counts, or keeps it and moves the blank off a border. */
  lemma MoveDecreases(c: seq<int>, w: nat, h: nat, s: Step)
    requires WellFormed(c, w, h) && w != 2 && h != 2 && IsValid(c)
    requires s in Moves(c, w, h, Blank(c))
    ensures var r := Apply(c, w, h, s, Blank(c));
      PosSum(r) < PosSum(c) || (PosSum(r) == PosSum(c) && Edge(r, w, h) < Edge(c, w, h))
  {
    var o := Opposite(s, Blank(c) / w, Blank(c) % w);
    if InBoard(w, h, o.x, o.y) {
      CaptureLowersSum(c, w, h, s);
    } else {
      SlideLeavesBorder(c, w, h, s);
    }
  }

  /** On a 2 by 2 board the search can return to a board it has already
      seen: from [-1, 1, 0, 0] the first move slides the 1 from the right
      into the blank on the left, and the first move from there slides it
      back, so the source recurses forever. */
  lemma SideTwoCycles(c: seq<int>, d: seq<int>)
    requires c == [-1, 1, 0, 0] && d == [1, -1, 0, 0]
    ensures IsValid(c) && !IsEnd(c, 2, 2) && Blank(c) == 0
    ensures Moves(c, 2, 2, 0) == [Step(0, 1)] && Apply(c, 2, 2, Step(0, 1), 0) == d
    ensures IsValid(d) && !IsEnd(d, 2, 2) && Blank(d) == 1
    ensures Moves(d, 2, 2, 1) == [Step(0, 0)] && Apply(d, 2, 2, Step(0, 0), 1) == c
  {
    CycleBoard(c, 0, 1);
    CycleBoard(d, 1, 0);
    CycleThereMoves(c);
    CycleThereApply(c);
    CycleBackMoves(d);
    CycleBackApply(d);
  }

  lemma CycleThereMoves(c: seq<int>)
    requires c == [-1, 1, 0, 0]
    ensures Moves(c, 2, 2, 0) == [Step(0, 1)]
  {
    IdxDivMod(2, 0, 0);
  }

  lemma CycleThereApply(c: seq<int>)
    requires c == [-1, 1, 0, 0]
    ensures Apply(c, 2, 2, Step(0, 1), 0) == [1, -1, 0, 0]
  {
    IdxDivMod(2, 0, 0);
    SlideIs(c, 2, 2, Step(0, 1), 0);
  }

  lemma CycleBackMoves(d: seq<int>)
    requires d == [1, -1, 0, 0]
    ensures Moves(d, 2, 2, 1) == [Step(0, 0)]
  {
    IdxDivMod(2, 0, 1);
  }

  lemma CycleBackApply(d: seq<int>)
    requires d == [1, -1, 0, 0]
    ensures Apply(d, 2, 2, Step(0, 0), 1) == [-1, 1, 0, 0]
  {
    IdxDivMod(2, 0, 1);
    SlideIs(d, 2, 2, Step(0, 0), 1);
  }

  /** A 2 by 2 board holding a blank at `b`, a 1 at `p` and zeros elsewhere
      is a game that does not pass the end check. */
  lemma CycleBoard(c: seq<int>, b: nat, p: nat)
    requires |c| == 4 && b < 4 && p < 4 && b != p && c[b] == -1 && c[p] == 1
    requires forall j :: 0 <= j < 4 && j != b && j != p ==> c[j] == 0
    ensures IsValid(c) && Blank(c) == b && !IsEnd(c, 2, 2)
  {
    ValidIff(c, b);
    EndIff(c, 2, 2);
  }
}
