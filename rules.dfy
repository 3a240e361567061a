/** The rules of the NonZero puzzle, stated on the flat cell sequence of a
    board. A board of width `w` (the row stride, `xMax`) and height `h`
    (`yMax`) stores cell (row i, column j) at index `w * i + j`; exactly one
    cell of a game is negative, the blank. These functions are the
    specification the methods of class `NonZero.Board` are proved against. */
module Rules {

  /** A move, named by the 0-based (row, column) of the cell moved from. */
  datatype Step = Step(x: int, y: int)

  datatype Option<T> = None | Some(value: T)

  /** Flat index of cell (i, j) on a board whose row stride is `w`. */
  function Idx(w: int, i: int, j: int): int { w * i + j }

  /** Row `i` and column `j` lie on a board of width `w` and height `h`. */
  predicate InBoard(w: int, h: int, i: int, j: int) {
    0 <= i < h && 0 <= j < w
  }

  /** The cell sequence has the board's size. */
  predicate WellFormed(c: seq<int>, w: nat, h: nat) { |c| == w * h }

  /** The 1-based (row, column) pair by which a step is written out. */
  function Label(s: Step): (r: (int, int))
    ensures Unlabel(r) == s
  {
    (s.x + 1, s.y + 1)
  }

  /** The step a 1-based (row, column) pair names. */
  function Unlabel(p: (int, int)): Step { Step(p.0 - 1, p.1 - 1) }

  lemma IdxBounds(w: nat, h: nat, i: int, j: int)
    requires InBoard(w, h, i, j)
    ensures 0 <= Idx(w, i, j) < w * h
  {
    assert w * (h - 1 - i) >= 0;
  }

  /** Row and column of a flat index are its quotient and remainder by `w`. */
  lemma IdxDivMod(w: nat, i: int, j: int)
    requires w > 0 && 0 <= j < w
    ensures Idx(w, i, j) / w == i && Idx(w, i, j) % w == j
  {
    var q, r := Idx(w, i, j) / w, Idx(w, i, j) % w;
    assert w * q + r == w * i + j;
    assert w * (q - i) == j - r;
    assert q - i >= 1 ==> w * (q - i) >= w;
    assert q - i <= -1 ==> w * (i - q) >= w;
  }

  /** A flat index on the board names an on-board (row, column) pair. */
  lemma Coords(w: nat, h: nat, b: int)
    requires 0 <= b < w * h
    ensures w > 0 && h > 0
    ensures InBoard(w, h, b / w, b % w) && Idx(w, b / w, b % w) == b
  {
    assert w == 0 || h == 0 ==> w * h == 0;
    var x, y := b / w, b % w;
    assert b == w * x + y;
    assert x >= h ==> w * (x - h) >= 0;
    assert x < 0 ==> w * (-x) >= w;
  }

  /** `st` is one of the four orthogonal neighbours of cell (x, y). */
  predicate Adjacent(st: Step, x: int, y: int) {
    st == Step(x - 1, y) || st == Step(x, y - 1) || st == Step(x + 1, y) || st == Step(x, y + 1)
  }

  /** Position of a neighbour in the generation order: up, left, down, right. */
  function Rank(st: Step, x: int, y: int): int {
    if st.x < x then 0 else if st.y < y then 1 else if st.x > x then 2 else 3
  }

  /** Step `st` names a cell of `c` that holds a count above zero. */
  predicate Playable(c: seq<int>, w: nat, st: Step) {
    0 <= Idx(w, st.x, st.y) < |c| && c[Idx(w, st.x, st.y)] > 0
  }

  /** Cell (i, j) is on the board and holds a count greater than zero. */
  predicate Occupied(c: seq<int>, w: nat, h: nat, i: int, j: int) {
    InBoard(w, h, i, j) && Playable(c, w, Step(i, j))
  }

  /** The one-step list holding (i, j) when `guard` holds and the cell is
      occupied, the empty list otherwise. */
  function Pick(guard: bool, c: seq<int>, w: nat, h: nat, i: int, j: int): (r: seq<Step>)
    requires WellFormed(c, w, h) && (guard ==> InBoard(w, h, i, j))
    ensures r == [] || (r == [Step(i, j)] && Occupied(c, w, h, i, j))
    ensures !guard ==> r == []
    ensures guard && Occupied(c, w, h, i, j) ==> r == [Step(i, j)]
  {
    if guard && (IdxBounds(w, h, i, j); c[Idx(w, i, j)] > 0) then [Step(i, j)] else []
  }

  /** The moves available to the blank at flat index `b`: its orthogonal
      neighbours that hold a count above zero, up, left, down, right. */
  function Moves(c: seq<int>, w: nat, h: nat, b: int): (r: seq<Step>)
    requires WellFormed(c, w, h) && 0 <= b < |c|
    ensures |r| <= 4
    ensures forall st :: st in r ==> Playable(c, w, st)
  {
    Coords(w, h, b);
    var x, y := b / w, b % w;
    Pick(x > 0, c, w, h, x - 1, y) + Pick(y > 0, c, w, h, x, y - 1)
    + Pick(x < h - 1, c, w, h, x + 1, y) + Pick(y < w - 1, c, w, h, x, y + 1)
  }

  /** The moves of the blank at row `x`, column `y`. */
  lemma MovesAt(c: seq<int>, w: nat, h: nat, x: int, y: int)
    requires WellFormed(c, w, h) && InBoard(w, h, x, y)
    ensures 0 <= Idx(w, x, y) < |c|
    ensures Moves(c, w, h, Idx(w, x, y)) ==
      Pick(x > 0, c, w, h, x - 1, y) + Pick(y > 0, c, w, h, x, y - 1)
      + Pick(x < h - 1, c, w, h, x + 1, y) + Pick(y < w - 1, c, w, h, x, y + 1)
  {
    IdxBounds(w, h, x, y);
    IdxDivMod(w, x, y);
  }

  /** Each move is an on-board orthogonal neighbour of the blank. */
  lemma MovesSound(c: seq<int>, w: nat, h: nat, b: int)
    requires WellFormed(c, w, h) && 0 <= b < |c|
    ensures forall st :: st in Moves(c, w, h, b) ==>
      Adjacent(st, b / w, b % w) && InBoard(w, h, st.x, st.y)
  {
    Coords(w, h, b);
  }

  /** Every occupied orthogonal neighbour of the blank is offered as a move. */
  lemma MovesComplete(c: seq<int>, w: nat, h: nat, b: int)
    requires WellFormed(c, w, h) && 0 <= b < |c|
    ensures forall st: Step :: st in Moves(c, w, h, b) <==>
      Adjacent(st, b / w, b % w) && Occupied(c, w, h, st.x, st.y)
  {
    Coords(w, h, b);
  }

  /** The moves come in the fixed order up, left, down, right. */
  lemma MovesOrdered(c: seq<int>, w: nat, h: nat, b: int)
    requires WellFormed(c, w, h) && 0 <= b < |c|
    ensures var m := Moves(c, w, h, b);
      forall i, j :: 0 <= i < j < |m| ==> Rank(m[i], b / w, b % w) < Rank(m[j], b / w, b % w)
  {
    Coords(w, h, b);
  }

  /** A blank in a corner has at most two moves, one on an edge at most three. */
  lemma MovesAtBorder(c: seq<int>, w: nat, h: nat, b: int)
    requires WellFormed(c, w, h) && 0 <= b < |c|
    ensures |Moves(c, w, h, b)| <= 4 - EdgeAt(w, h, b / w, b % w)
  {
    Coords(w, h, b);
  }

  /** How many of row `x` and column `y` lie on the border of the board. */
  function EdgeAt(w: nat, h: nat, x: int, y: int): nat {
    (if x == 0 || x == h - 1 then 1 else 0) + (if y == 0 || y == w - 1 then 1 else 0)
  }

  /** The cell reflected from step `s` through the blank at (xB, yB): for a
      neighbour of the blank, the neighbour on the other side. */
  function Opposite(s: Step, xB: int, yB: int): Step {
    Step(2 * xB - s.x, 2 * yB - s.y)
  }

  /** The cell opposite a neighbour of the blank is the neighbour on the
      other side, in the reverse direction, and reflecting it again gives
      back the first. */
  lemma OppositeAdjacent(s: Step, xB: int, yB: int)
    requires Adjacent(s, xB, yB)
    ensures var o := Opposite(s, xB, yB);
      Adjacent(o, xB, yB) && o != s && Rank(o, xB, yB) == (Rank(s, xB, yB) + 2) % 4 &&
      Opposite(o, xB, yB) == s
  {
  }

  /** The cell updates of a move on flat indices: the source cell `si` turns
      blank and the blank `b` receives the carried count; on a capture the
      opposite cell `oi` and the carried count each lose one. */
  function Shift(c: seq<int>, si: int, b: int, oi: int, capture: bool): (r: seq<int>)
    requires 0 <= si < |c| && 0 <= b < |c| && (capture ==> 0 <= oi < |c|)
    ensures |r| == |c|
  {
    var carried := c[si];
    var c1 := c[si := -1];
    if capture then c1[oi := c1[oi] - 1][b := carried - 1] else c1[b := carried]
  }

  lemma ShiftEffect(c: seq<int>, si: int, b: int, oi: int, capture: bool)
    requires 0 <= si < |c| && 0 <= b < |c| && (capture ==> 0 <= oi < |c|)
    requires si != b && (capture ==> oi != b && oi != si)
    ensures var r := Shift(c, si, b, oi, capture);
      r[si] == -1 && r[b] == (if capture then c[si] - 1 else c[si]) &&
      (capture ==> r[oi] == c[oi] - 1) &&
      forall k :: 0 <= k < |c| && k != si && k != b && (k != oi || !capture) ==> r[k] == c[k]
  {
  }

  /** A move carries the whole count of `s` into the blank `b`. The source
      cell becomes the blank. When the cell opposite `s` across the blank is
      on the board, it and the carried count each lose one (a capture);
      otherwise the count just slides. The blank's own (row, column) names
      flat index `b` again (lemma `Coords`). */
  function Apply(c: seq<int>, w: nat, h: nat, s: Step, b: int): (r: seq<int>)
    requires WellFormed(c, w, h) && 0 <= b < |c| && 0 <= Idx(w, s.x, s.y) < |c|
    ensures |r| == |c|
  {
    Coords(w, h, b);
    var o := Opposite(s, b / w, b % w);
    if InBoard(w, h, o.x, o.y) then
      IdxBounds(w, h, o.x, o.y);
      Shift(c, Idx(w, s.x, s.y), b, Idx(w, o.x, o.y), true)
    else
      Shift(c, Idx(w, s.x, s.y), b, 0, false)
  }

  /** A move whose opposite cell is off the board is a slide. */
  lemma SlideIs(c: seq<int>, w: nat, h: nat, s: Step, b: int)
    requires WellFormed(c, w, h) && 0 <= b < |c| && 0 <= Idx(w, s.x, s.y) < |c|
    requires var o := Opposite(s, b / w, b % w); !InBoard(w, h, o.x, o.y)
    ensures Apply(c, w, h, s, b) == Shift(c, Idx(w, s.x, s.y), b, 0, false)
  {
  }

  /** A move whose opposite cell is on the board is a capture. */
  lemma CaptureIs(c: seq<int>, w: nat, h: nat, s: Step, b: int)
    requires WellFormed(c, w, h) && 0 <= b < |c| && 0 <= Idx(w, s.x, s.y) < |c|
    requires var o := Opposite(s, b / w, b % w); InBoard(w, h, o.x, o.y)
    ensures var o := Opposite(s, b / w, b % w);
      0 <= Idx(w, o.x, o.y) < |c| &&
      Apply(c, w, h, s, b) == Shift(c, Idx(w, s.x, s.y), b, Idx(w, o.x, o.y), true)
  {
    var o := Opposite(s, b / w, b % w);
    IdxBounds(w, h, o.x, o.y);
  }

  /** The flat indices a move to an adjacent blank touches: the source cell
      is on the board and is not the blank, and the opposite cell, when on
      the board, sits as far beyond the blank as the source sits before it. */
  lemma MoveIndices(w: nat, h: nat, s: Step, b: int)
    requires 0 <= b < w * h
    requires InBoard(w, h, s.x, s.y) && Adjacent(s, b / w, b % w)
    ensures 0 <= Idx(w, s.x, s.y) < w * h && Idx(w, s.x, s.y) != b
    ensures var o := Opposite(s, b / w, b % w);
      InBoard(w, h, o.x, o.y) ==> 0 <= Idx(w, o.x, o.y) < w * h && Idx(w, o.x, o.y) == 2 * b - Idx(w, s.x, s.y)
  {
    Coords(w, h, b);
    IdxBounds(w, h, s.x, s.y);
    IdxDivMod(w, s.x, s.y);
    var xB := b / w;
    var o := Opposite(s, xB, b % w);
    if InBoard(w, h, o.x, o.y) {
      IdxBounds(w, h, o.x, o.y);
      assert w * (2 * xB - s.x) == 2 * (w * xB) - w * s.x;
    }
  }

  /** The exact effect of a move to an adjacent blank: the source cell turns
      blank, the old blank receives the carried count (one less after a
      capture), the opposite cell loses one on a capture, and no other cell
      changes. */
  lemma ApplyEffect(c: seq<int>, w: nat, h: nat, s: Step, b: int)
    requires WellFormed(c, w, h) && 0 <= b < |c|
    requires InBoard(w, h, s.x, s.y) && Adjacent(s, b / w, b % w)
    ensures 0 <= Idx(w, s.x, s.y) < |c|
    ensures var r := Apply(c, w, h, s, b);
      var si := Idx(w, s.x, s.y);
      var o := Opposite(s, b / w, b % w);
      var capture := InBoard(w, h, o.x, o.y);
      var oi := Idx(w, o.x, o.y);
      si != b && (capture ==> 0 <= oi < |c| && oi != b && oi != si) &&
      r[si] == -1 &&
      r[b] == (if capture then c[si] - 1 else c[si]) &&
      (capture ==> r[oi] == c[oi] - 1) &&
      forall k :: 0 <= k < |c| && k != si && k != b && (k != oi || !capture) ==> r[k] == c[k]
  {
    MoveIndices(w, h, s, b);
    var si := Idx(w, s.x, s.y);
    var o := Opposite(s, b / w, b % w);
    if InBoard(w, h, o.x, o.y) {
      ShiftEffect(c, si, b, Idx(w, o.x, o.y), true);
    } else {
      ShiftEffect(c, si, b, 0, false);
    }
  }

  // ----- counting cells -------------------------------------------------

  function NegCount(s: seq<int>): nat {
    if s == [] then 0 else NegCount(s[..|s| - 1]) + (if s[|s| - 1] < 0 then 1 else 0)
  }

  function ZeroCount(s: seq<int>): nat {
    if s == [] then 0 else ZeroCount(s[..|s| - 1]) + (if s[|s| - 1] == 0 then 1 else 0)
  }

  function PosCount(s: seq<int>): nat {
    if s == [] then 0 else PosCount(s[..|s| - 1]) + (if s[|s| - 1] > 0 then 1 else 0)
  }

  /** The sum of the counts above zero. */
  function PosSum(s: seq<int>): nat {
    if s == [] then 0 else PosSum(s[..|s| - 1]) + (if s[|s| - 1] > 0 then s[|s| - 1] else 0)
  }

  /** The index of the last negative cell, or 0 when there is none: the
      index the board's validity check reports. */
  function LastNeg(s: seq<int>): (r: nat)
    ensures NegCount(s) == 0 ==> r == 0
    ensures NegCount(s) > 0 ==>
      r < |s| && s[r] < 0 && forall j :: r < j < |s| ==> s[j] >= 0
  {
    if s == [] then 0
    else if s[|s| - 1] < 0 then |s| - 1
    else LastNeg(s[..|s| - 1])
  }

  /** A game: exactly one cell is negative. */
  predicate IsValid(c: seq<int>) { NegCount(c) == 1 }

  /** The position of the blank. */
  function Blank(c: seq<int>): (r: nat)
    ensures IsValid(c) ==> r < |c| && c[r] < 0
  {
    LastNeg(c)
  }

  /** The board's end check: all cells but one hold zero. */
  predicate IsEnd(c: seq<int>, w: nat, h: nat) { ZeroCount(c) + 1 == w * h }

  lemma {:induction false} NoNegatives(s: seq<int>)
    ensures NegCount(s) == 0 <==> forall j :: 0 <= j < |s| ==> s[j] >= 0
  {
    if s != [] {
      var p := s[..|s| - 1];
      NoNegatives(p);
      assert forall j :: 0 <= j < |p| ==> p[j] == s[j];
    }
  }

  lemma {:induction false} NoPositives(s: seq<int>)
    ensures PosCount(s) == 0 <==> forall j :: 0 <= j < |s| ==> s[j] <= 0
  {
    if s != [] {
      var p := s[..|s| - 1];
      NoPositives(p);
      assert forall j :: 0 <= j < |p| ==> p[j] == s[j];
    }
  }

  lemma {:induction false} CountsPartition(s: seq<int>)
    ensures NegCount(s) + ZeroCount(s) + PosCount(s) == |s|
  {
    if s != [] { CountsPartition(s[..|s| - 1]); }
  }

  /** A sequence is a game with its blank at `k` exactly when `k` is its only
      negative cell. */
  lemma {:induction false} ValidIff(s: seq<int>, k: int)
    requires 0 <= k < |s|
    ensures (IsValid(s) && Blank(s) == k) <==>
      (s[k] < 0 && forall j :: 0 <= j < |s| && j != k ==> s[j] >= 0)
  {
    var p := s[..|s| - 1];
    assert forall j :: 0 <= j < |p| ==> p[j] == s[j];
    if k == |s| - 1 {
      NoNegatives(p);
    } else {
      if s[|s| - 1] < 0 {
        assert Blank(s) != k;
      } else {
        ValidIff(p, k);
      }
    }
  }

  /** On a game every cell except the blank is a count of zero or more. */
  lemma BlankUnique(s: seq<int>)
    requires IsValid(s)
    ensures Blank(s) < |s| && s[Blank(s)] < 0
    ensures forall j :: 0 <= j < |s| && j != Blank(s) ==> s[j] >= 0
  {
    ValidIff(s, Blank(s));
  }

  /** A game passes the end check exactly when every cell but the blank is 0. */
  lemma EndIff(c: seq<int>, w: nat, h: nat)
    requires WellFormed(c, w, h) && IsValid(c)
    ensures IsEnd(c, w, h) <==> forall j :: 0 <= j < |c| && j != Blank(c) ==> c[j] == 0
  {
    BlankUnique(c);
    CountsPartition(c);
    NoPositives(c);
  }

  /** Changing one cell changes the sum of the positive counts by the
      difference of the old and new positive parts. */
  lemma {:induction false} PosSumUpdate(s: seq<int>, i: int, v: int)
    requires 0 <= i < |s|
    ensures PosSum(s[i := v]) ==
      PosSum(s) - (if s[i] > 0 then s[i] else 0) + (if v > 0 then v else 0)
  {
    var t := s[i := v];
    var p, q := s[..|s| - 1], t[..|t| - 1];
    if i == |s| - 1 {
      assert q == p;
    } else {
      assert q == p[i := v];
      PosSumUpdate(p, i, v);
    }
  }
}
