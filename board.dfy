/** The puzzle board of `nonzero.go`: a flat array of counts, `xMax` cells
    to a row and `yMax` rows, whose cells the game changes in place. Each
    method is proved against the functions of modules `Rules` and `Search`
    on the array's contents. */
module NonZero {
  import opened Rules
  import opened Termination
  import opened Search

  class Board {
    const chessboard: array<int>
    const xMax: nat
    const yMax: nat

    /** The array holds one cell per (row, column) pair. */
    predicate Valid() {
      chessboard.Length == xMax * yMax
    }

    /** The counts on the board, row after row. */
    function Cells(): seq<int>
      reads chessboard
    {
      chessboard[..]
    }

    /** A board of `x` columns and `y` rows whose every cell is marked
        negative. */
    constructor New(x: nat, y: nat)
      ensures Valid() && xMax == x && yMax == y && fresh(chessboard)
      ensures forall i :: 0 <= i < chessboard.Length ==> chessboard[i] == -1
    {
      var cb := new int[x * y];
      var i := 0;
      while i < cb.Length
        invariant 0 <= i <= cb.Length
        invariant forall j :: 0 <= j < i ==> cb[j] == -1
      {
        cb[i] := -1;
        i := i + 1;
      }
      chessboard, xMax, yMax := cb, x, y;
    }

    /** The board made of the array `cb` and the two dimensions. */
    constructor Of(cb: array<int>, x: nat, y: nat)
      ensures chessboard == cb && xMax == x && yMax == y
    {
      chessboard, xMax, yMax := cb, x, y;
    }

    /** The count of cell (i, j), 0-based; the flat index must lie in the
        array. */
    function At(i: int, j: int): (r: int)
      requires Valid() && 0 <= Idx(xMax, i, j) < chessboard.Length
      reads chessboard
      ensures r == Cells()[Idx(xMax, i, j)]
    {
      chessboard[Idx(xMax, i, j)]
    }

    /** Writes `v` into cell (i, j), 0-based; the flat index must lie in the
        array. */
    method SetAt(i: int, j: int, v: int)
      requires Valid() && 0 <= Idx(xMax, i, j) < chessboard.Length
      modifies chessboard
      ensures Cells() == old(Cells())[Idx(xMax, i, j) := v]
      ensures At(i, j) == v
    {
      chessboard[Idx(xMax, i, j)] := v;
    }

    /** Writes `v` into the cell of 1-based row `i` and column `j`. */
    method Set(i: int, j: int, v: int)
      requires Valid() && 0 <= Idx(xMax, i - 1, j - 1) < chessboard.Length
      modifies chessboard
      ensures Cells() == old(Cells())[Idx(xMax, i - 1, j - 1) := v]
    {
      SetAt(i - 1, j - 1, v);
    }

    /** The moves of the blank at flat index `blank`: its occupied neighbours
        up, left, down and right. */
    method GetAllStep(blank: int) returns (steps: seq<Step>)
      requires Valid() && 0 <= blank < chessboard.Length
      ensures steps == Moves(Cells(), xMax, yMax, blank)
    {
      Coords(xMax, yMax, blank);
      var c := Cells();
      var x, y := blank / xMax, blank % xMax;
      steps := [];
      if x > 0 && (IdxBounds(xMax, yMax, x - 1, y); At(x - 1, y) > 0) {
        steps := steps + [Step(x - 1, y)];
      }
      assert steps == Pick(x > 0, c, xMax, yMax, x - 1, y);
      var up := steps;
      if y > 0 && (IdxBounds(xMax, yMax, x, y - 1); At(x, y - 1) > 0) {
        steps := steps + [Step(x, y - 1)];
      }
      assert steps == up + Pick(y > 0, c, xMax, yMax, x, y - 1);
      var upLeft := steps;
      if x < yMax - 1 && (IdxBounds(xMax, yMax, x + 1, y); At(x + 1, y) > 0) {
        steps := steps + [Step(x + 1, y)];
      }
      assert steps == upLeft + Pick(x < yMax - 1, c, xMax, yMax, x + 1, y);
      var upLeftDown := steps;
      if y < xMax - 1 && (IdxBounds(xMax, yMax, x, y + 1); At(x, y + 1) > 0) {
        steps := steps + [Step(x, y + 1)];
      }
      assert steps == upLeftDown + Pick(y < xMax - 1, c, xMax, yMax, x, y + 1);
    }

    /** Plays step `s` into the blank at flat index `blank`. */
    method RunStep(s: Step, blank: int)
      requires Valid() && 0 <= blank < chessboard.Length
      requires 0 <= Idx(xMax, s.x, s.y) < chessboard.Length
      modifies chessboard
      ensures Cells() == Apply(old(Cells()), xMax, yMax, s, blank)
    {
      Coords(xMax, yMax, blank);
      var xB, yB := blank / xMax, blank % xMax;
      var xO, yO := 2 * xB - s.x, 2 * yB - s.y;
      var newB := At(s.x, s.y);
      SetAt(s.x, s.y, -1);
      if xO >= 0 && xO < yMax && yO >= 0 && yO < xMax {
        IdxBounds(xMax, yMax, xO, yO);
        SetAt(xO, yO, At(xO, yO) - 1);
        newB := newB - 1;
      }
      SetAt(xB, yB, newB);
    }

    /** A new board with a copy of the array. */
    method Copy() returns (n: Board)
      requires Valid()
      ensures fresh(n) && fresh(n.chessboard)
      ensures n.Valid() && n.xMax == xMax && n.yMax == yMax && n.Cells() == Cells()
    {
      var cb := new int[chessboard.Length];
      var i := 0;
      while i < cb.Length
        invariant 0 <= i <= cb.Length
        invariant forall j :: 0 <= j < i ==> cb[j] == chessboard[j]
      {
        cb[i] := chessboard[i];
        i := i + 1;
      }
      n := new Board.Of(cb, xMax, yMax);
    }

    /** Whether exactly one cell is negative, and the index of the last
        negative cell (0 when there is none). */
    method CheckValid() returns (index: int, ok: bool)
      ensures ok == IsValid(Cells()) && index == LastNeg(Cells())
      ensures ok ==> (0 <= index < chessboard.Length && chessboard[index] < 0 &&
        forall j :: 0 <= j < chessboard.Length && j != index ==> chessboard[j] >= 0)
    {
      var minusNum := 0;
      index := 0;
      var i := 0;
      while i < chessboard.Length
        invariant 0 <= i <= chessboard.Length
        invariant minusNum == NegCount(chessboard[..i])
        invariant index == LastNeg(chessboard[..i])
      {
        assert chessboard[..i + 1][..i] == chessboard[..i];
        if chessboard[i] < 0 {
          minusNum := minusNum + 1;
          index := i;
        }
        i := i + 1;
      }
      assert chessboard[..i] == Cells();
      ok := minusNum == 1;
      if ok {
        BlankUnique(Cells());
      }
    }

    /** Whether all cells but one hold zero. */
    method CheckEnd() returns (ok: bool)
      ensures ok == IsEnd(Cells(), xMax, yMax)
      ensures Valid() && IsValid(Cells()) ==>
        (ok <==> forall j :: 0 <= j < chessboard.Length && j != Blank(Cells()) ==> chessboard[j] == 0)
    {
      var zeroNum := 0;
      var i := 0;
      while i < chessboard.Length
        invariant 0 <= i <= chessboard.Length
        invariant zeroNum == ZeroCount(chessboard[..i])
      {
        assert chessboard[..i + 1][..i] == chessboard[..i];
        if chessboard[i] == 0 {
          zeroNum := zeroNum + 1;
        }
        i := i + 1;
      }
      assert chessboard[..i] == Cells();
      ok := zeroNum + 1 == xMax * yMax;
      if Valid() && IsValid(Cells()) {
        EndIff(Cells(), xMax, yMax);
      }
    }

    /** The depth-first search of the source's `solve`: fail on a board that
        is not a game, succeed with no moves on one that passes the end
        check, otherwise try the blank's moves (`TryEach`). The list
        returned holds the moves written out, the last move first. */
    method Search() returns (result: seq<(int, int)>, ok: bool)
      requires Valid() && Searchable(Cells(), xMax, yMax)
      ensures ok == SearchSpec(Cells(), xMax, yMax).Some?
      ensures ok ==> result == Labels(SearchSpec(Cells(), xMax, yMax).value)
      ensures !ok ==> result == []
      decreases PosSum(Cells()), Edge(Cells(), xMax, yMax), 1
    {
      var index, valid := CheckValid();
      if !valid {
        return [], false;
      }
      var end := CheckEnd();
      if end {
        return [], true;
      }
      result, ok := TryEach(index);
    }

    /** The loop of `solve` over the blank's moves: each move is played on
        a copy of the board and the copy searched; the first success is
        returned with the move appended. */
    method TryEach(index: int) returns (result: seq<(int, int)>, ok: bool)
      requires Valid() && xMax != 2 && yMax != 2
      requires IsValid(Cells()) && !IsEnd(Cells(), xMax, yMax) && index == Blank(Cells())
      ensures ok == TryMoves(Cells(), xMax, yMax, 0).Some?
      ensures ok ==> result == Labels(TryMoves(Cells(), xMax, yMax, 0).value)
      ensures !ok ==> result == []
      decreases PosSum(Cells()), Edge(Cells(), xMax, yMax), 0
    {
      var c := Cells();
      BlankUnique(c);
      var steps := GetAllStep(index);
      var i := 0;
      while i < |steps|
        invariant 0 <= i <= |steps| && Cells() == c
        invariant TryMoves(c, xMax, yMax, 0) == TryMoves(c, xMax, yMax, i)
      {
        var m := steps[i];
        assert m in steps && Playable(c, xMax, m);
        var nn := Copy();
        nn.RunStep(m, index);
        assert nn.Cells() == Child(c, xMax, yMax, i);
        var r, found := nn.Search();
        TryMovesStep(c, xMax, yMax, i);
        if found {
          LabelsSnoc(SearchSpec(nn.Cells(), xMax, yMax).value, m);
          return r + [Label(m)], true;
        }
        i := i + 1;
      }
      return [], false;
    }

    /** The source's `Solve`: "not a game" unless exactly one cell is
        negative, "no result" when the search fails, otherwise the moves
        written out in the order they are played. */
    method Solve() returns (r: Result<seq<(int, int)>>)
      requires Valid() && Searchable(Cells(), xMax, yMax)
      ensures r == SolveSpec(Cells(), xMax, yMax)
    {
      var _, valid := CheckValid();
      if !valid {
        return Err(NotAGame);
      }
      var result, ok := Search();
      if !ok {
        return Err(NoResult);
      }
      var s := ReverseFill(result);
      LabelsReverse(SearchSpec(Cells(), xMax, yMax).value);
      return Ok(s);
    }

    /** The list `result` written into a new array from the back, as `Solve`
        turns the search's last-move-first list into playing order. */
    static method ReverseFill(result: seq<(int, int)>) returns (s: seq<(int, int)>)
      ensures s == Reverse(result)
    {
      var length := |result|;
      var a := new (int, int)[length];
      var i := 0;
      while i < length
        invariant 0 <= i <= length
        invariant forall k :: length - i <= k < length ==> a[k] == result[length - 1 - k]
      {
        a[length - i - 1] := result[i];
        i := i + 1;
      }
      s := a[..];
    }
  }
  /** The 3 by 3 board the repository's test sets up through `Set`: a game
      whose blank is the untouched cell of row 1, column 3, with two moves. */
  method SampleBoard() returns (b: Board)
    ensures b.Valid() && b.xMax == 3 && b.yMax == 3
    ensures b.Cells() == [1, 2, -1, 0, 2, 2, 1, 1, 1]
    ensures IsValid(b.Cells()) && Blank(b.Cells()) == 2 && !IsEnd(b.Cells(), 3, 3)
    ensures Moves(b.Cells(), 3, 3, 2) == [Step(0, 1), Step(1, 2)]
  {
    b := new Board.New(3, 3);
    ghost var c := b.Cells();
    assert c == [-1, -1, -1, -1, -1, -1, -1, -1, -1];
    b.Set(1, 1, 1);
    b.Set(1, 2, 2);
    b.Set(2, 1, 0);
    b.Set(2, 2, 2);
    b.Set(2, 3, 2);
    b.Set(3, 1, 1);
    b.Set(3, 2, 1);
    b.Set(3, 3, 1);
    assert b.Cells() == c[0 := 1][1 := 2][3 := 0][4 := 2][5 := 2][6 := 1][7 := 1][8 := 1];
    SampleFacts(b.Cells());
  }

  lemma SampleFacts(c: seq<int>)
    requires c == [1, 2, -1, 0, 2, 2, 1, 1, 1]
    ensures IsValid(c) && Blank(c) == 2 && !IsEnd(c, 3, 3)
    ensures Moves(c, 3, 3, 2) == [Step(0, 1), Step(1, 2)]
  {
    ValidIff(c, 2);
    EndIff(c, 3, 3);
    MovesAt(c, 3, 3, 0, 2);
    assert Pick(false, c, 3, 3, -1, 2) == [] && Pick(true, c, 3, 3, 0, 1) == [Step(0, 1)];
    assert Pick(true, c, 3, 3, 1, 2) == [Step(1, 2)] && Pick(false, c, 3, 3, 0, 3) == [];
  }
}
