/** The depth-first search for a solution, stated as functions on cell
    sequences, and what it guarantees: replaying its answer solves the
    board, and it fails only when no sequence of moves solves it. */
module Search {
  import opened Rules
  import opened Termination

  datatype Error = NotAGame | NoResult
  datatype Result<T> = Ok(value: T) | Err(error: Error)

  function Reverse<T>(s: seq<T>): (r: seq<T>)
    ensures |r| == |s|
    ensures forall k :: 0 <= k < |s| ==> r[k] == s[|s| - 1 - k]
  {
    if s == [] then [] else [s[|s| - 1]] + Reverse(s[..|s| - 1])
  }

  /** The 1-based (row, column) pairs by which the steps are written out. */
  function Labels(ss: seq<Step>): (r: seq<(int, int)>)
    ensures |r| == |ss| && forall k :: 0 <= k < |ss| ==> r[k] == Label(ss[k])
  {
    if ss == [] then [] else Labels(ss[..|ss| - 1]) + [Label(ss[|ss| - 1])]
  }

  /** The steps a list of 1-based (row, column) pairs names. */
  function Unlabels(ps: seq<(int, int)>): (r: seq<Step>)
    ensures |r| == |ps| && forall k :: 0 <= k < |ps| ==> r[k] == Unlabel(ps[k])
  {
    if ps == [] then [] else Unlabels(ps[..|ps| - 1]) + [Unlabel(ps[|ps| - 1])]
  }

  /** Reading back the written-out steps gives the steps. */
  lemma UnlabelsLabels(ss: seq<Step>)
    ensures Unlabels(Labels(ss)) == ss
  {
    assert forall k :: 0 <= k < |ss| ==> Unlabels(Labels(ss))[k] == ss[k];
  }

  lemma LabelsSnoc(ss: seq<Step>, m: Step)
    ensures Labels(ss + [m]) == Labels(ss) + [Label(m)]
  {
    assert (ss + [m])[..|ss|] == ss;
  }

  lemma LabelsReverse(ss: seq<Step>)
    ensures Labels(Reverse(ss)) == Reverse(Labels(ss))
  {
    assert forall k :: 0 <= k < |ss| ==> Labels(Reverse(ss))[k] == Reverse(Labels(ss))[k];
  }

  /** `ss` solves the game `c`: replayed one move at a time, each a move the
      current blank offers, it ends on a board that passes the end check,
      and it stops there. */
  ghost predicate Solves(c: seq<int>, w: nat, h: nat, ss: seq<Step>)
    requires WellFormed(c, w, h)
    decreases |ss|
  {
    IsValid(c) &&
    if IsEnd(c, w, h) then ss == []
    else ss != [] && ss[0] in Moves(c, w, h, Blank(c)) &&
         Solves(Apply(c, w, h, ss[0], Blank(c)), w, h, ss[1..])
  }

  /** The boards on which the search is defined: a board that is not a game
      or already passes the end check is answered at once, and any other
      board must have no side of length two, where the recursion could
      return to a board it has seen (`Termination.SideTwoCycles`). */
  predicate Searchable(c: seq<int>, w: nat, h: nat) {
    WellFormed(c, w, h) && (IsValid(c) && !IsEnd(c, w, h) ==> w != 2 && h != 2)
  }

  /** The search of the source's `solve`: fail on a board that is not a
      game, succeed with no moves on a board that passes the end check,
      otherwise try the blank's moves in order. The list it returns holds
      the last move first. */
  function SearchSpec(c: seq<int>, w: nat, h: nat): (r: Option<seq<Step>>)
    requires Searchable(c, w, h)
    ensures r.Some? ==> IsValid(c)
    ensures r == Some([]) <==> IsValid(c) && IsEnd(c, w, h)
    decreases PosSum(c), Edge(c, w, h), 1, 0
  {
    if !IsValid(c) then None
    else if IsEnd(c, w, h) then Some([])
    else TryMoves(c, w, h, 0)
  }

  /** The board the `k`-th move of the blank leads to. On a board with no
      side of length two it is lower in the measure the search decreases. */
  function Child(c: seq<int>, w: nat, h: nat, k: nat): (r: seq<int>)
    requires WellFormed(c, w, h) && w != 2 && h != 2 && IsValid(c)
    requires k < |Moves(c, w, h, Blank(c))|
    ensures WellFormed(r, w, h)
    ensures PosSum(r) < PosSum(c) || (PosSum(r) == PosSum(c) && Edge(r, w, h) < Edge(c, w, h))
  {
    var m := Moves(c, w, h, Blank(c))[k];
    MoveDecreases(c, w, h, m);
    Apply(c, w, h, m, Blank(c))
  }

  /** The first success among the blank's moves from position `k` on: the
      move is applied to a copy, the copy searched, and the move appended to
      the list found. */
  function TryMoves(c: seq<int>, w: nat, h: nat, k: nat): (r: Option<seq<Step>>)
    requires WellFormed(c, w, h) && w != 2 && h != 2 && IsValid(c)
    requires k <= |Moves(c, w, h, Blank(c))|
    ensures r.Some? ==> r.value != [] && r.value[|r.value| - 1] in Moves(c, w, h, Blank(c))
    decreases PosSum(c), Edge(c, w, h), 0, |Moves(c, w, h, Blank(c))| - k
  {
    if k == |Moves(c, w, h, Blank(c))| then None
    else
      match SearchSpec(Child(c, w, h, k), w, h)
      case Some(l) => Some(l + [Moves(c, w, h, Blank(c))[k]])
      case None => TryMoves(c, w, h, k + 1)
  }

  /** One step of the search over the blank's moves: the `k`-th move either
      succeeds, and its list with the move appended is the answer, or the
      answer is that of the moves after it. */
  lemma TryMovesStep(c: seq<int>, w: nat, h: nat, k: nat)
    requires WellFormed(c, w, h) && w != 2 && h != 2 && IsValid(c)
    requires k < |Moves(c, w, h, Blank(c))|
    ensures SearchSpec(Child(c, w, h, k), w, h).Some? ==>
      TryMoves(c, w, h, k) == Some(SearchSpec(Child(c, w, h, k), w, h).value + [Moves(c, w, h, Blank(c))[k]])
    ensures SearchSpec(Child(c, w, h, k), w, h).None? ==> TryMoves(c, w, h, k) == TryMoves(c, w, h, k + 1)
  {
  }

  /** Soundness: the list the search returns, reversed, solves the board. */
  lemma {:induction false} SearchSound(c: seq<int>, w: nat, h: nat)
    requires Searchable(c, w, h)
    ensures SearchSpec(c, w, h).Some? ==> Solves(c, w, h, Reverse(SearchSpec(c, w, h).value))
    decreases PosSum(c), Edge(c, w, h), 1, 0
  {
    if IsValid(c) && !IsEnd(c, w, h) {
      BlankUnique(c);
      TryMovesSound(c, w, h, 0);
    }
  }

  lemma {:induction false} TryMovesSound(c: seq<int>, w: nat, h: nat, k: nat)
    requires WellFormed(c, w, h) && w != 2 && h != 2 && IsValid(c) && !IsEnd(c, w, h)
    requires k <= |Moves(c, w, h, Blank(c))|
    ensures TryMoves(c, w, h, k).Some? ==> Solves(c, w, h, Reverse(TryMoves(c, w, h, k).value))
    decreases PosSum(c), Edge(c, w, h), 0, |Moves(c, w, h, Blank(c))| - k
  {
    if k < |Moves(c, w, h, Blank(c))| {
      if SearchSpec(Child(c, w, h, k), w, h).Some? {
        TryMovesHit(c, w, h, k);
      } else {
        TryMovesSound(c, w, h, k + 1);
      }
    }
  }

  /** The `k`-th move succeeds: the search returns the list found for its
      board with the move appended, and that list reversed solves `c`. */
  lemma {:induction false} TryMovesHit(c: seq<int>, w: nat, h: nat, k: nat)
    requires WellFormed(c, w, h) && w != 2 && h != 2 && IsValid(c) && !IsEnd(c, w, h)
    requires k < |Moves(c, w, h, Blank(c))| && SearchSpec(Child(c, w, h, k), w, h).Some?
    ensures TryMoves(c, w, h, k).Some? && Solves(c, w, h, Reverse(TryMoves(c, w, h, k).value))
    decreases PosSum(c), Edge(c, w, h), 0, |Moves(c, w, h, Blank(c))| - k, 0
  {
    var child := Child(c, w, h, k);
    SearchSound(child, w, h);
    SolvesSnoc(c, w, h, Moves(c, w, h, Blank(c))[k], SearchSpec(child, w, h).value);
  }

  lemma ReverseSnoc<T>(l: seq<T>, m: T)
    ensures Reverse(l + [m]) == [m] + Reverse(l)
  {
    assert (l + [m])[..|l|] == l;
  }

  /** The list the search builds for `c` from move `m` and the list `l` found
      for the board `m` leads to. */
  lemma SolvesSnoc(c: seq<int>, w: nat, h: nat, m: Step, l: seq<Step>)
    requires WellFormed(c, w, h) && IsValid(c) && !IsEnd(c, w, h)
    requires m in Moves(c, w, h, Blank(c)) && Solves(Apply(c, w, h, m, Blank(c)), w, h, Reverse(l))
    ensures Solves(c, w, h, Reverse(l + [m]))
  {
    ReverseSnoc(l, m);
    SolvesCons(c, w, h, m, Reverse(l));
  }

  /** A move the blank offers followed by a solution of the board it leads
      to solves the board. */
  lemma SolvesCons(c: seq<int>, w: nat, h: nat, m: Step, rest: seq<Step>)
    requires WellFormed(c, w, h) && IsValid(c) && !IsEnd(c, w, h)
    requires m in Moves(c, w, h, Blank(c)) && Solves(Apply(c, w, h, m, Blank(c)), w, h, rest)
    ensures Solves(c, w, h, [m] + rest)
  {
    assert ([m] + rest)[1..] == rest;
  }

  /** Completeness: the search fails only when no sequence of moves solves
      the board. */
  lemma SearchComplete(c: seq<int>, w: nat, h: nat)
    requires Searchable(c, w, h)
    ensures SearchSpec(c, w, h).None? ==> forall ss :: !Solves(c, w, h, ss)
  {
    forall ss | Solves(c, w, h, ss) ensures SearchSpec(c, w, h).Some? {
      SolvableFound(c, w, h, ss);
    }
  }

  /** A board that some sequence of moves solves is one the search solves. */
  lemma {:induction false} SolvableFound(c: seq<int>, w: nat, h: nat, ss: seq<Step>)
    requires Searchable(c, w, h) && Solves(c, w, h, ss)
    ensures SearchSpec(c, w, h).Some?
    decreases PosSum(c), Edge(c, w, h), 1, 0
  {
    if !IsEnd(c, w, h) {
      var moves := Moves(c, w, h, Blank(c));
      var j :| 0 <= j < |moves| && moves[j] == ss[0];
      TryMovesFound(c, w, h, ss, 0, j);
    }
  }

  /** The moves from position `k` on include the first move `j` of a
      solution, so one of them succeeds. */
  lemma {:induction false} TryMovesFound(c: seq<int>, w: nat, h: nat, ss: seq<Step>, k: nat, j: nat)
    requires WellFormed(c, w, h) && w != 2 && h != 2 && IsValid(c) && !IsEnd(c, w, h)
    requires Solves(c, w, h, ss)
    requires k <= j < |Moves(c, w, h, Blank(c))| && Moves(c, w, h, Blank(c))[j] == ss[0]
    ensures TryMoves(c, w, h, k).Some?
    decreases PosSum(c), Edge(c, w, h), 0, |Moves(c, w, h, Blank(c))| - k
  {
    if k == j {
      FirstMoveFound(c, w, h, ss, k);
    } else if SearchSpec(Child(c, w, h, k), w, h).None? {
      TryMovesFound(c, w, h, ss, k + 1, j);
    }
  }

  /** The `k`-th move is the first move of a solution, so the search of the
      board it leads to succeeds. */
  lemma {:induction false} FirstMoveFound(c: seq<int>, w: nat, h: nat, ss: seq<Step>, k: nat)
    requires WellFormed(c, w, h) && w != 2 && h != 2 && IsValid(c) && !IsEnd(c, w, h)
    requires Solves(c, w, h, ss)
    requires k < |Moves(c, w, h, Blank(c))| && Moves(c, w, h, Blank(c))[k] == ss[0]
    ensures TryMoves(c, w, h, k).Some?
    decreases PosSum(c), Edge(c, w, h), 0, |Moves(c, w, h, Blank(c))| - k, 0
  {
    var child := Child(c, w, h, k);
    assert child == Apply(c, w, h, ss[0], Blank(c));
    SolvableFound(child, w, h, ss[1..]);
  }

  /** The search succeeds exactly when some sequence of moves solves the
      board. */
  lemma SearchIff(c: seq<int>, w: nat, h: nat)
    requires Searchable(c, w, h)
    ensures SearchSpec(c, w, h).Some? ==> exists ss :: Solves(c, w, h, ss)
    ensures (exists ss :: Solves(c, w, h, ss)) ==> SearchSpec(c, w, h).Some?
  {
    SearchComplete(c, w, h);
    if SearchSpec(c, w, h).Some? {
      SearchSound(c, w, h);
      var ss := Reverse(SearchSpec(c, w, h).value);
      assert Solves(c, w, h, ss);
    }
  }

  /** The source's `Solve`: "not a game" unless exactly one cell is
      negative, "no result" when the search fails, otherwise the search's
      list reversed into the order the moves are played, each written out
      as its 1-based (row, column) pair. */
  function SolveSpec(c: seq<int>, w: nat, h: nat): (r: Result<seq<(int, int)>>)
    requires Searchable(c, w, h)
    ensures r == Err(NotAGame) <==> !IsValid(c)
    ensures r == Ok([]) <==> IsValid(c) && IsEnd(c, w, h)
  {
    if !IsValid(c) then Err(NotAGame)
    else match SearchSpec(c, w, h)
      case None => Err(NoResult)
      case Some(l) => Ok(Labels(Reverse(l)))
  }

  /** What `Solve` guarantees: the error says which check failed, and the
      steps a returned list names solve the board when played in order. */
  lemma SolveCorrect(c: seq<int>, w: nat, h: nat)
    requires Searchable(c, w, h)
    ensures SolveSpec(c, w, h) == Err(NotAGame) <==> !IsValid(c)
    ensures SolveSpec(c, w, h) == Err(NoResult) ==> IsValid(c) && forall ss :: !Solves(c, w, h, ss)
    ensures IsValid(c) && (forall ss :: !Solves(c, w, h, ss)) ==> SolveSpec(c, w, h) == Err(NoResult)
    ensures SolveSpec(c, w, h).Ok? ==> Solves(c, w, h, Unlabels(SolveSpec(c, w, h).value))
  {
    if IsValid(c) {
      match SearchSpec(c, w, h)
      case None =>
        SearchComplete(c, w, h);
      case Some(l) =>
        SearchSound(c, w, h);
        UnlabelsLabels(Reverse(l));
    }
  }

  /** A played solution ends on a game whose every cell except the blank
      holds zero. */
  lemma {:induction false} SolvesEnds(c: seq<int>, w: nat, h: nat, ss: seq<Step>)
    requires WellFormed(c, w, h) && Solves(c, w, h, ss)
    ensures var e := Play(c, w, h, ss);
      IsValid(e) && forall j :: 0 <= j < |e| && j != Blank(e) ==> e[j] == 0
    decreases |ss|
  {
    BlankUnique(c);
    if IsEnd(c, w, h) {
      EndIff(c, w, h);
    } else {
      SolvesEnds(Apply(c, w, h, ss[0], Blank(c)), w, h, ss[1..]);
    }
  }

  /** The board reached by playing `ss` from `c`, each move from the blank of
      the board it is played on. */
  ghost function Play(c: seq<int>, w: nat, h: nat, ss: seq<Step>): (r: seq<int>)
    requires WellFormed(c, w, h) && Solves(c, w, h, ss)
    ensures WellFormed(r, w, h)
    decreases |ss|
  {
    if ss == [] then c else Play(Apply(c, w, h, ss[0], Blank(c)), w, h, ss[1..])
  }

  /** A capture over an opposite cell holding zero leaves a second negative
      cell, so the search rejects that branch. */
  lemma CaptureOverZero(c: seq<int>, w: nat, h: nat, s: Step)
    requires WellFormed(c, w, h) && IsValid(c)
    requires s in Moves(c, w, h, Blank(c))
    requires var o := Opposite(s, Blank(c) / w, Blank(c) % w);
      InBoard(w, h, o.x, o.y) && 0 <= Idx(w, o.x, o.y) < |c| && c[Idx(w, o.x, o.y)] == 0
    ensures !IsValid(Apply(c, w, h, s, Blank(c)))
    ensures SearchSpec(Apply(c, w, h, s, Blank(c)), w, h) == None
  {
    var b := Blank(c);
    MovesSound(c, w, h, b);
    ApplyEffect(c, w, h, s, b);
    var r := Apply(c, w, h, s, b);
    var si := Idx(w, s.x, s.y);
    var o := Opposite(s, b / w, b % w);
    var oi := Idx(w, o.x, o.y);
    if IsValid(r) {
      BlankUnique(r);
      assert false;
    }
  }
}
