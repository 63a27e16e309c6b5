/** The three queries on the starting grid that the page is known to answer. */
module InitialGridQueries {
  import opened Grid
  import opened Connectivity
  import opened Decimal

  /** A closed set of cells, each reachable from a filled start, is the start's whole component. */
  lemma ComponentIs(m: Matrix, s: Position, S: set<Position>)
    requires IsSquare(m) && Filled(m, s) && s in S && Closed(m, S)
    requires forall p :: p in S ==> Reachable(m, s, p)
    ensures Component(m, s) == S
  {
    ComponentIsLeast(m, s, S);
    forall p | p in S ensures p in Component(m, s) {
      ReachableEnd(m, s, p);
      InSquareIsCell(p, |m|);
    }
  }

  /** The filled cells around `x` in the starting grid are among its four candidate neighbours. */
  lemma FilledNeighbourIsCandidate(x: Position, q: Position)
    requires Adjacent(x, q) && Filled(InitialGrid, q)
    ensures q in [Position(x.row - 1, x.col), Position(x.row + 1, x.col),
                  Position(x.row, x.col - 1), Position(x.row, x.col + 1)]
  {
  }

  const LeftBlock: set<Position> := {Position(1, 0), Position(1, 1), Position(2, 0), Position(2, 1)}

  lemma LeftBlockClosed()
    ensures Closed(InitialGrid, LeftBlock)
  {
    forall x, q | x in LeftBlock && Adjacent(x, q) && Filled(InitialGrid, q) ensures q in LeftBlock {
      FilledNeighbourIsCandidate(x, q);
    }
  }

  lemma LeftBlockReachable()
    ensures Reachable(InitialGrid, Position(2, 0), Position(2, 0))
    ensures Reachable(InitialGrid, Position(2, 0), Position(1, 0))
    ensures Reachable(InitialGrid, Position(2, 0), Position(2, 1))
    ensures Reachable(InitialGrid, Position(2, 0), Position(1, 1))
  {
    var m := InitialGrid;
    var s := Position(2, 0);
    assert m[1][0] == 1 && m[1][1] == 1 && m[2][1] == 1;
    ReachableSelf(m, s);
    ReachableAppend(m, s, s, Position(1, 0));
    ReachableAppend(m, s, s, Position(2, 1));
    ReachableAppend(m, s, Position(1, 0), Position(1, 1));
  }

  /** The four-cell block on the left: querying (2, 0) gives it, and not the pair at (2, 3)-(2, 4). */
  lemma LeftBlockQuery()
    ensures Component(InitialGrid, Position(2, 0)) == LeftBlock
    ensures NatToString(|Component(InitialGrid, Position(2, 0))|) == "4"
  {
    LeftBlockReachable();
    LeftBlockClosed();
    ComponentIs(InitialGrid, Position(2, 0), LeftBlock);
    assert |LeftBlock| == 4;
  }

  const RightPair: set<Position> := {Position(2, 3), Position(2, 4)}

  lemma RightPairClosed()
    ensures Closed(InitialGrid, RightPair)
  {
    forall x, q | x in RightPair && Adjacent(x, q) && Filled(InitialGrid, q) ensures q in RightPair {
      FilledNeighbourIsCandidate(x, q);
    }
  }

  /** The pair in row 2: querying (2, 3) gives exactly (2, 3) and (2, 4). */
  lemma RightPairQuery()
    ensures Component(InitialGrid, Position(2, 3)) == RightPair
    ensures NatToString(|Component(InitialGrid, Position(2, 3))|) == "2"
  {
    var m := InitialGrid;
    var s := Position(2, 3);
    ReachableSelf(m, s);
    ReachableAppend(m, s, s, Position(2, 4));
    RightPairClosed();
    ComponentIs(m, s, RightPair);
    assert |RightPair| == 2;
  }

  /** The empty corner (0, 0) has no component. */
  lemma EmptyCornerQuery()
    ensures Component(InitialGrid, Position(0, 0)) == {}
  {
  }
}
