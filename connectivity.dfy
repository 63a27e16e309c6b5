/**
 * The flood fill of src/Grid.tsx (`visitAllConnectedFilled`, `getAllConnected`)
 * and the connected component it computes, defined independently through
 * chains of adjacent filled cells.
 */
module Connectivity {
  import opened Grid

  /**
   * A walk through the square in unit steps, every cell after the first one
   * filled. The first cell is where a search starts; the source adds it to the
   * visited set before it looks at any neighbour.
   */
  ghost predicate IsChain(m: Matrix, path: seq<Position>) {
    && |path| >= 1
    && (forall i :: 0 <= i < |path| ==> InSquare(path[i], |m|))
    && (forall i :: 1 <= i < |path| ==> Filled(m, path[i]))
    && (forall i :: 0 <= i < |path| - 1 ==> Adjacent(path[i], path[i + 1]))
  }

  ghost predicate Reachable(m: Matrix, s: Position, t: Position) {
    exists path :: IsChain(m, path) && path[0] == s && path[|path| - 1] == t
  }

  /** Every filled neighbour of `x` is in `S`. */
  ghost predicate ClosedAt(m: Matrix, x: Position, S: set<Position>) {
    forall q :: Adjacent(x, q) && Filled(m, q) ==> q in S
  }

  ghost predicate Closed(m: Matrix, S: set<Position>) {
    forall x :: x in S ==> ClosedAt(m, x, S)
  }

  /**
   * The connected component of `s`: the cells reachable from it through
   * filled cells, or nothing at all when `s` itself is empty.
   */
  ghost function Component(m: Matrix, s: Position): set<Position> {
    if Filled(m, s) then set p | p in Cells(|m|) && Reachable(m, s, p) else {}
  }

  // ---------------------------------------------------------------------
  // Chains

  lemma ReachableSelf(m: Matrix, s: Position)
    requires InSquare(s, |m|)
    ensures Reachable(m, s, s)
  {
    assert IsChain(m, [s]);
  }

  lemma ReachableEnd(m: Matrix, s: Position, t: Position)
    requires Reachable(m, s, t)
    ensures InSquare(t, |m|)
    ensures t == s || Filled(m, t)
  {
    var path :| IsChain(m, path) && path[0] == s && path[|path| - 1] == t;
    assert InSquare(path[|path| - 1], |m|);
  }

  /** One step from `p` onto a filled neighbour `q` extends any walk from `q`. */
  lemma ReachablePrepend(m: Matrix, p: Position, q: Position, t: Position)
    requires InSquare(p, |m|) && Adjacent(p, q) && InSquare(q, |m|) && Filled(m, q)
    requires Reachable(m, q, t)
    ensures Reachable(m, p, t)
  {
    var path :| IsChain(m, path) && path[0] == q && path[|path| - 1] == t;
    var longer := [p] + path;
    assert forall i :: 1 <= i < |longer| ==> longer[i] == path[i - 1];
    assert IsChain(m, longer);
  }

  lemma ReachableAppend(m: Matrix, s: Position, t: Position, u: Position)
    requires Reachable(m, s, t)
    requires Adjacent(t, u) && InSquare(u, |m|) && Filled(m, u)
    ensures Reachable(m, s, u)
  {
    var path :| IsChain(m, path) && path[0] == s && path[|path| - 1] == t;
    var longer := path + [u];
    assert IsChain(m, longer);
  }

  lemma {:induction false} ReachableTransitive(m: Matrix, s: Position, t: Position, u: Position)
    requires Reachable(m, s, t) && Reachable(m, t, u)
    ensures Reachable(m, s, u)
  {
    var p1 :| IsChain(m, p1) && p1[0] == s && p1[|p1| - 1] == t;
    var p2 :| IsChain(m, p2) && p2[0] == t && p2[|p2| - 1] == u;
    var joined := p1 + p2[1..];
    assert forall i :: |p1| <= i < |joined| ==> joined[i] == p2[i - |p1| + 1];
    assert IsChain(m, joined);
  }

  /** Walks run both ways once their first cell is filled too. */
  lemma ReachableSymmetric(m: Matrix, s: Position, t: Position)
    requires Filled(m, s) && Reachable(m, s, t)
    ensures Reachable(m, t, s)
  {
    var path :| IsChain(m, path) && path[0] == s && path[|path| - 1] == t;
    var n := |path|;
    var back := seq(n, i requires 0 <= i < n => path[n - 1 - i]);
    assert forall i :: 1 <= i < n ==> Filled(m, back[i]) by {
      forall i | 1 <= i < n ensures Filled(m, back[i]) {
        if n - 1 - i == 0 { assert back[i] == s; }
      }
    }
    assert forall i :: 0 <= i < n - 1 ==> Adjacent(back[i], back[i + 1]) by {
      forall i | 0 <= i < n - 1 ensures Adjacent(back[i], back[i + 1]) {
        assert Adjacent(path[n - 2 - i], path[n - 1 - i]);
      }
    }
    assert IsChain(m, back);
  }

  lemma {:induction false} ChainStaysInClosed(m: Matrix, S: set<Position>, path: seq<Position>, i: nat)
    requires IsChain(m, path) && path[0] in S && Closed(m, S)
    requires i < |path|
    ensures path[i] in S
    decreases i
  {
    if i > 0 {
      ChainStaysInClosed(m, S, path, i - 1);
      assert ClosedAt(m, path[i - 1], S);
      assert Adjacent(path[i - 1], path[i]);
    }
  }

  /** A set closed under filled neighbours holds every cell reachable from its members. */
  lemma ClosedHoldsReachable(m: Matrix, S: set<Position>, s: Position, t: Position)
    requires s in S && Closed(m, S) && Reachable(m, s, t)
    ensures t in S
  {
    var path :| IsChain(m, path) && path[0] == s && path[|path| - 1] == t;
    ChainStaysInClosed(m, S, path, |path| - 1);
  }

  lemma FilledInSquare(m: Matrix, p: Position)
    requires IsSquare(m) && Filled(m, p)
    ensures InSquare(p, |m|)
  {
    assert |m[p.row]| == |m|;
  }

  // ---------------------------------------------------------------------
  // The component

  /** An empty start cell has no component; a filled one belongs to its own. */
  lemma ComponentStart(m: Matrix, s: Position)
    requires IsSquare(m) && InSquare(s, |m|)
    ensures Filled(m, s) ==> s in Component(m, s)
    ensures Component(m, s) == {} <==> !Filled(m, s)
  {
    if Filled(m, s) {
      ReachableSelf(m, s);
      InSquareIsCell(s, |m|);
      assert s in Component(m, s);
    }
  }

  /** Every member lies in the square, is filled, and is reachable from the start. */
  lemma ComponentMembers(m: Matrix, s: Position, p: Position)
    requires IsSquare(m) && p in Component(m, s)
    ensures InSquare(p, |m|) && Filled(m, p) && Reachable(m, s, p)
  {
    ReachableEnd(m, s, p);
  }

  /** Every filled neighbour of a member is a member. */
  lemma ComponentClosed(m: Matrix, s: Position)
    requires IsSquare(m)
    ensures Closed(m, Component(m, s))
  {
    var C := Component(m, s);
    forall x | x in C ensures ClosedAt(m, x, C) {
      forall q | Adjacent(x, q) && Filled(m, q) ensures q in C {
        FilledInSquare(m, q);
        ReachableAppend(m, s, x, q);
        InSquareIsCell(q, |m|);
      }
    }
  }

  /** The component is the least closed set containing a filled start. */
  lemma ComponentIsLeast(m: Matrix, s: Position, S: set<Position>)
    requires Filled(m, s) && s in S && Closed(m, S)
    ensures Component(m, s) <= S
  {
    forall p | p in Component(m, s) ensures p in S {
      ClosedHoldsReachable(m, S, s, p);
    }
  }

  /** Querying from any member of a component gives the same component. */
  lemma ComponentOfMember(m: Matrix, s: Position, p: Position)
    requires IsSquare(m) && p in Component(m, s)
    ensures Component(m, p) == Component(m, s)
  {
    ComponentMembers(m, s, p);
    ReachableSymmetric(m, s, p);
    forall t | t in Component(m, s) ensures t in Component(m, p) {
      ReachableTransitive(m, p, s, t);
    }
    forall t | t in Component(m, p) ensures t in Component(m, s) {
      ReachableTransitive(m, s, p, t);
    }
  }

  /** Two components that share a cell are the same component. */
  lemma ComponentsDisjointOrEqual(m: Matrix, s: Position, t: Position, p: Position)
    requires IsSquare(m) && p in Component(m, s) && p in Component(m, t)
    ensures Component(m, s) == Component(m, t)
  {
    ComponentOfMember(m, s, p);
    ComponentOfMember(m, t, p);
  }

  // ---------------------------------------------------------------------
  // The search

  lemma {:induction false} SubsetCardinality(A: set<Position>, B: set<Position>)
    requires A <= B
    ensures |A| <= |B|
    decreases |A|
  {
    if A != {} {
      var x :| x in A;
      SubsetCardinality(A - {x}, B - {x});
    }
  }

  /** Visiting one more cell of the square leaves fewer cells unvisited. */
  lemma FewerUnvisited(U: set<Position>, A: set<Position>, B: set<Position>, q: Position)
    requires A <= B && q !in A && q in U
    ensures |U - (B + {q})| < |U - A|
  {
    SubsetCardinality(U - (B + {q}), (U - A) - {q});
  }

  /**
   * The cells of `S` that a search from `pos` added on top of `marked` are
   * all reachable from `pos` and have all their filled neighbours in `S`.
   */
  ghost predicate Explored(m: Matrix, pos: Position, S: set<Position>, marked: set<Position>) {
    forall x :: x in S && x !in marked ==> Reachable(m, pos, x) && ClosedAt(m, x, S)
  }

  /** What a search from a filled neighbour `q` adds is also explored from `pos`. */
  lemma ExploredThroughNeighbour(m: Matrix, pos: Position, q: Position,
                                 marked: set<Position>, before: set<Position>, after: set<Position>)
    requires InSquare(pos, |m|) && Adjacent(pos, q) && InSquare(q, |m|) && Filled(m, q)
    requires before <= after
    requires Explored(m, pos, before, marked) && Explored(m, q, after, before)
    ensures Explored(m, pos, after, marked)
  {
    forall x | x in after && x !in marked
      ensures Reachable(m, pos, x) && ClosedAt(m, x, after)
    {
      if x in before {
        assert ClosedAt(m, x, before);
      } else {
        ReachablePrepend(m, pos, q, x);
      }
    }
  }

  /** Once every neighbour that was unmarked and filled is in `S`, `pos` is closed in `S`. */
  lemma StartClosed(m: Matrix, pos: Position, marked: set<Position>, S: set<Position>)
    requires IsSquare(m) && marked <= S
    requires forall q :: q in Neighbours(m, pos) && q !in marked && Filled(m, q) ==> q in S
    ensures ClosedAt(m, pos, S)
  {
    forall q | Adjacent(pos, q) && Filled(m, q) ensures q in S {
      FilledInSquare(m, q);
    }
  }

  /**
   * `visitAllConnectedFilled`: marks `pos` visited, then recurses into each
   * neighbour that was unvisited and filled when the neighbour list was
   * filtered. Both filters run before the `forEach`, so a neighbour that an
   * earlier sibling's search already reached is entered again; that adds
   * nothing new. The set the source mutates in place is passed in and handed
   * back. Every cell the call adds is reachable from `pos`, and has all its
   * filled neighbours in the final set.
   */
  method VisitAllConnectedFilled(m: Matrix, pos: Position, visited: set<Position>)
    returns (result: set<Position>)
    requires IsSquare(m) && InSquare(pos, |m|)
    ensures visited + {pos} <= result
    ensures Explored(m, pos, result, visited)
    decreases |Cells(|m|) - (visited + {pos})|
  {
    result := visited + {pos};
    var marked := result;
    var unvisited := Filter(Neighbours(m, pos), q => q !in marked);
    var todo := Filter(unvisited, q => Filled(m, q));
    var i := 0;
    while i < |todo|
      invariant 0 <= i <= |todo|
      invariant marked <= result
      invariant forall k :: 0 <= k < i ==> todo[k] in result
      invariant Explored(m, pos, result, marked)
    {
      var q := todo[i];
      assert q in unvisited && Filled(m, q) && q !in marked;
      InSquareIsCell(q, |m|);
      FewerUnvisited(Cells(|m|), marked, result, q);
      ghost var before := result;
      result := VisitAllConnectedFilled(m, q, result);
      ExploredThroughNeighbour(m, pos, q, marked, before, result);
      assert forall k :: 0 <= k <= i ==> todo[k] in result by {
        assert before <= result && q in result;
      }
      i := i + 1;
    }
    ReachableSelf(m, pos);
    forall q | q in Neighbours(m, pos) && q !in marked && Filled(m, q) ensures q in result {
      assert q in todo;
    }
    StartClosed(m, pos, marked, result);
  }

  /**
   * `getAllConnected`: the empty set for an empty start cell, otherwise the
   * set the flood fill visits, which is exactly the start's component.
   */
  method GetAllConnected(m: Matrix, pos: Position) returns (connected: set<Position>)
    requires IsSquare(m) && InSquare(pos, |m|)
    ensures connected == Component(m, pos)
  {
    if m[pos.row][pos.col] == 0 {
      return {};
    }
    connected := VisitAllConnectedFilled(m, pos, {});
    ComponentIsLeast(m, pos, connected);
    forall p | p in connected ensures p in Component(m, pos) {
      ReachableEnd(m, pos, p);
      InSquareIsCell(p, |m|);
    }
  }
}
