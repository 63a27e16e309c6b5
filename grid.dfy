/**
 * The grid's data and the pure helpers of src/Grid.tsx: the bounds test,
 * the neighbour list, the display-class rule, the record updates behind
 * `setTooltip` / `setHovered`, and the shape of a generated grid.
 */
module Grid {
  import opened Wrappers

  /**
   * A cell coordinate. The source keys its sets by the string "row col";
   * that encoding is injective on integers, so a value pair is equivalent.
   */
  datatype Position = Position(row: int, col: int)

  datatype Tooltip = Tooltip(pos: Position, text: string)

  /** `number[][]`, row-major; a cell counts as filled when it is non-zero. */
  type Matrix = seq<seq<int>>

  datatype GridData = GridData(contents: Matrix, hovered: set<Position>, tooltip: Option<Tooltip>)

  /** The fixture the page starts with. */
  const InitialGrid: Matrix := [
    [0, 0, 0, 0, 1],
    [1, 1, 0, 0, 0],
    [1, 1, 0, 1, 1],
    [0, 0, 0, 0, 0],
    [1, 1, 1, 0, 0]
  ]

  /** Every row is as long as there are rows; the source uses the row count as the side length. */
  predicate IsSquare(m: Matrix) {
    forall i :: 0 <= i < |m| ==> |m[i]| == |m|
  }

  predicate InSquare(pos: Position, size: int) {
    0 <= pos.row < size && 0 <= pos.col < size
  }

  /** The positions of a `size` x `size` square, as a set. */
  ghost function Cells(size: int): set<Position> {
    set r, c | 0 <= r < size && 0 <= c < size :: Position(r, c)
  }

  lemma InSquareIsCell(pos: Position, size: int)
    ensures InSquare(pos, size) <==> pos in Cells(size)
  {
    if InSquare(pos, size) {
      assert pos == Position(pos.row, pos.col);
    }
  }

  /** The truth value of `grid.contents[row][col]`, for a cell that exists. */
  predicate Filled(m: Matrix, p: Position) {
    0 <= p.row < |m| && 0 <= p.col < |m[p.row]| && m[p.row][p.col] != 0
  }

  /** Horizontally or vertically next to each other (the reference for `getNeighbours`). */
  predicate Adjacent(p: Position, q: Position) {
    || (p.row == q.row && (p.col - q.col == 1 || q.col - p.col == 1))
    || (p.col == q.col && (p.row - q.row == 1 || q.row - p.row == 1))
  }

  /** Where `q` stands among the four neighbours of `p`: up 0, down 1, left 2, right 3. */
  function Direction(p: Position, q: Position): int {
    if q.row < p.row then 0
    else if q.row > p.row then 1
    else if q.col < p.col then 2
    else 3
  }

  /** `Array.prototype.filter`. */
  function Filter<T(!new)>(s: seq<T>, keep: T -> bool): (r: seq<T>)
    ensures |r| <= |s|
    ensures forall x :: x in r <==> x in s && keep(x)
  {
    if s == [] then []
    else (if keep(s[0]) then [s[0]] else []) + Filter(s[1..], keep)
  }

  /** Filtering keeps every kept element as often as it occurs, and drops the others. */
  lemma {:induction false} FilterCounts<T(!new)>(s: seq<T>, keep: T -> bool)
    ensures forall x :: multiset(Filter(s, keep))[x] == (if keep(x) then multiset(s)[x] else 0)
  {
    if s != [] {
      FilterCounts(s[1..], keep);
      assert s == [s[0]] + s[1..];
      var head: seq<T> := if keep(s[0]) then [s[0]] else [];
      assert Filter(s, keep) == head + Filter(s[1..], keep);
      assert multiset(Filter(s, keep)) == multiset(head) + multiset(Filter(s[1..], keep));
    }
  }

  /** Filtering keeps the relative order of the elements it keeps. */
  lemma {:induction false} FilterKeepsOrder<T(!new)>(s: seq<T>, keep: T -> bool, rank: T -> int)
    requires forall i, j :: 0 <= i < j < |s| ==> rank(s[i]) < rank(s[j])
    ensures forall i, j :: 0 <= i < j < |Filter(s, keep)| ==>
      rank(Filter(s, keep)[i]) < rank(Filter(s, keep)[j])
  {
    if s != [] {
      FilterKeepsOrder(s[1..], keep, rank);
      var tail := Filter(s[1..], keep);
      forall k | 0 <= k < |tail| ensures rank(s[0]) < rank(tail[k]) {
        assert tail[k] in s[1..];
      }
    }
  }

  /**
   * `getNeighbours`: the cells above, below, left of and right of `pos`,
   * in that order, that lie inside the square.
   */
  function Neighbours(m: Matrix, pos: Position): (r: seq<Position>)
    ensures |r| <= 4
    ensures forall q :: q in r <==> Adjacent(pos, q) && InSquare(q, |m|)
    ensures forall i, j :: 0 <= i < j < |r| ==> Direction(pos, r[i]) < Direction(pos, r[j])
  {
    var candidates := [
      Position(pos.row - 1, pos.col),
      Position(pos.row + 1, pos.col),
      Position(pos.row, pos.col - 1),
      Position(pos.row, pos.col + 1)
    ];
    var inSquare := q => InSquare(q, |m|);
    assert forall q :: Adjacent(pos, q) ==> q in candidates by {
      forall q | Adjacent(pos, q) ensures q in candidates {
        if q.row == pos.row - 1 { assert q == candidates[0]; }
        else if q.row == pos.row + 1 { assert q == candidates[1]; }
        else if q.col == pos.col - 1 { assert q == candidates[2]; }
        else { assert q == candidates[3]; }
      }
    }
    FilterKeepsOrder(candidates, inSquare, q => Direction(pos, q));
    Filter(candidates, inSquare)
  }

  /**
   * `getClassName`: a hovered cell shows as hovered whatever it holds;
   * otherwise a cell shows as filled or as background by its value.
   */
  function ClassName(g: GridData, pos: Position): (r: string)
    requires IsSquare(g.contents)
    requires pos in g.hovered || InSquare(pos, |g.contents|)
    ensures r == "hovered" <==> pos in g.hovered
    ensures r == "filled" <==> pos !in g.hovered && Filled(g.contents, pos)
    ensures r == "background" <==> pos !in g.hovered && !Filled(g.contents, pos)
  {
    if pos in g.hovered then "hovered"
    else if g.contents[pos.row][pos.col] != 0 then "filled"
    else "background"
  }

  /** `{ ...prevGrid, tooltip }`: only the tooltip changes. */
  function WithTooltip(g: GridData, t: Tooltip): (r: GridData)
    ensures r.contents == g.contents && r.hovered == g.hovered
    ensures r.tooltip == Some(t)
  {
    g.(tooltip := Some(t))
  }

  /** `{ ...prevGrid, hovered }`: only the hovered set changes. */
  function WithHovered(g: GridData, hovered: set<Position>): (r: GridData)
    ensures r.contents == g.contents && r.tooltip == g.tooltip
    ensures r.hovered == hovered
  {
    g.(hovered := hovered)
  }


  lemma {:induction false} MulMonotone(a: nat, b: nat, c: nat)
    requires a <= b
    ensures a * c <= b * c
    decreases b - a
  {
    if a < b {
      MulMonotone(a + 1, b, c);
      assert (a + 1) * c == a * c + c;
    }
  }

  lemma CellIndexInRange(size: nat, i: nat, j: nat)
    requires i < size && j < size
    ensures i * size + j < size * size
  {
    MulMonotone(i + 1, size, size);
    assert (i + 1) * size == i * size + size;
  }

  /**
   * The value `Math.round(Math.random())` leaves in cell (i, j) when the
   * random draws, in the order the loops make them, are the bits `coins`.
   */
  function DrawnCell(size: nat, coins: seq<bool>, i: nat, j: nat): int
    requires |coins| == size * size && i < size && j < size
  {
    CellIndexInRange(size, i, j);
    if coins[i * size + j] then 1 else 0
  }

  /**
   * `generateGrid`: `size` rows of `size` cells each, the `k`-th random
   * draw filling the `k`-th cell in row-major order; nothing hovered, no tooltip.
   */
  method GenerateGrid(size: nat, coins: seq<bool>) returns (g: GridData)
    requires |coins| == size * size
    ensures |g.contents| == size && IsSquare(g.contents)
    ensures forall i, j :: 0 <= i < size && 0 <= j < size ==>
      g.contents[i][j] == DrawnCell(size, coins, i, j)
    ensures forall i, j :: 0 <= i < size && 0 <= j < size ==> g.contents[i][j] == 0 || g.contents[i][j] == 1
    ensures g.hovered == {} && g.tooltip == None
  {
    var contents: Matrix := [];
    var i := 0;
    while i < size
      invariant 0 <= i <= size
      invariant |contents| == i
      invariant forall k :: 0 <= k < i ==> |contents[k]| == size
      invariant forall k, j :: 0 <= k < i && 0 <= j < size ==>
        contents[k][j] == DrawnCell(size, coins, k, j)
    {
      var rowContents: seq<int> := [];
      var j := 0;
      while j < size
        invariant 0 <= j <= size
        invariant |rowContents| == j
        invariant forall l :: 0 <= l < j ==> rowContents[l] == DrawnCell(size, coins, i, l)
      {
        rowContents := rowContents + [DrawnCell(size, coins, i, j)];
        j := j + 1;
      }
      contents := contents + [rowContents];
      i := i + 1;
    }
    g := GridData(contents, {}, None);
  }
}
