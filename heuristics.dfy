/**
 * The two integer heuristics of the solver: the Manhattan distance and the
 * Manhattan distance augmented by linear conflicts. Each has a specification
 * function and the accumulator loop that computes it.
 */
module Heuristics {
  import opened Wrappers
  import opened Puzzle

  function Abs(x: int): nat {
    if x < 0 then -x else x
  }

  /** Grid distance of value `v` at index `i` from its goal cell; the blank counts 0. */
  function TileDistance(i: nat, v: int): (d: nat)
    requires i < 9 && 0 <= v <= 8
    ensures d == 0 <==> v == 0 || GoalPos(v) == i
  {
    if v == 0 then 0 else Abs(i / 3 - GoalPos(v) / 3) + Abs(i % 3 - GoalPos(v) % 3)
  }

  /** Sum of the tile distances of the first `n` cells. */
  function ManhattanSum(s: seq<int>, n: nat): nat
    requires ValidTiles(s) && n <= 9
  {
    if n == 0 then 0 else ManhattanSum(s, n - 1) + TileDistance(n - 1, s[n - 1])
  }

  /** No cell is more than four steps (the grid's diameter) from its goal cell. */
  lemma {:induction false} ManhattanSumBound(s: seq<int>, n: nat)
    requires ValidTiles(s) && n <= 9
    ensures ManhattanSum(s, n) <= 4 * n
  {
    if n > 0 {
      ManhattanSumBound(s, n - 1);
      var v := s[n - 1];
      if v != 0 {
        var g := GoalPos(v);
        assert Abs((n - 1) / 3 - g / 3) <= 2 && Abs((n - 1) % 3 - g % 3) <= 2;
      }
    }
  }

  /** The Manhattan distance of a configuration to the goal. */
  function Manhattan(s: seq<int>): nat
    requires ValidTiles(s)
  {
    ManhattanSum(s, 9)
  }

  /** The source's `manhattan_distance`: one pass over the cells, skipping the blank. */
  method ManhattanDistance(s: seq<int>) returns (distance: int)
    requires ValidTiles(s)
    ensures distance == Manhattan(s)
  {
    distance := 0;
    for i := 0 to |s|
      invariant distance == ManhattanSum(s, i)
    {
      var val := s[i];
      if val != 0 {
        var goalPos := GoalPos(val);
        var currentRow, currentCol := i / 3, i % 3;
        var goalRow, goalCol := goalPos / 3, goalPos % 3;
        distance := distance + Abs(currentRow - goalRow) + Abs(currentCol - goalCol);
      }
    }
  }

  /** A sum of distances is zero exactly when every distance in it is. */
  lemma {:induction false} ManhattanSumZero(s: seq<int>, n: nat)
    requires ValidTiles(s) && n <= 9
    ensures ManhattanSum(s, n) == 0 <==> forall i :: 0 <= i < n ==> TileDistance(i, s[i]) == 0
  {
    if n > 0 {
      ManhattanSumZero(s, n - 1);
      var d := TileDistance(n - 1, s[n - 1]);
      assert ManhattanSum(s, n) == ManhattanSum(s, n - 1) + d;
      assert (forall i :: 0 <= i < n ==> TileDistance(i, s[i]) == 0) <==>
        (forall i :: 0 <= i < n - 1 ==> TileDistance(i, s[i]) == 0) && d == 0;
    }
  }

  /** On a permutation of 0..8 the Manhattan distance is zero exactly at the goal. */
  lemma ManhattanZeroIffGoal(s: seq<int>)
    requires IsConfig(s)
    ensures Manhattan(s) == 0 <==> s == Goal
  {
    ManhattanSumZero(s, 9);
    if s == Goal {
      forall i | 0 <= i < 9 ensures TileDistance(i, s[i]) == 0 {
        GoalPosOfGoal(i);
      }
    }
    if Manhattan(s) == 0 {
      forall i | 0 <= i < 9 ensures s[i] == Goal[i] {
        assert s[i] == 0 || s[i] == Goal[i];
        if i < 8 {
          assert s[i] != s[8];
        }
      }
    }
  }

  /** Changing two cells changes the sum by the change of their two distances. */
  lemma {:induction false} ManhattanSumTwoChanges(s: seq<int>, r: seq<int>, e: nat, k: nat, n: nat)
    requires ValidTiles(s) && ValidTiles(r) && e < 9 && k < 9 && e != k && n <= 9
    requires forall i :: 0 <= i < 9 && i != e && i != k ==> r[i] == s[i]
    ensures ManhattanSum(r, n) - ManhattanSum(s, n) ==
      (if e < n then TileDistance(e, r[e]) - TileDistance(e, s[e]) else 0) +
      (if k < n then TileDistance(k, r[k]) - TileDistance(k, s[k]) else 0)
  {
    if n > 0 {
      ManhattanSumTwoChanges(s, r, e, k, n - 1);
      var i := n - 1;
      if i != e && i != k {
        assert r[i] == s[i];
      }
    }
  }

  /** A tile that slides to a neighbouring cell gets one step nearer to or farther from its goal. */
  lemma TileDistanceNeighbour(s: seq<int>, a: Move, v: int)
    requires HasBlank(s) && a in Actions(s) && 1 <= v <= 8
    ensures
      var d := TileDistance(Blank(s), v) - TileDistance(SwapIndex(Blank(s), a), v);
      d == 1 || d == -1
  {
    SwapIndexIsNeighbour(s, a);
  }

  /** Every move changes the Manhattan distance by exactly one. */
  lemma MoveChangesManhattanByOne(s: seq<int>, a: Move)
    requires IsConfig(s) && a in Actions(s)
    ensures ValidTiles(Apply(s, a))
    ensures Manhattan(Apply(s, a)) == Manhattan(s) + 1 || Manhattan(Apply(s, a)) == Manhattan(s) - 1
  {
    ApplySwaps(s, a);
    var e, k := Blank(s), SwapIndex(Blank(s), a);
    assert s[e] != s[k] by { if k < e { assert s[k] != s[e]; } }
    ManhattanSumTwoChanges(s, Apply(s, a), e, k, 9);
    TileDistanceNeighbour(s, a, s[k]);
  }

  /**
   * The Manhattan distance never exceeds the length of a move sequence that
   * reaches the goal: it is an admissible heuristic.
   */
  lemma {:induction false} ManhattanAdmissible(s: seq<int>, path: seq<Move>)
    requires IsConfig(s) && Run(s, path) == Some(Goal)
    ensures Manhattan(s) <= |path|
    decreases |path|
  {
    if path == [] {
      ManhattanZeroIffGoal(s);
    } else {
      ApplyMovesBlank(s, path[0]);
      ManhattanAdmissible(Apply(s, path[0]), path[1..]);
      MoveChangesManhattanByOne(s, path[0]);
    }
  }

  /** The two scans of the linear-conflict count: along rows, then along columns. */
  datatype Axis = Row | Col

  /** Index of the cell at position `pos` of row or column `line`. */
  function Cell(axis: Axis, line: nat, pos: nat): (c: nat)
    requires line < 3 && pos < 3
    ensures c < 9
    ensures axis == Row ==> c / 3 == line && c % 3 == pos
    ensures axis == Col ==> c % 3 == line && c / 3 == pos
  {
    match axis
    case Row => 3 * line + pos
    case Col => 3 * pos + line
  }

  /** The row or column in which value `v` sits in the goal. */
  function GoalLine(axis: Axis, v: int): nat
    requires 0 <= v <= 8
  {
    match axis
    case Row => GoalPos(v) / 3
    case Col => GoalPos(v) % 3
  }

  /**
   * Positions `i` and `j` of a line hold two tiles that both belong to that
   * line in the goal but stand in the reverse of their goal order.
   */
  predicate InConflict(s: seq<int>, axis: Axis, line: nat, i: nat, j: nat)
    requires ValidTiles(s) && line < 3 && i < 3 && j < 3
  {
    var v1, v2 := s[Cell(axis, line, i)], s[Cell(axis, line, j)];
    && v1 != 0 && v2 != 0
    && GoalLine(axis, v1) == line && GoalLine(axis, v2) == line
    && ((i < j && GoalPos(v1) > GoalPos(v2)) || (i > j && GoalPos(v1) < GoalPos(v2)))
  }

  /** Number of positions `j` with `i < j < n` in conflict with position `i`. */
  function PairsWith(s: seq<int>, axis: Axis, line: nat, i: nat, n: nat): nat
    requires ValidTiles(s) && line < 3 && i < 3 && n <= 3
  {
    if n <= i + 1 then 0
    else PairsWith(s, axis, line, i, n - 1) + (if InConflict(s, axis, line, i, n - 1) then 1 else 0)
  }

  /** Number of conflicting pairs `i < j` of a line with `i < m`. */
  function PairsIn(s: seq<int>, axis: Axis, line: nat, m: nat): nat
    requires ValidTiles(s) && line < 3 && m <= 3
  {
    if m == 0 then 0 else PairsIn(s, axis, line, m - 1) + PairsWith(s, axis, line, m - 1, 3)
  }

  /** Number of conflicting pairs in the first `n` lines along `axis`. */
  function LinePairs(s: seq<int>, axis: Axis, n: nat): nat
    requires ValidTiles(s) && n <= 3
  {
    if n == 0 then 0 else LinePairs(s, axis, n - 1) + PairsIn(s, axis, n - 1, 3)
  }

  /** All conflicting pairs, rows and columns counted independently. */
  function ConflictPairs(s: seq<int>): nat
    requires ValidTiles(s)
  {
    LinePairs(s, Row, 3) + LinePairs(s, Col, 3)
  }

  /** The linear-conflict heuristic: the Manhattan distance plus two for every conflicting pair. */
  function LinearConflict(s: seq<int>): nat
    requires ValidTiles(s)
  {
    Manhattan(s) + 2 * ConflictPairs(s)
  }

  /** Linear conflict dominates the Manhattan distance, by an even amount. */
  lemma LinearConflictDominates(s: seq<int>)
    requires ValidTiles(s)
    ensures LinearConflict(s) >= Manhattan(s) && (LinearConflict(s) - Manhattan(s)) % 2 == 0
  {
  }

  /**
   * The body of one row (or column) iteration of `linear_conflict`: scan the
   * pairs `i < j` of the line and add two to the running count for each
   * conflicting pair.
   */
  method ScanLine(s: seq<int>, axis: Axis, line: nat, conflicts0: int) returns (conflicts: int)
    requires ValidTiles(s) && line < 3
    ensures conflicts == conflicts0 + 2 * PairsIn(s, axis, line, 3)
  {
    var vals := [s[Cell(axis, line, 0)], s[Cell(axis, line, 1)], s[Cell(axis, line, 2)]];
    conflicts := conflicts0;
    for i := 0 to 3
      invariant conflicts == conflicts0 + 2 * PairsIn(s, axis, line, i)
    {
      for j := i + 1 to 3
        invariant conflicts == conflicts0 + 2 * (PairsIn(s, axis, line, i) + PairsWith(s, axis, line, i, j))
      {
        var val1, val2 := vals[i], vals[j];
        if val1 != 0 && val2 != 0 {
          var goalPos1, goalPos2 := GoalPos(val1), GoalPos(val2);
          if GoalLine(axis, val1) == line && GoalLine(axis, val2) == line {
            if (i < j && goalPos1 > goalPos2) || (i > j && goalPos1 < goalPos2) {
              conflicts := conflicts + 2;
            }
          }
        }
      }
    }
  }

  /** The source's `linear_conflict`: a row scan and a column scan over all pairs, then Manhattan. */
  method LinearConflictValue(s: seq<int>) returns (h: int)
    requires ValidTiles(s)
    ensures h == LinearConflict(s)
  {
    var conflicts := 0;
    for r := 0 to 3
      invariant conflicts == 2 * LinePairs(s, Row, r)
    {
      conflicts := ScanLine(s, Row, r, conflicts);
    }
    ghost var rowConflicts := conflicts;
    for c := 0 to 3
      invariant conflicts == rowConflicts + 2 * LinePairs(s, Col, c)
    {
      conflicts := ScanLine(s, Col, c, conflicts);
    }
    var distance := ManhattanDistance(s);
    h := distance + conflicts;
  }

  /** At the goal every tile of a line stands in goal order, so no pair conflicts. */
  lemma NoConflictAtGoal(axis: Axis, line: nat, i: nat, j: nat)
    requires line < 3 && i < j < 3
    ensures !InConflict(Goal, axis, line, i, j)
  {
    GoalPosOfGoal(Cell(axis, line, i));
    GoalPosOfGoal(Cell(axis, line, j));
  }

  /** On a permutation of 0..8 the linear-conflict value is zero exactly at the goal. */
  lemma LinearConflictZeroIffGoal(s: seq<int>)
    requires IsConfig(s)
    ensures LinearConflict(s) == 0 <==> s == Goal
  {
    ManhattanZeroIffGoal(s);
    if s == Goal {
      forall axis: Axis, line: nat, i: nat, j: nat | line < 3 && i < j < 3
        ensures !InConflict(s, axis, line, i, j)
      {
        NoConflictAtGoal(axis, line, i, j);
      }
      assert ConflictPairs(s) == 0;
    }
  }

  /** Both heuristics vanish at the goal. */
  lemma HeuristicsAtGoal()
    ensures ValidTiles(Goal) && Manhattan(Goal) == 0 && LinearConflict(Goal) == 0
  {
    assert Goal[8] == 0;
    assert IsConfig(Goal);
    LinearConflictZeroIffGoal(Goal);
  }
}
