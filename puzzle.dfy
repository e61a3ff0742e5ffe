/**
 * The state space of the 8-puzzle: configurations, the goal, legal blank
 * moves, the transition that slides a tile into the blank, and the string
 * key the search uses for duplicate detection.
 */
module Puzzle {
  import opened Wrappers

  /** A direction the blank moves in: up, down, left or right. */
  datatype Move = U | D | L | R

  /** The goal configuration, row-major, 0 standing for the blank. */
  const Goal: seq<int> := [1, 2, 3, 4, 5, 6, 7, 8, 0]

  /** Nine cells, one of them the blank: what move generation needs. */
  predicate HasBlank(s: seq<int>) {
    |s| == 9 && 0 in s
  }

  /** Nine cells, each holding a value that has a goal position. */
  predicate ValidTiles(s: seq<int>) {
    |s| == 9 && forall i :: 0 <= i < 9 ==> 0 <= s[i] <= 8
  }

  /** No value occurs in two cells. */
  predicate Distinct(s: seq<int>) {
    forall i, j :: 0 <= i < j < |s| ==> s[i] != s[j]
  }

  /** A proper configuration: a permutation of 0..8, nine distinct values one of which is the blank. */
  predicate IsConfig(s: seq<int>) {
    HasBlank(s) && ValidTiles(s) && Distinct(s)
  }

  /** The goal index of each tile value (the source's `goal_positions`). */
  function GoalPos(v: int): (g: nat)
    requires 0 <= v <= 8
    ensures g < 9 && Goal[g] == v
  {
    if v == 0 then 8 else v - 1
  }

  /** The goal holds each value at a single index, so GoalPos is its inverse. */
  lemma GoalPosOfGoal(i: nat)
    requires i < 9
    ensures GoalPos(Goal[i]) == i
  {
  }

  /** The first index holding `v` (the source's `tuple.index`). */
  function IndexOf(s: seq<int>, v: int): (k: nat)
    requires v in s
    ensures k < |s| && s[k] == v
    ensures forall i :: 0 <= i < k ==> s[i] != v
  {
    if s[0] == v then 0 else 1 + IndexOf(s[1..], v)
  }

  /** Index of the blank. */
  function Blank(s: seq<int>): (e: nat)
    requires HasBlank(s)
    ensures e < 9 && s[e] == 0
  {
    IndexOf(s, 0)
  }

  /** Row and column offsets of a move on the 3x3 grid. */
  function RowStep(a: Move): int {
    match a
    case U => -1
    case D => 1
    case L => 0
    case R => 0
  }

  function ColStep(a: Move): int {
    match a
    case U => 0
    case D => 0
    case L => -1
    case R => 1
  }

  /** Rank of a move in the order the source lists them: U, D, L, R. */
  function Rank(a: Move): nat {
    match a
    case U => 0
    case D => 1
    case L => 2
    case R => 3
  }

  /** The moves of the blank, in the order U, D, L, R (the source's `get_actions`). */
  function Actions(s: seq<int>): (r: seq<Move>)
    requires HasBlank(s)
    ensures |r| <= 4
  {
    var row, col := Blank(s) / 3, Blank(s) % 3;
    (if row > 0 then [U] else []) + (if row < 2 then [D] else [])
    + (if col > 0 then [L] else []) + (if col < 2 then [R] else [])
  }

  /**
   * Each move is offered under one condition on the blank's row and column,
   * and the moves come without repetition in the order U, D, L, R.
   */
  lemma ActionsConditions(s: seq<int>)
    requires HasBlank(s)
    ensures U in Actions(s) <==> Blank(s) / 3 > 0
    ensures D in Actions(s) <==> Blank(s) / 3 < 2
    ensures L in Actions(s) <==> Blank(s) % 3 > 0
    ensures R in Actions(s) <==> Blank(s) % 3 < 2
    ensures forall i, j :: 0 <= i < j < |Actions(s)| ==> Rank(Actions(s)[i]) < Rank(Actions(s)[j])
  {
  }

  /** A move is offered exactly when the blank's neighbour in that direction is on the grid. */
  lemma ActionsStayOnGrid(s: seq<int>, a: Move)
    requires HasBlank(s)
    ensures a in Actions(s) <==>
      0 <= Blank(s) / 3 + RowStep(a) < 3 && 0 <= Blank(s) % 3 + ColStep(a) < 3
  {
    ActionsConditions(s);
  }

  /** The blank of the goal sits in the bottom-right corner. */
  lemma GoalBlank()
    ensures HasBlank(Goal) && Blank(Goal) == 8
  {
    assert Goal[8] == 0;
    forall i | 0 <= i < 8 ensures Goal[i] != 0 { }
  }

  /** With the blank in the bottom-right corner exactly U and L are offered. */
  lemma ActionsAtCorner(s: seq<int>)
    requires HasBlank(s) && Blank(s) == 8
    ensures Actions(s) == [U, L]
  {
  }

  /** At the goal exactly U and L are offered. */
  lemma ActionsAtGoal()
    ensures Actions(Goal) == [U, L]
  {
    GoalBlank();
    ActionsAtCorner(Goal);
  }

  /** The cell the blank swaps with: +-3 for vertical moves, +-1 for horizontal ones. */
  function SwapIndex(e: int, a: Move): (k: int)
    ensures k == e + 3 * RowStep(a) + ColStep(a)
  {
    match a
    case U => e - 3
    case D => e + 3
    case L => e - 1
    case R => e + 1
  }

  /** The swap index of a legal move is the grid neighbour in that direction. */
  lemma SwapIndexIsNeighbour(s: seq<int>, a: Move)
    requires HasBlank(s) && a in Actions(s)
    ensures 0 <= SwapIndex(Blank(s), a) < 9 && SwapIndex(Blank(s), a) != Blank(s)
    ensures SwapIndex(Blank(s), a) / 3 == Blank(s) / 3 + RowStep(a)
    ensures SwapIndex(Blank(s), a) % 3 == Blank(s) % 3 + ColStep(a)
  {
    ActionsStayOnGrid(s, a);
  }

  /**
   * Slide the neighbouring tile into the blank: a fresh configuration in which
   * the blank and the cell in direction `a` are exchanged (the source's `apply_action`).
   */
  function Apply(s: seq<int>, a: Move): (r: seq<int>)
    requires HasBlank(s) && a in Actions(s)
    ensures HasBlank(r)
    ensures ValidTiles(s) ==> ValidTiles(r)
  {
    SwapIndexIsNeighbour(s, a);
    var e := Blank(s);
    var k := SwapIndex(e, a);
    var r := s[e := s[k]][k := s[e]];
    assert r[k] == 0;
    r
  }

  /**
   * A move exchanges the blank with its neighbour and leaves every other cell
   * alone, so the result is a permutation of the input.
   */
  lemma ApplySwaps(s: seq<int>, a: Move)
    requires HasBlank(s) && a in Actions(s)
    ensures 0 <= SwapIndex(Blank(s), a) < 9 && SwapIndex(Blank(s), a) != Blank(s)
    ensures |Apply(s, a)| == 9 && multiset(Apply(s, a)) == multiset(s)
    ensures Apply(s, a)[Blank(s)] == s[SwapIndex(Blank(s), a)]
    ensures Apply(s, a)[SwapIndex(Blank(s), a)] == 0
    ensures forall i :: 0 <= i < 9 && i != Blank(s) && i != SwapIndex(Blank(s), a) ==>
      Apply(s, a)[i] == s[i]
  {
    SwapIndexIsNeighbour(s, a);
  }

  /** Where the swap of cells `e` and `k` takes the value of cell `i` from. */
  function Swapped(i: nat, e: nat, k: nat): (j: nat)
    ensures i != e && i != k ==> j == i
    ensures i == e ==> j == k
    ensures i == k && i != e ==> j == e
  {
    if i == e then k else if i == k then e else i
  }

  /** In a proper configuration the blank sits at the swap index after a move. */
  lemma ApplyMovesBlank(s: seq<int>, a: Move)
    requires IsConfig(s) && a in Actions(s)
    ensures IsConfig(Apply(s, a))
    ensures Blank(Apply(s, a)) == SwapIndex(Blank(s), a)
  {
    ApplySwaps(s, a);
    var e, k, r := Blank(s), SwapIndex(Blank(s), a), Apply(s, a);
    forall i, j | 0 <= i < j < 9 ensures r[i] != r[j] {
      var i', j' := Swapped(i, e, k), Swapped(j, e, k);
      assert r[i] == s[i'] && r[j] == s[j'];
      if i' > j' {
        assert s[j'] != s[i'];
      }
    }
  }

  /** The move that undoes `a`. */
  function Opposite(a: Move): (b: Move)
    ensures RowStep(b) == -RowStep(a) && ColStep(b) == -ColStep(a)
  {
    match a
    case U => D
    case D => U
    case L => R
    case R => L
  }

  /** After a move, the opposite move is offered and its swap index is the old blank. */
  lemma OppositeOffered(s: seq<int>, a: Move)
    requires IsConfig(s) && a in Actions(s)
    ensures Opposite(a) in Actions(Apply(s, a))
    ensures SwapIndex(Blank(Apply(s, a)), Opposite(a)) == Blank(s)
  {
    ApplyMovesBlank(s, a);
    SwapIndexIsNeighbour(s, a);
    ActionsStayOnGrid(Apply(s, a), Opposite(a));
  }

  /** Exchanging the same two cells twice restores the sequence. */
  lemma SwapTwice(s: seq<int>, t: seq<int>, u: seq<int>, e: nat, k: nat)
    requires |s| == |t| == |u| && e < |s| && k < |s|
    requires t[e] == s[k] && t[k] == s[e] && u[e] == t[k] && u[k] == t[e]
    requires forall i :: 0 <= i < |s| && i != e && i != k ==> t[i] == s[i] && u[i] == t[i]
    ensures u == s
  {
    assert forall i :: 0 <= i < |s| ==> u[i] == s[i];
  }

  /** Opposite moves undo each other on a proper configuration. */
  lemma ApplyOpposite(s: seq<int>, a: Move)
    requires IsConfig(s) && a in Actions(s)
    ensures Opposite(a) in Actions(Apply(s, a))
    ensures Apply(Apply(s, a), Opposite(a)) == s
  {
    OppositeOffered(s, a);
    ApplySwaps(s, a);
    var t := Apply(s, a);
    ApplySwaps(t, Opposite(a));
    SwapTwice(s, t, Apply(t, Opposite(a)), Blank(s), SwapIndex(Blank(s), a));
  }

  /**
   * Apply a move sequence from `s`, one `Apply` per move; None as soon as a
   * move is not offered in the configuration it is applied to.
   */
  function Run(s: seq<int>, path: seq<Move>): Option<seq<int>>
    decreases |path|
  {
    if path == [] then Some(s)
    else if HasBlank(s) && path[0] in Actions(s) then Run(Apply(s, path[0]), path[1..])
    else None
  }

  /** A run that succeeds from a permutation of 0..8 ends in a permutation of 0..8. */
  lemma {:induction false} RunKeepsConfig(s: seq<int>, path: seq<Move>)
    requires IsConfig(s)
    ensures Run(s, path).Some? ==> IsConfig(Run(s, path).value)
    decreases |path|
  {
    if path != [] && path[0] in Actions(s) {
      ApplyMovesBlank(s, path[0]);
      RunKeepsConfig(Apply(s, path[0]), path[1..]);
    }
  }

  /** Running a path followed by one more move. */
  lemma {:induction false} RunSnoc(s: seq<int>, path: seq<Move>, t: seq<int>, a: Move)
    requires Run(s, path) == Some(t) && HasBlank(t) && a in Actions(t)
    ensures Run(s, path + [a]) == Some(Apply(t, a))
    decreases |path|
  {
    if path == [] {
      assert path + [a] == [a];
    } else {
      assert (path + [a])[0] == path[0] && (path + [a])[1..] == path[1..] + [a];
      RunSnoc(Apply(s, path[0]), path[1..], t, a);
    }
  }

  /** Running a move followed by a path. */
  lemma RunCons(s: seq<int>, a: Move, path: seq<Move>)
    requires HasBlank(s) && a in Actions(s)
    ensures Run(s, [a] + path) == Run(Apply(s, a), path)
  {
    assert ([a] + path)[0] == a && ([a] + path)[1..] == path;
  }

  /** The decimal digit of a value 0..9. */
  function Digit(v: int): char
    requires 0 <= v <= 9
  {
    ('0' as int + v) as char
  }

  /** The string key of a configuration (the source's `string_state`). */
  function Key(s: seq<int>): (k: string)
    requires forall i :: 0 <= i < |s| ==> 0 <= s[i] <= 9
    ensures |k| == |s| && forall i :: 0 <= i < |s| ==> k[i] == Digit(s[i])
  {
    if s == [] then "" else [Digit(s[0])] + Key(s[1..])
  }

  /** Different digit-valued configurations have different keys. */
  lemma KeyInjective(s: seq<int>, t: seq<int>)
    requires forall i :: 0 <= i < |s| ==> 0 <= s[i] <= 9
    requires forall i :: 0 <= i < |t| ==> 0 <= t[i] <= 9
    ensures Key(s) == Key(t) <==> s == t
  {
    if Key(s) == Key(t) {
      forall i | 0 <= i < |s| ensures s[i] == t[i] {
        assert Digit(s[i]) == Digit(t[i]);
      }
    }
  }
}
