/** The fixed 5x5 gridworld that every script shares: its cells, the special
    cells (start, goal, water, obstacles), the bounds and validity tests, and the
    reward table. */
module Grid {

  /** A grid cell as the scripts' (row, column) tuple. */
  datatype Cell = Cell(row: int, col: int)

  // GRID_SIZE (value-iteration scripts) and GRID_ROWS = GRID_COLS (gridworld scripts)
  const GridSize: int := 5

  const Start: Cell := Cell(0, 0)
  const Goal: Cell := Cell(4, 4)
  const Water: Cell := Cell(4, 2)
  const Obstacles: seq<Cell> := [Cell(2, 2), Cell(3, 2)]

  const GoalReward: int := 10
  const WaterReward: int := -10
  const ObstacleReward: int := -1
  const DefaultReward: int := 0

  /** `inBounds`: both coordinates in 0 .. GRID_SIZE-1. */
  predicate InBounds(c: Cell) {
    0 <= c.row <= GridSize - 1 && 0 <= c.col <= GridSize - 1
  }

  predicate IsObstacle(c: Cell) {
    c in Obstacles
  }

  /** `isValidState`: inside the grid and not an obstacle. */
  predicate IsValidState(c: Cell) {
    InBounds(c) && !IsObstacle(c)
  }

  /** TERMINAL_STATES = [WATER_STATE, GOAL_STATE]. */
  predicate IsTerminal(c: Cell) {
    c == Water || c == Goal
  }

  /** The number of cells, GRID_SIZE squared. */
  const CellCount: nat := GridSize * GridSize

  /** The k-th cell of STATES, which lists the grid row by row. */
  function CellAt(k: nat): (c: Cell)
    requires k < CellCount
    ensures InBounds(c) && Index(c) == k
  {
    Cell(k / GridSize, k % GridSize)
  }

  /** The position of a cell in STATES. */
  function Index(c: Cell): int {
    c.row * GridSize + c.col
  }

  /** Position and cell determine each other. */
  lemma IndexIdentifies(c: Cell)
    requires InBounds(c)
    ensures 0 <= Index(c) < CellCount && CellAt(Index(c)) == c
  {
  }

  /** Every cell of the list is in the grid. */
  ghost predicate InGrid(cells: seq<Cell>) {
    forall k :: 0 <= k < |cells| ==> InBounds(cells[k])
  }

  /** The prefix one longer than s[..i] ends with s[i]. */
  lemma PrefixExtend<T>(s: seq<T>, i: nat)
    requires i < |s|
    ensures |s[..i + 1]| == i + 1 && s[..i + 1][..i] == s[..i] && s[..i + 1][i] == s[i]
  {
    assert s[..i + 1][..i] == s[..i];
  }

  /** STATES / ALL_STATES: every cell, row by row. */
  function AllStates(): (cells: seq<Cell>)
    ensures |cells| == CellCount
    ensures InGrid(cells)
  {
    seq(CellCount, k requires 0 <= k < CellCount => CellAt(k))
  }

  /** The bounds test accepts exactly the cells the scripts enumerate. */
  lemma InBoundsIffListed(c: Cell)
    ensures InBounds(c) <==> c in AllStates()
  {
    if InBounds(c) {
      IndexIdentifies(c);
      assert AllStates()[Index(c)] == CellAt(Index(c)) == c;
    }
  }

  /** No cell is enumerated twice. */
  lemma AllStatesDistinct()
    ensures forall j, k :: 0 <= j < k < |AllStates()| ==> AllStates()[j] != AllStates()[k]
  {
  }

  /** Every cell in bounds is enumerated. */
  lemma AllInBoundsListed()
    ensures forall c :: InBounds(c) ==> c in AllStates()
  {
    forall c | InBounds(c) ensures c in AllStates() {
      InBoundsIffListed(c);
    }
  }

  /** A cell is valid exactly when it is enumerated and is not an obstacle. */
  lemma ValidIffListedFree(c: Cell)
    ensures IsValidState(c) <==> c in AllStates() && c !in Obstacles
  {
    InBoundsIffListed(c);
  }

  /** The special cells are pairwise distinct and inside the grid. */
  lemma ConfigurationWellFormed()
    ensures InBounds(Start) && InBounds(Goal) && InBounds(Water)
    ensures forall o :: o in Obstacles ==> InBounds(o) && o != Start && o != Goal && o != Water
    ensures Start != Goal && Start != Water && Goal != Water
    ensures Obstacles[0] != Obstacles[1]
  {
  }

  /** One entry of the reward table, with the goal test first, then water,
      then obstacles. */
  function Reward(c: Cell): int {
    if c == Goal then GoalReward
    else if c == Water then WaterReward
    else if IsObstacle(c) then ObstacleReward
    else DefaultReward
  }

  /** Each value of the table singles out one kind of cell. */
  lemma RewardClassifies(c: Cell)
    ensures Reward(c) == 10 <==> c == Goal
    ensures Reward(c) == -10 <==> c == Water
    ensures Reward(c) == -1 <==> IsObstacle(c)
    ensures Reward(c) == 0 <==> !IsTerminal(c) && !IsObstacle(c)
  {
  }

  /** `rewardFunction` / `initRewardFunction`: the table built by a loop over
      the enumerated cells. */
  method RewardFunction() returns (rewards: map<Cell, int>)
    ensures forall c :: c in rewards <==> InBounds(c)
    ensures forall c :: c in rewards ==> rewards[c] == Reward(c)
    ensures Goal in rewards && rewards[Goal] == GoalReward
    ensures Water in rewards && rewards[Water] == WaterReward
    ensures forall o :: o in Obstacles ==> o in rewards && rewards[o] == ObstacleReward
  {
    var goalReward := 10;
    var waterReward := -10;
    var obstacleReward := -1;
    var defaultReward := 0;
    rewards := map[];
    var states := AllStates();
    for i := 0 to |states|
      invariant forall c :: c in rewards <==> c in states[..i]
      invariant forall c :: c in rewards ==> rewards[c] == Reward(c)
    {
      var state := states[i];
      if state == Goal {
        rewards := rewards[state := goalReward];
      } else if state == Water {
        rewards := rewards[state := waterReward];
      } else if state in Obstacles {
        rewards := rewards[state := obstacleReward];
      } else {
        rewards := rewards[state := defaultReward];
      }
    }
    assert states[..|states|] == states;
    forall c ensures c in rewards <==> InBounds(c) {
      InBoundsIffListed(c);
    }
  }
}
