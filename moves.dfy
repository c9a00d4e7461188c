/** The deterministic transition in its two dialects: `takeAction` of the value
    iteration scripts (actions 'U', 'D', 'L', 'R' and the stay move 'N', reward
    read from the reward table) and `makeAction` of the gridworld scripts (action
    strings "up", "down", "left", "right", rewards written into the code), plus
    the veer rotations `goLeft` and `goRight`. */
module Moves {
  import opened Grid
  import opened Optional

  /** The four intents 'U', 'D', 'L', 'R'. */
  datatype Direction = Up | Down | Left | Right

  /** What `takeAction` accepts: a direction or the stay move 'N'. */
  datatype Move = Go(dir: Direction) | Stay

  /** ACTIONS = ['U', 'D', 'L', 'R'], in this order. */
  const Actions: seq<Direction> := [Up, Down, Left, Right]

  /** What a move returns: the next cell and the immediate reward. */
  datatype Outcome = Outcome(next: Cell, reward: int)

  /** The unit offset of a direction, as (row change, column change). */
  function Offset(d: Direction): (int, int) {
    match d
    case Up => (-1, 0)
    case Down => (1, 0)
    case Left => (0, -1)
    case Right => (0, 1)
  }

  /** The cell one step away from `c` in direction `d`. */
  function Neighbour(c: Cell, d: Direction): Cell {
    Cell(c.row + Offset(d).0, c.col + Offset(d).1)
  }

  /** Two cells that differ by one unit in exactly one coordinate. */
  predicate Adjacent(a: Cell, b: Cell) {
    (a.row == b.row && (a.col - b.col == 1 || b.col - a.col == 1))
    || (a.col == b.col && (a.row - b.row == 1 || b.row - a.row == 1))
  }

  /** The candidate cell `takeAction` computes before its collision test. */
  function Target(s: Cell, m: Move): Cell {
    match m
    case Go(d) => Neighbour(s, d)
    case Stay => s
  }

  /** `takeAction`. */
  function TakeAction(s: Cell, m: Move): Outcome
  {
    var nextState := Target(s, m);
    if !InBounds(nextState) || nextState in Obstacles then Outcome(s, -1)
    else Outcome(nextState, Reward(nextState))
  }

  /** A move into an out-of-grid cell or an obstacle leaves the agent where it
      is with reward -1; any other move lands on the target and earns the
      target's reward-table entry. */
  lemma TakeActionSpec(s: Cell, m: Move)
    ensures TakeAction(s, m).reward == -1 <==> !IsValidState(Target(s, m))
    ensures TakeAction(s, m).reward == -1 ==> TakeAction(s, m).next == s
    ensures TakeAction(s, m).reward != -1 ==> TakeAction(s, m).next == Target(s, m) && TakeAction(s, m).reward == Reward(TakeAction(s, m).next)
    ensures InBounds(s) ==> InBounds(TakeAction(s, m).next)
  {
  }

  /** A move never takes the agent further than one cell, and never from a
      valid cell into an obstacle or off the grid. */
  lemma TakeActionStaysValid(s: Cell, m: Move)
    requires IsValidState(s)
    ensures IsValidState(TakeAction(s, m).next)
    ensures TakeAction(s, m).next == s || Adjacent(s, TakeAction(s, m).next)
    ensures TakeAction(s, m).reward in {-1, 0, 10, -10}
  {
    var o := TakeAction(s, m);
    if o.reward != -1 {
      RewardClassifies(o.next);
      match m
      case Stay =>
      case Go(d) =>
        assert o.next == Neighbour(s, d);
        match d {
          case Up =>
          case Down =>
          case Left =>
          case Right =>
        }
    }
  }

  /** The stay move 'N' from a cell in the grid: the cell's own reward, or -1
      when the agent stands on an obstacle. */
  function StayReward(s: Cell): int {
    if IsObstacle(s) then -1 else Reward(s)
  }

  lemma StayOutcome(s: Cell)
    requires InBounds(s)
    ensures TakeAction(s, Stay) == Outcome(s, StayReward(s))
  {
  }

  /** `goLeft`: veer 90 degrees to the left of the intended direction. */
  function GoLeft(d: Direction): Direction {
    match d
    case Up => Left
    case Down => Right
    case Right => Up
    case Left => Down
  }

  /** `goRight`: veer 90 degrees to the right of the intended direction. */
  function GoRight(d: Direction): Direction {
    match d
    case Up => Right
    case Down => Left
    case Right => Down
    case Left => Up
  }

  /** Each veer undoes the other. */
  lemma VeersInverse(d: Direction)
    ensures GoLeft(GoRight(d)) == d && GoRight(GoLeft(d)) == d
  {
    match d
    case Up =>
    case Down =>
    case Left =>
    case Right =>
  }

  /** Each veer is a quarter turn of the offset (rows grow downwards), so four
      of them in a row are the identity. */
  lemma VeersRotateOffsets(d: Direction)
    ensures Offset(GoRight(d)) == (Offset(d).1, -Offset(d).0)
    ensures Offset(GoLeft(d)) == (-Offset(d).1, Offset(d).0)
    ensures GoRight(GoRight(GoRight(GoRight(d)))) == d
    ensures GoLeft(GoLeft(GoLeft(GoLeft(d)))) == d
    ensures GoLeft(d) != d && GoRight(d) != d && GoLeft(d) != GoRight(d)
  {
    match d
    case Up =>
    case Down =>
    case Left =>
    case Right =>
  }

  // ---- the gridworld dialect ----

  /** `getActionSpace`. */
  function ActionSpace(): (names: seq<string>)
    ensures |names| == 4
  {
    ["up", "left", "right", "down"]
  }

  /** The action string of a direction. */
  function Name(d: Direction): string {
    match d
    case Up => "up"
    case Down => "down"
    case Left => "left"
    case Right => "right"
  }

  /** The if/elif chain of `makeAction` that turns a string into a step. */
  function ParseAction(action: string): Option<Direction> {
    if action == "up" then Some(Up)
    else if action == "down" then Some(Down)
    else if action == "left" then Some(Left)
    else if action == "right" then Some(Right)
    else None
  }

  /** `makeAction`: an unknown action string leaves the agent in place with
      reward 0; a move off the grid or into an obstacle leaves it in place with
      reward -1; any other move lands on the neighbour, earning 10 at the goal,
      -10 at the water and 0 elsewhere. */
  function MakeAction(curr: Cell, action: string): (o: Outcome)
    ensures ParseAction(action).None? ==> o == Outcome(curr, 0)
    ensures ParseAction(action).Some? ==>
      var target := Neighbour(curr, ParseAction(action).value);
      (o.reward == -1 <==> !IsValidState(target))
      && (o.reward == -1 ==> o.next == curr)
      && (o.reward != -1 ==> o.next == target && IsValidState(o.next))
      && (o.reward == 10 <==> o.next == Goal && IsValidState(target))
      && (o.reward == -10 <==> o.next == Water && IsValidState(target))
      && (o.reward != -1 && o.next != Goal && o.next != Water ==> o.reward == 0)
  {
    match ParseAction(action)
    case None => Outcome(curr, 0)
    case Some(d) =>
      var nextStateCord := Neighbour(curr, d);
      if IsValidState(nextStateCord) then
        if nextStateCord == Goal then Outcome(nextStateCord, 10)
        else if nextStateCord == Water then Outcome(nextStateCord, -10)
        else Outcome(nextStateCord, 0)
      else Outcome(curr, -1)
  }

  /** The two dialects agree: `makeAction` on a direction's name is
      `takeAction` on that direction, from every cell. */
  lemma MakeActionAgreesWithTakeAction(s: Cell, d: Direction)
    ensures ParseAction(Name(d)) == Some(d)
    ensures MakeAction(s, Name(d)) == TakeAction(s, Go(d))
  {
    match d
    case Up =>
    case Down =>
    case Left =>
    case Right =>
  }

  /** Every name `getActionSpace` offers is one of the four handled moves, so a
      random choice never takes the unknown-action branch. */
  lemma ActionSpaceHandled(s: Cell, i: nat)
    requires i < |ActionSpace()|
    ensures ParseAction(ActionSpace()[i]).Some?
    ensures MakeAction(s, ActionSpace()[i]) == TakeAction(s, Go(ParseAction(ActionSpace()[i]).value))
  {
    var d := ParseAction(ActionSpace()[i]).value;
    assert ActionSpace()[i] == Name(d);
    MakeActionAgreesWithTakeAction(s, d);
  }
}
