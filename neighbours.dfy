/** `initActions` of gridworld.py: for every cell except the water and the
    goal, the list of valid cells one step up, down, left and right of it, in
    that order. Obstacles get a list too. */
module NeighbourTable {
  import opened Grid
  import opened Moves

  /** The one-cell list of `x` when it passes `isValidState`, else empty. */
  function Keep(x: Cell): seq<Cell> {
    if IsValidState(x) then [x] else []
  }

  /** `next_states` of one cell: the valid cells among the one above, below,
      left and right of it, looked at in that order. */
  function Neighbours(c: Cell): seq<Cell> {
    Keep(Cell(c.row - 1, c.col)) + Keep(Cell(c.row + 1, c.col))
      + Keep(Cell(c.row, c.col - 1)) + Keep(Cell(c.row, c.col + 1))
  }

  /** Where a cell next to `c` lies: 0 above, 1 below, 2 left, 3 right. */
  function Side(c: Cell, x: Cell): nat {
    if x.row < c.row then 0
    else if x.row > c.row then 1
    else if x.col < c.col then 2
    else 3
  }

  /** The four cells next to `c` are the ones one step up, down, left and
      right of it. */
  lemma AdjacentCases(c: Cell, x: Cell)
    ensures Adjacent(c, x) <==> x == Cell(c.row - 1, c.col) || x == Cell(c.row + 1, c.col)
                                || x == Cell(c.row, c.col - 1) || x == Cell(c.row, c.col + 1)
  {
  }

  /** The neighbour list holds exactly the valid cells adjacent to `c`. */
  lemma NeighboursAreValidAdjacent(c: Cell)
    ensures forall x :: x in Neighbours(c) <==> IsValidState(x) && Adjacent(c, x)
  {
    var u, d, l, r := Cell(c.row - 1, c.col), Cell(c.row + 1, c.col), Cell(c.row, c.col - 1), Cell(c.row, c.col + 1);
    forall x ensures x in Neighbours(c) <==> IsValidState(x) && Adjacent(c, x) {
      AdjacentCases(c, x);
      assert x in Neighbours(c) <==> x in Keep(u) || x in Keep(d) || x in Keep(l) || x in Keep(r);
    }
  }

  /** Each cell of the list lies on a later side of `c` than the one
      before it. */
  ghost predicate SidesIncrease(c: Cell, xs: seq<Cell>) {
    forall j, k :: 0 <= j < k < |xs| ==> Side(c, xs[j]) < Side(c, xs[k])
  }

  /** Two lists with increasing sides, the first wholly on earlier sides
      than the second, join into a list with increasing sides. */
  lemma SidesIncreaseJoin(c: Cell, a: seq<Cell>, b: seq<Cell>, m: nat)
    requires SidesIncrease(c, a) && SidesIncrease(c, b)
    requires forall x :: x in a ==> Side(c, x) < m
    requires forall x :: x in b ==> m <= Side(c, x)
    ensures SidesIncrease(c, a + b)
  {
    var ab := a + b;
    forall j, k | 0 <= j < k < |ab| ensures Side(c, ab[j]) < Side(c, ab[k]) {
      if k < |a| {
        assert ab[j] == a[j] && ab[k] == a[k];
      } else if j < |a| {
        assert ab[j] in a && ab[k] in b;
      } else {
        assert ab[j] == b[j - |a|] && ab[k] == b[k - |a|];
      }
    }
  }

  /** The list has at most four cells, each on a later side of `c` than the
      one before it (up, down, left, right), so none twice. */
  lemma NeighboursOrdered(c: Cell)
    ensures |Neighbours(c)| <= 4
    ensures SidesIncrease(c, Neighbours(c))
  {
    var u, d, l, r := Cell(c.row - 1, c.col), Cell(c.row + 1, c.col), Cell(c.row, c.col - 1), Cell(c.row, c.col + 1);
    assert Side(c, u) == 0 && Side(c, d) == 1 && Side(c, l) == 2 && Side(c, r) == 3;
    SidesIncreaseJoin(c, Keep(u), Keep(d), 1);
    SidesIncreaseJoin(c, Keep(u) + Keep(d), Keep(l), 2);
    SidesIncreaseJoin(c, Keep(u) + Keep(d) + Keep(l), Keep(r), 3);
    assert Neighbours(c) == Keep(u) + Keep(d) + Keep(l) + Keep(r);
    assert |Keep(u)| <= 1 && |Keep(d)| <= 1 && |Keep(l)| <= 1 && |Keep(r)| <= 1;
  }

  /** Every move `makeAction` gets through lands on a listed neighbour, and
      every listed neighbour is where one of the four named moves lands. */
  lemma NeighboursAreMakeActionTargets(c: Cell)
    ensures forall d :: MakeAction(c, Name(d)).reward != -1 ==> MakeAction(c, Name(d)).next in Neighbours(c)
    ensures forall x :: x in Neighbours(c) ==> exists d :: MakeAction(c, Name(d)).next == x && MakeAction(c, Name(d)).reward != -1
  {
    NeighboursAreValidAdjacent(c);
    forall d | MakeAction(c, Name(d)).reward != -1 ensures MakeAction(c, Name(d)).next in Neighbours(c) {
      MakeActionAgreesWithTakeAction(c, d);
      assert Adjacent(c, Neighbour(c, d)) by { match d { case Up => case Down => case Left => case Right => } }
    }
    forall x | x in Neighbours(c) ensures exists d :: MakeAction(c, Name(d)).next == x && MakeAction(c, Name(d)).reward != -1 {
      var d := if x.row < c.row then Up else if x.row > c.row then Down else if x.col < c.col then Left else Right;
      MakeActionAgreesWithTakeAction(c, d);
      assert Neighbour(c, d) == x;
    }
  }

  /** The body of the loop of `initActions` for one cell: the four tests
      and appends that build `next_states`. */
  method NextStates(state: Cell) returns (nextStates: seq<Cell>)
    ensures nextStates == Neighbours(state)
  {
    nextStates := [];
    var i, j := state.row, state.col;
    if IsValidState(Cell(i - 1, j)) {
      nextStates := nextStates + [Cell(i - 1, j)];
    }
    assert nextStates == Keep(Cell(i - 1, j));
    if IsValidState(Cell(i + 1, j)) {
      nextStates := nextStates + [Cell(i + 1, j)];
    }
    assert nextStates == Keep(Cell(i - 1, j)) + Keep(Cell(i + 1, j));
    if IsValidState(Cell(i, j - 1)) {
      nextStates := nextStates + [Cell(i, j - 1)];
    }
    assert nextStates == Keep(Cell(i - 1, j)) + Keep(Cell(i + 1, j)) + Keep(Cell(i, j - 1));
    if IsValidState(Cell(i, j + 1)) {
      nextStates := nextStates + [Cell(i, j + 1)];
    }
    assert nextStates == Neighbours(state);
  }

  /** `initActions`: the table built by the loop over ALL_STATES, skipping the
      water and the goal. */
  method InitActions() returns (actions: map<Cell, seq<Cell>>)
    ensures forall c :: c in actions <==> InBounds(c) && !IsTerminal(c)
    ensures forall c :: c in actions ==> actions[c] == Neighbours(c)
  {
    actions := map[];
    var states := AllStates();
    for k := 0 to |states|
      invariant forall c :: c in actions <==> c in states[..k] && !IsTerminal(c)
      invariant forall c :: c in actions ==> actions[c] == Neighbours(c)
    {
      var state := states[k];
      PrefixExtend(states, k);
      assert forall c :: c in states[..k + 1] <==> c in states[..k] || c == state;
      if state == Water || state == Goal {
        continue;
      }
      var nextStates := NextStates(state);
      actions := actions[state := nextStates];
    }
    assert states[..|states|] == states;
    forall c ensures c in actions <==> InBounds(c) && !IsTerminal(c) {
      InBoundsIffListed(c);
    }
  }
}
