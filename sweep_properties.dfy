/** What one sweep and a run of sweeps do to the value table: which cells
    change, how large `delta` is, how the greedy policy relates to the table,
    where the values stay, how far apart two sweeps can pull two tables, and
    how the two value iteration scripts compare. */
module SweepProperties {
  import opened Grid
  import opened Moves
  import opened Bellman
  import opened ValueIteration

  /** After a sweep a cell in the scope holds its rounded best action value
      from the old table, and every other cell holds its reward. */
  lemma NextTableAt(scope: Scope, V: ValueTable, c: Cell)
    requires Covers(V) && InBounds(c)
    ensures NextTable(scope, V)[c] == if Updated(scope, c) then Backup(V, c) else Reward(c) as real
  {
    InBoundsIffListed(c);
    SweepOverAt(scope, AllStates(), Backups(V), c);
    BackupsAt(V, c);
  }

  /** The terminal cells, and in the pygame script the obstacles too, hold
      their reward in every table value iteration produces. */
  lemma {:induction false} UnsweptCellsKeepRewards(scope: Scope, n: nat, c: Cell)
    requires InBounds(c) && !Updated(scope, c)
    ensures Iterate(scope, n)[c] == Reward(c) as real
  {
    if n == 0 {
      RewardTableAt(c);
    } else {
      NextTableAt(scope, Iterate(scope, n - 1), c);
    }
  }

  /** The running maximum over a list of cells is at least 0, bounds the
      change of every visited cell in the scope, and is 0 or the change of
      one of them. */
  lemma {:induction false} DeltaOverIsMax(scope: Scope, cells: seq<Cell>, V: ValueTable, B: ValueTable)
    ensures DeltaOver(scope, cells, V, B) >= 0.0
    ensures forall k :: (0 <= k < |cells| && Updated(scope, cells[k]) && cells[k] in B && cells[k] in V
                         ==> Abs(B[cells[k]] - V[cells[k]]) <= DeltaOver(scope, cells, V, B))
    ensures DeltaOver(scope, cells, V, B) == 0.0
      || exists k :: 0 <= k < |cells| && Updated(scope, cells[k]) && cells[k] in B && cells[k] in V
           && DeltaOver(scope, cells, V, B) == Abs(B[cells[k]] - V[cells[k]])
  {
    if cells != [] {
      var n := |cells| - 1;
      DeltaOverIsMax(scope, cells[..n], V, B);
      assert forall k :: 0 <= k < n ==> cells[..n][k] == cells[k];
    }
  }

  /** `delta` is the largest change a sweep makes to a cell in its scope:
      no such cell moves by more, and unless it is 0 some cell moves by
      exactly that much. */
  lemma DeltaIsMaxChange(scope: Scope, V: ValueTable)
    requires Covers(V)
    ensures Delta(scope, V) >= 0.0
    ensures forall c :: InBounds(c) && Updated(scope, c) ==> Abs(NextTable(scope, V)[c] - V[c]) <= Delta(scope, V)
    ensures Delta(scope, V) == 0.0
      || exists c :: InBounds(c) && Updated(scope, c) && Delta(scope, V) == Abs(NextTable(scope, V)[c] - V[c])
  {
    var cells, B := AllStates(), Backups(V);
    DeltaOverIsMax(scope, cells, V, B);
    forall c | InBounds(c) && Updated(scope, c)
      ensures Abs(NextTable(scope, V)[c] - V[c]) <= Delta(scope, V)
    {
      IndexIdentifies(c);
      NextTableAt(scope, V, c);
      BackupsAt(V, c);
      assert cells[Index(c)] == c;
    }
    if Delta(scope, V) != 0.0 {
      var k :| 0 <= k < |cells| && Updated(scope, cells[k]) && cells[k] in B && cells[k] in V
        && Delta(scope, V) == Abs(B[cells[k]] - V[cells[k]]);
      var c := cells[k];
      NextTableAt(scope, V, c);
      BackupsAt(V, c);
    }
  }

  /** The action `np.argmax` picks earns the largest action value, and every
      action before it in U, D, L, R earns strictly less. */
  lemma BestActionIsFirstBest(V: ValueTable, c: Cell)
    requires InBounds(c) && Covers(V)
    ensures CalculateValue(V, c, BestAction(V, c)) == MaxOf(ActionValues(V, c))
    ensures forall d :: CalculateValue(V, c, d) <= CalculateValue(V, c, BestAction(V, c))
    ensures forall d :: Rank(d) < Rank(BestAction(V, c)) ==> CalculateValue(V, c, d) < CalculateValue(V, c, BestAction(V, c))
  {
    var q := ActionValues(V, c);
    var k := Argmax(q);
    ArgmaxHoldsMax(q);
    ArgmaxIsFirstMax(q);
    ActionValuesAt(V, c, k);
    forall d ensures CalculateValue(V, c, d) <= q[k]
      && (Rank(d) < k ==> CalculateValue(V, c, d) < q[k])
    {
      assert Actions[Rank(d)] == d;
      ActionValuesAt(V, c, Rank(d));
    }
    assert Rank(Actions[k]) == k;
  }

  /** A pygame sweep's policy, started from an empty one, has an entry for
      exactly the free non-terminal cells, each the best action from V. */
  lemma GreedyAt(V: ValueTable, c: Cell)
    requires Covers(V)
    ensures c in Greedy(V) <==> InBounds(c) && Updated(NonTerminalFree, c)
    ensures c in Greedy(V) ==> Greedy(V)[c] == BestAction(V, c)
  {
    InBoundsIffListed(c);
    PolicyOverAt(map[], AllStates(), Choices(V), c);
    if InBounds(c) {
      ChoicesAt(V, c);
    }
  }

  /** After n > 0 pygame sweeps the policy tells, for every free non-terminal
      cell and nothing else, the best action against the table the last sweep
      started from. */
  lemma PolicyMatchesTable(n: nat, c: Cell)
    requires n > 0
    ensures c in PolicyAfter(n) <==> InBounds(c) && Updated(NonTerminalFree, c)
    ensures c in PolicyAfter(n) ==> PolicyAfter(n)[c] == BestAction(Iterate(NonTerminalFree, n - 1), c)
  {
    GreedyAt(Iterate(NonTerminalFree, n - 1), c);
  }

  /** A backup from a table whose values lie between -11 and 10 lies there
      too: the stay reward of a cell in a sweep's scope is 0 or -1, and
      rounding moves a value by at most 0.00005. */
  lemma BackupBounded(scope: Scope, V: ValueTable, c: Cell)
    requires Covers(V) && InBounds(c) && Updated(scope, c)
    requires forall x :: InBounds(x) ==> -11.0 <= V[x] <= 10.0
    ensures -11.0 <= Backup(V, c) <= 10.0
  {
    ActionValuesBounds(V, c, -11.0, 10.0);
    Round4Close(MaxOf(ActionValues(V, c)));
    assert StayReward(c) == 0 || StayReward(c) == -1;
  }

  /** A sweep keeps a table between -11 and 10. */
  lemma NextTableBounded(scope: Scope, V: ValueTable, c: Cell)
    requires Covers(V) && InBounds(c)
    requires forall x :: InBounds(x) ==> -11.0 <= V[x] <= 10.0
    ensures -11.0 <= NextTable(scope, V)[c] <= 10.0
  {
    NextTableAt(scope, V, c);
    if Updated(scope, c) {
      BackupBounded(scope, V, c);
    }
  }

  /** Every table value iteration produces lies between -11 and 10. */
  lemma {:induction false} TableBounded(scope: Scope, n: nat, c: Cell)
    requires InBounds(c)
    ensures -11.0 <= Iterate(scope, n)[c] <= 10.0
  {
    if n == 0 {
      RewardTableAt(c);
    } else {
      var V := Iterate(scope, n - 1);
      forall x | InBounds(x) ensures -11.0 <= V[x] <= 10.0 {
        TableBounded(scope, n - 1, x);
      }
      NextTableBounded(scope, V, c);
    }
  }

  /** Backups from two tables within `eps` of each other are within
      0.9 eps plus the rounding error of the two values. */
  lemma BackupContraction(V: ValueTable, W: ValueTable, c: Cell, eps: real)
    requires Covers(V) && Covers(W) && InBounds(c)
    requires forall x :: InBounds(x) ==> Abs(V[x] - W[x]) <= eps
    ensures Abs(Backup(V, c) - Backup(W, c)) <= DiscountFactor * eps + 0.0001
  {
    ActionValuesContraction(V, W, c, eps);
    Round4Close(MaxOf(ActionValues(V, c)));
    Round4Close(MaxOf(ActionValues(W, c)));
  }

  /** One sweep from two tables within `eps` of each other gives tables
      within 0.9 eps + 0.0001 of each other: the sweep is a contraction up to
      rounding. */
  lemma NextTableContraction(scope: Scope, V: ValueTable, W: ValueTable, eps: real)
    requires Covers(V) && Covers(W) && eps >= 0.0
    requires forall x :: InBounds(x) ==> Abs(V[x] - W[x]) <= eps
    ensures forall x :: InBounds(x) ==> Abs(NextTable(scope, V)[x] - NextTable(scope, W)[x]) <= DiscountFactor * eps + 0.0001
  {
    forall x | InBounds(x)
      ensures Abs(NextTable(scope, V)[x] - NextTable(scope, W)[x]) <= DiscountFactor * eps + 0.0001
    {
      NextTableAt(scope, V, x);
      NextTableAt(scope, W, x);
      if Updated(scope, x) {
        BackupContraction(V, W, x, eps);
      }
    }
  }

  /** Two tables over the whole grid that hold the same value on every valid
      cell. */
  ghost predicate AgreeOnValid(V: ValueTable, W: ValueTable) {
    Covers(V) && Covers(W) && forall x :: IsValidState(x) ==> V[x] == W[x]
  }

  /** The plain script also sweeps the obstacles, the pygame script keeps
      their rewards; since no move from a valid cell reads an obstacle's
      entry, the two scripts' tables agree on every valid cell after any
      number of sweeps. */
  lemma {:induction false} SweepsAgreeOffObstacles(n: nat)
    ensures AgreeOnValid(Iterate(NonTerminal, n), Iterate(NonTerminalFree, n))
  {
    if n > 0 {
      SweepsAgreeOffObstacles(n - 1);
      NextTablesAgreeOffObstacles(Iterate(NonTerminal, n - 1), Iterate(NonTerminalFree, n - 1));
    }
  }

  /** One sweep of each script, from tables that agree on the valid cells,
      gives tables that agree on the valid cells. */
  lemma NextTablesAgreeOffObstacles(V: ValueTable, W: ValueTable)
    requires AgreeOnValid(V, W)
    ensures AgreeOnValid(NextTable(NonTerminal, V), NextTable(NonTerminalFree, W))
  {
    forall c | IsValidState(c)
      ensures NextTable(NonTerminal, V)[c] == NextTable(NonTerminalFree, W)[c]
    {
      NextTableAt(NonTerminal, V, c);
      NextTableAt(NonTerminalFree, W, c);
      if Updated(NonTerminal, c) {
        ActionValuesIgnoreObstacles(V, W, c);
      }
    }
  }
}
