/** Synchronous value iteration as the two value iteration scripts run it:
    each sweep builds a fresh table seeded from the rewards, walks STATES in
    order, overwrites each cell it updates with the rounded best action value
    computed from the old table, and records the largest change; the loop stops
    after the first sweep whose largest change is below THRESHOLD. The plain
    script updates every non-terminal cell, obstacles included; the pygame
    script skips obstacles and also records the argmax policy. */
module ValueIteration {
  import opened Grid
  import opened Moves
  import opened Bellman

  const Threshold: real := 0.0001

  /** Which cells a sweep updates. */
  datatype Scope =
    | NonTerminal      // value-iteration.py: `state not in TERMINAL_STATES`
    | NonTerminalFree  // pygame-value-iteration.py: `state not in TERMINAL_STATES + OBSTACLES`

  predicate Updated(scope: Scope, c: Cell) {
    !IsTerminal(c) && (scope == NonTerminal || !IsObstacle(c))
  }

  /** The rewards of the listed cells as values, written in list order. */
  ghost function RewardsOver(cells: seq<Cell>): ValueTable {
    if cells == [] then map[]
    else
      var n := |cells| - 1;
      RewardsOver(cells[..n])[cells[n] := Reward(cells[n]) as real]
  }

  lemma {:induction false} RewardsOverAt(cells: seq<Cell>, c: Cell)
    ensures c in RewardsOver(cells) <==> c in cells
    ensures c in cells ==> RewardsOver(cells)[c] == Reward(c) as real
  {
    if cells != [] {
      var n := |cells| - 1;
      RewardsOverAt(cells[..n], c);
      assert c in cells <==> c in cells[..n] || c == cells[n] by {
        assert cells == cells[..n] + [cells[n]];
      }
    }
  }

  /** `rewardFunction()` as a value table: the initial V and the seed of every
      sweep. */
  ghost function RewardTable(): ValueTable {
    RewardsOver(AllStates())
  }

  /** The reward table has exactly the grid's cells as keys, each holding
      its reward. */
  lemma RewardTableAt(c: Cell)
    ensures c in RewardTable() <==> InBounds(c)
    ensures InBounds(c) ==> RewardTable()[c] == Reward(c) as real
  {
    RewardsOverAt(AllStates(), c);
    InBoundsIffListed(c);
  }

  lemma RewardTableCovers()
    ensures Covers(RewardTable())
  {
    forall c | InBounds(c) ensures c in RewardTable() {
      RewardTableAt(c);
    }
  }

  /** `round(max(actionValues), 4)`: what a sweep writes into a cell it
      updates. */
  function Backup(V: ValueTable, c: Cell): real
    requires InBounds(c) && Covers(V)
  {
    Round4(MaxOf(ActionValues(V, c)))
  }

  /** The backups from V of the listed cells. */
  ghost function BackupsOver(V: ValueTable, cells: seq<Cell>): ValueTable
    requires Covers(V) && InGrid(cells)
  {
    if cells == [] then map[]
    else
      var n := |cells| - 1;
      BackupsOver(V, cells[..n])[cells[n] := Backup(V, cells[n])]
  }

  lemma {:induction false} BackupsOverAt(V: ValueTable, cells: seq<Cell>, c: Cell)
    requires Covers(V) && InGrid(cells)
    ensures c in BackupsOver(V, cells) <==> c in cells
    ensures c in cells ==> BackupsOver(V, cells)[c] == Backup(V, c)
  {
    if cells != [] {
      var n := |cells| - 1;
      BackupsOverAt(V, cells[..n], c);
      assert cells == cells[..n] + [cells[n]];
    }
  }

  /** Every cell's backup from V, the values a sweep starting from V writes. */
  ghost function Backups(V: ValueTable): (B: ValueTable)
    requires Covers(V)
    ensures Covers(B)
  {
    var B := BackupsOver(V, AllStates());
    assert Covers(B) by {
      forall c | InBounds(c) ensures c in B {
        BackupsOverAt(V, AllStates(), c);
        InBoundsIffListed(c);
      }
    }
    B
  }

  lemma BackupsAt(V: ValueTable, c: Cell)
    requires Covers(V) && InBounds(c)
    ensures Backups(V)[c] == Backup(V, c)
  {
    BackupsOverAt(V, AllStates(), c);
    InBoundsIffListed(c);
  }

  /** The table a sweep holds once it has visited `cells`, a prefix of
      STATES: the reward table with each visited cell in the scope
      overwritten by its entry in B, the table of backups. */
  ghost function SweepOver(scope: Scope, cells: seq<Cell>, B: ValueTable): ValueTable
  {
    if cells == [] then RewardTable()
    else
      var n := |cells| - 1;
      var W := SweepOver(scope, cells[..n], B);
      var c := cells[n];
      if Updated(scope, c) && c in B then W[c := B[c]] else W
  }

  /** After the visited cells, a cell holds its backup if it was visited and
      is in the scope, and its reward otherwise; no other key appears. */
  lemma {:induction false} SweepOverAt(scope: Scope, cells: seq<Cell>, B: ValueTable, c: Cell)
    requires InGrid(cells) && Covers(B)
    ensures c in SweepOver(scope, cells, B) <==> InBounds(c)
    ensures InBounds(c) ==>
      SweepOver(scope, cells, B)[c] == (if c in cells && Updated(scope, c) then B[c] else Reward(c) as real)
  {
    if cells == [] {
      RewardTableAt(c);
    } else {
      var n := |cells| - 1;
      assert InBounds(cells[n]);
      SweepOverAt(scope, cells[..n], B, c);
      assert c in cells <==> c in cells[..n] || c == cells[n] by {
        assert cells == cells[..n] + [cells[n]];
      }
    }
  }

  /** The `delta` accumulated over the visited cells: the running maximum,
      from 0, of how far each visited cell in the scope moves, from V[c] to
      its entry in B. */
  ghost function DeltaOver(scope: Scope, cells: seq<Cell>, V: ValueTable, B: ValueTable): real
  {
    if cells == [] then 0.0
    else
      var n := |cells| - 1;
      var d := DeltaOver(scope, cells[..n], V, B);
      var c := cells[n];
      if Updated(scope, c) && c in B && c in V then Max(d, Abs(B[c] - V[c])) else d
  }

  /** The loop step of a sweep from V: visiting the next cell, if it is in
      the scope, writes its backup and folds its change into the running
      maximum, and otherwise changes nothing; W', d' are the table and the
      maximum after the visit. */
  lemma SweepStep(scope: Scope, states: seq<Cell>, i: nat, V: ValueTable,
                  W: ValueTable, d: real, W': ValueTable, d': real)
    requires i < |states| && InGrid(states) && Covers(V)
    requires W == SweepOver(scope, states[..i], Backups(V))
    requires d == DeltaOver(scope, states[..i], V, Backups(V))
    requires Updated(scope, states[i]) ==>
      W' == W[states[i] := Backup(V, states[i])] && d' == Max(d, Abs(Backup(V, states[i]) - V[states[i]]))
    requires !Updated(scope, states[i]) ==> W' == W && d' == d
    ensures W' == SweepOver(scope, states[..i + 1], Backups(V))
    ensures d' == DeltaOver(scope, states[..i + 1], V, Backups(V))
  {
    var c, B := states[i], Backups(V);
    assert InBounds(c);
    BackupsAt(V, c);
    SweepOverStep(scope, states, i, B);
    DeltaOverStep(scope, states, i, V, B);
  }

  /** Visiting one more cell overwrites it with its entry in B if it is in
      the scope. */
  lemma SweepOverStep(scope: Scope, cells: seq<Cell>, i: nat, B: ValueTable)
    requires i < |cells|
    ensures SweepOver(scope, cells[..i + 1], B) ==
      var W := SweepOver(scope, cells[..i], B);
      if Updated(scope, cells[i]) && cells[i] in B then W[cells[i] := B[cells[i]]] else W
  {
    PrefixExtend(cells, i);
  }

  /** Visiting one more cell folds its change into the running maximum if it
      is in the scope. */
  lemma DeltaOverStep(scope: Scope, cells: seq<Cell>, i: nat, V: ValueTable, B: ValueTable)
    requires i < |cells|
    ensures DeltaOver(scope, cells[..i + 1], V, B) ==
      var d := DeltaOver(scope, cells[..i], V, B);
      var c := cells[i];
      if Updated(scope, c) && c in B && c in V then Max(d, Abs(B[c] - V[c])) else d
  {
    PrefixExtend(cells, i);
  }

  /** The table one sweep produces from V. */
  ghost function NextTable(scope: Scope, V: ValueTable): (W: ValueTable)
    requires Covers(V)
    ensures Covers(W)
  {
    var W := SweepOver(scope, AllStates(), Backups(V));
    assert Covers(W) by {
      forall c | InBounds(c) ensures c in W {
        SweepOverAt(scope, AllStates(), Backups(V), c);
      }
    }
    W
  }

  /** The table after n sweeps from the reward table. */
  ghost function Iterate(scope: Scope, n: nat): (V: ValueTable)
    ensures Covers(V)
  {
    if n == 0 then RewardTableCovers(); RewardTable() else NextTable(scope, Iterate(scope, n - 1))
  }

  /** A sweep from the table after n sweeps yields the table after n + 1. */
  lemma IterateStep(scope: Scope, n: nat, V: ValueTable, newV: ValueTable)
    requires V == Iterate(scope, n) && newV == NextTable(scope, V)
    ensures newV == Iterate(scope, n + 1)
  {
  }

  /** The `delta` of the sweep that starts from V. */
  ghost function Delta(scope: Scope, V: ValueTable): real
    requires Covers(V)
  {
    DeltaOver(scope, AllStates(), V, Backups(V))
  }

  /** None of the first n sweeps met the stop rule. */
  ghost predicate RanOnPast(scope: Scope, n: nat) {
    forall k {:trigger Delta(scope, Iterate(scope, k))} :: 0 <= k < n ==> Delta(scope, Iterate(scope, k)) >= Threshold
  }

  lemma RanOnPastExtend(scope: Scope, n: nat)
    requires RanOnPast(scope, n)
    requires Delta(scope, Iterate(scope, n)) >= Threshold
    ensures RanOnPast(scope, n + 1)
  {
  }

  /** `ACTIONS[np.argmax(actionValues)]`: the first of U, D, L, R with the
      largest action value. */
  function BestAction(V: ValueTable, c: Cell): Direction
    requires InBounds(c) && Covers(V)
  {
    Actions[Argmax(ActionValues(V, c))]
  }

  /** The argmax actions from V of the listed cells. */
  ghost function ChoicesOver(V: ValueTable, cells: seq<Cell>): map<Cell, Direction>
    requires Covers(V) && InGrid(cells)
  {
    if cells == [] then map[]
    else
      var n := |cells| - 1;
      ChoicesOver(V, cells[..n])[cells[n] := BestAction(V, cells[n])]
  }

  lemma {:induction false} ChoicesOverAt(V: ValueTable, cells: seq<Cell>, c: Cell)
    requires Covers(V) && InGrid(cells)
    ensures c in ChoicesOver(V, cells) <==> c in cells
    ensures c in cells ==> ChoicesOver(V, cells)[c] == BestAction(V, c)
  {
    if cells != [] {
      var n := |cells| - 1;
      ChoicesOverAt(V, cells[..n], c);
      assert cells == cells[..n] + [cells[n]];
    }
  }

  /** Every cell's argmax action from V. */
  ghost function Choices(V: ValueTable): (A: map<Cell, Direction>)
    requires Covers(V)
    ensures forall c :: InBounds(c) ==> c in A
  {
    var A := ChoicesOver(V, AllStates());
    assert forall c :: InBounds(c) ==> c in A by {
      forall c | InBounds(c) ensures c in A {
        ChoicesOverAt(V, AllStates(), c);
        InBoundsIffListed(c);
      }
    }
    A
  }

  lemma ChoicesAt(V: ValueTable, c: Cell)
    requires Covers(V) && InBounds(c)
    ensures Choices(V)[c] == BestAction(V, c)
  {
    ChoicesOverAt(V, AllStates(), c);
    InBoundsIffListed(c);
  }

  /** The policy a pygame sweep holds once it has visited `cells`: `policy`
      with each visited cell that is free and non-terminal set to its entry
      in A, the table of argmax actions. */
  ghost function PolicyOver(policy: map<Cell, Direction>, cells: seq<Cell>, A: map<Cell, Direction>): map<Cell, Direction>
  {
    if cells == [] then policy
    else
      var n := |cells| - 1;
      var P := PolicyOver(policy, cells[..n], A);
      var c := cells[n];
      if Updated(NonTerminalFree, c) && c in A then P[c := A[c]] else P
  }

  /** After the visited cells, a policy entry is the argmax action if its
      cell was visited and is free and non-terminal, and the old entry
      otherwise. */
  lemma {:induction false} PolicyOverAt(policy: map<Cell, Direction>, cells: seq<Cell>, A: map<Cell, Direction>, c: Cell)
    requires InGrid(cells) && forall c :: InBounds(c) ==> c in A
    ensures c in PolicyOver(policy, cells, A) <==> c in policy || (c in cells && Updated(NonTerminalFree, c))
    ensures c in cells && Updated(NonTerminalFree, c) ==> PolicyOver(policy, cells, A)[c] == A[c]
    ensures !(c in cells && Updated(NonTerminalFree, c)) && c in policy
      ==> PolicyOver(policy, cells, A)[c] == policy[c]
  {
    if cells != [] {
      var n := |cells| - 1;
      PolicyOverAt(policy, cells[..n], A, c);
      assert cells == cells[..n] + [cells[n]];
    }
  }

  /** The loop step of the policy of a pygame sweep from V: visiting a free
      non-terminal cell writes its argmax action, and visiting any other cell
      changes nothing; P' is the policy after the visit. */
  lemma PolicyStep(states: seq<Cell>, i: nat, V: ValueTable, policy: map<Cell, Direction>,
                   P: map<Cell, Direction>, P': map<Cell, Direction>)
    requires i < |states| && InGrid(states) && Covers(V)
    requires P == PolicyOver(policy, states[..i], Choices(V))
    requires Updated(NonTerminalFree, states[i]) ==> P' == P[states[i] := BestAction(V, states[i])]
    requires !Updated(NonTerminalFree, states[i]) ==> P' == P
    ensures P' == PolicyOver(policy, states[..i + 1], Choices(V))
  {
    var c := states[i];
    assert InBounds(c);
    ChoicesAt(V, c);
    PrefixExtend(states, i);
  }

  /** The policy entries one pygame sweep writes, into an empty policy. */
  ghost function Greedy(V: ValueTable): map<Cell, Direction>
    requires Covers(V)
  {
    PolicyOver(map[], AllStates(), Choices(V))
  }

  /** The position of a direction in ACTIONS. */
  function Rank(d: Direction): nat {
    match d
    case Up => 0
    case Down => 1
    case Left => 2
    case Right => 3
  }

  /** The integer rewards as values. */
  function AsValues(rewards: map<Cell, int>): ValueTable {
    map c | c in rewards :: rewards[c] as real
  }

  lemma RewardTableFrom(rewards: map<Cell, int>)
    requires forall c :: c in rewards <==> InBounds(c)
    requires forall c :: c in rewards ==> rewards[c] == Reward(c)
    ensures AsValues(rewards) == RewardTable()
  {
    forall c ensures (c in AsValues(rewards) <==> c in RewardTable())
      && (c in rewards ==> AsValues(rewards)[c] == RewardTable()[c]) {
      RewardTableAt(c);
    }
  }

  /** `rewardFunction()` used as a value table. */
  method RewardValues() returns (V: ValueTable)
    ensures V == RewardTable()
  {
    var rewards := RewardFunction();
    V := AsValues(rewards);
    RewardTableFrom(rewards);
  }

  // ---- the plain script, value-iteration.py ----

  /** One sweep of value-iteration.py: a fresh table seeded from the rewards,
      every non-terminal cell (obstacles included) overwritten from the old
      table V only, and the largest change. */
  method Sweep(V: ValueTable) returns (newV: ValueTable, delta: real)
    requires Covers(V)
    ensures newV == NextTable(NonTerminal, V)
    ensures delta == Delta(NonTerminal, V)
  {
    delta := 0.0;
    newV := RewardValues();
    var states := AllStates();
    for i := 0 to |states|
      invariant newV == SweepOver(NonTerminal, states[..i], Backups(V))
      invariant delta == DeltaOver(NonTerminal, states[..i], V, Backups(V))
    {
      ghost var W, d := newV, delta;
      var state := states[i];
      if Updated(NonTerminal, state) {
        newV := newV[state := Backup(V, state)];
        delta := Max(delta, Abs(newV[state] - V[state]));
      }
      SweepStep(NonTerminal, states, i, V, W, d, newV, delta);
    }
    assert states[..|states|] == states;
  }

  /** `valueIteration` of value-iteration.py with at most `maxSweeps` sweeps:
      it stops after the first sweep whose delta is below THRESHOLD and returns
      that sweep's table; `iteration` counts the sweeps before it. */
  method RunValueIteration(maxSweeps: nat) returns (V: ValueTable, iteration: nat, converged: bool)
    ensures converged ==> iteration < maxSweeps
    ensures converged ==> V == Iterate(NonTerminal, iteration + 1)
    ensures converged ==> Delta(NonTerminal, Iterate(NonTerminal, iteration)) < Threshold
    ensures !converged ==> iteration == maxSweeps && V == Iterate(NonTerminal, maxSweeps)
    ensures RanOnPast(NonTerminal, iteration)
  {
    V := RewardValues();
    iteration := 0;
    converged := false;
    while iteration < maxSweeps
      invariant iteration <= maxSweeps
      invariant V == Iterate(NonTerminal, iteration)
      invariant RanOnPast(NonTerminal, iteration)
    {
      var newV, delta := Sweep(V);
      IterateStep(NonTerminal, iteration, V, newV);
      V := newV;
      if delta < Threshold {
        converged := true;
        break;
      }
      RanOnPastExtend(NonTerminal, iteration);
      iteration := iteration + 1;
    }
  }

  // ---- the pygame script, pygame-value-iteration.py ----

  /** One sweep of pygame-value-iteration.py: as `Sweep`, but obstacles are
      skipped and each updated cell's argmax action is written into the
      policy, whose other entries are kept. */
  method SweepWithPolicy(V: ValueTable, policy: map<Cell, Direction>)
    returns (newV: ValueTable, newPolicy: map<Cell, Direction>, delta: real)
    requires Covers(V)
    ensures newV == NextTable(NonTerminalFree, V)
    ensures newPolicy == PolicyOver(policy, AllStates(), Choices(V))
    ensures delta == Delta(NonTerminalFree, V)
  {
    delta := 0.0;
    newV := RewardValues();
    newPolicy := policy;
    var states := AllStates();
    for i := 0 to |states|
      invariant newV == SweepOver(NonTerminalFree, states[..i], Backups(V))
      invariant newPolicy == PolicyOver(policy, states[..i], Choices(V))
      invariant delta == DeltaOver(NonTerminalFree, states[..i], V, Backups(V))
    {
      ghost var W, P, d := newV, newPolicy, delta;
      var state := states[i];
      if Updated(NonTerminalFree, state) {
        var value := Backup(V, state);
        var bestAction := BestAction(V, state);
        newV := newV[state := value];
        newPolicy := newPolicy[state := bestAction];
        delta := Max(delta, Abs(newV[state] - V[state]));
      }
      SweepStep(NonTerminalFree, states, i, V, W, d, newV, delta);
      PolicyStep(states, i, V, policy, P, newPolicy);
    }
    assert states[..|states|] == states;
  }

  /** The policy after n pygame sweeps: empty before the first, then the
      argmax actions of the table the last sweep started from. */
  ghost function PolicyAfter(n: nat): map<Cell, Direction> {
    if n == 0 then map[] else Greedy(Iterate(NonTerminalFree, n - 1))
  }

  /** `valueIteration` of pygame-value-iteration.py with at most `maxSweeps`
      sweeps: the same stop rule as `RunValueIteration`, and the policy holds
      the argmax actions of the last sweep. */
  method RunValueIterationWithPolicy(maxSweeps: nat)
    returns (V: ValueTable, policy: map<Cell, Direction>, iteration: nat, converged: bool)
    ensures converged ==> iteration < maxSweeps
    ensures converged ==> V == Iterate(NonTerminalFree, iteration + 1)
    ensures converged ==> Delta(NonTerminalFree, Iterate(NonTerminalFree, iteration)) < Threshold
    ensures converged ==> policy == PolicyAfter(iteration + 1)
    ensures !converged ==> iteration == maxSweeps && V == Iterate(NonTerminalFree, maxSweeps)
    ensures !converged ==> policy == PolicyAfter(maxSweeps)
    ensures RanOnPast(NonTerminalFree, iteration)
  {
    V := RewardValues();
    policy := map[];
    iteration := 0;
    converged := false;
    while iteration < maxSweeps
      invariant iteration <= maxSweeps
      invariant V == Iterate(NonTerminalFree, iteration)
      invariant policy == PolicyAfter(iteration)
      invariant RanOnPast(NonTerminalFree, iteration)
    {
      var newV, newPolicy, delta := SweepWithPolicy(V, policy);
      PolicySweepStep(iteration, V, policy, newV, newPolicy, delta);
      V, policy := newV, newPolicy;
      if delta < Threshold {
        converged := true;
        break;
      }
      iteration := iteration + 1;
    }
  }

  /** A pygame sweep from the table and policy after n sweeps yields the
      table and policy after n + 1. */
  lemma PolicySweepStep(n: nat, V: ValueTable, policy: map<Cell, Direction>,
                        newV: ValueTable, newPolicy: map<Cell, Direction>, delta: real)
    requires V == Iterate(NonTerminalFree, n) && policy == PolicyAfter(n) && RanOnPast(NonTerminalFree, n)
    requires newV == NextTable(NonTerminalFree, V) && delta == Delta(NonTerminalFree, V)
    requires newPolicy == PolicyOver(policy, AllStates(), Choices(V))
    ensures newV == Iterate(NonTerminalFree, n + 1) && newPolicy == PolicyAfter(n + 1)
    ensures delta >= Threshold ==> RanOnPast(NonTerminalFree, n + 1)
  {
    IterateStep(NonTerminalFree, n, V, newV);
    PolicyAfterStep(n);
    if delta >= Threshold {
      RanOnPastExtend(NonTerminalFree, n);
    }
  }

  /** A sweep overwrites every entry of a policy whose keys are all cells it
      writes: the old policy leaves no trace. */
  lemma PolicyOverReplaces(policy: map<Cell, Direction>, cells: seq<Cell>, A: map<Cell, Direction>)
    requires InGrid(cells) && forall c :: InBounds(c) ==> c in A
    requires forall c :: c in policy ==> c in cells && Updated(NonTerminalFree, c)
    ensures PolicyOver(policy, cells, A) == PolicyOver(map[], cells, A)
  {
    var P, G := PolicyOver(policy, cells, A), PolicyOver(map[], cells, A);
    forall c ensures (c in P <==> c in G) && (c in P ==> P[c] == G[c]) {
      PolicyOverAt(policy, cells, A, c);
      PolicyOverAt(map[], cells, A, c);
    }
  }

  /** The keys of a greedy policy are the cells a pygame sweep writes. */
  lemma GreedyKeys(V: ValueTable)
    requires Covers(V)
    ensures forall c :: c in Greedy(V) ==> c in AllStates() && Updated(NonTerminalFree, c)
  {
    forall c | c in Greedy(V) ensures c in AllStates() && Updated(NonTerminalFree, c) {
      PolicyOverAt(map[], AllStates(), Choices(V), c);
    }
  }

  /** A pygame sweep's policy entries replace all of the previous sweep's,
      because every sweep writes the same set of cells. */
  lemma PolicyAfterStep(n: nat)
    ensures PolicyOver(PolicyAfter(n), AllStates(), Choices(Iterate(NonTerminalFree, n))) == PolicyAfter(n + 1)
  {
    if n > 0 {
      GreedyKeys(Iterate(NonTerminalFree, n - 1));
    }
    PolicyOverReplaces(PolicyAfter(n), AllStates(), Choices(Iterate(NonTerminalFree, n)));
  }
}
