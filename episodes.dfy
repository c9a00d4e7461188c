/** The episode loops: `uniformRandomSelection` (gridworld.py,
    uniform-selection.py), `visualUniformRandomSelection` (pygame-gridworld.py
    and its copy pygame-uniform-selection.py) and `runOptimalPolicy`
    (pygame-value-iteration.py). Every episode starts at START_STATE, adds
    `reward * DISCOUNT_FACTOR ** timestep` for each step, and ends when the
    agent stands on the goal or right after it steps into the water. The
    random choice `np.random.choice(getActionSpace())` is a list of drawn
    action names supplied by the caller; the optimal-policy loop, which has no
    bound of its own, gets a step budget `fuel`. */
module Episodes {
  import opened Optional
  import opened Grid
  import opened Moves
  import opened Bellman
  import opened ValueIteration
  import opened SweepProperties

  // MAX_EPISODES of gridworld.py, uniform-selection.py and pygame-value-iteration.py
  const MaxEpisodes: nat := 10000
  // MAX_EPISODES of pygame-gridworld.py and pygame-uniform-selection.py
  const VisualMaxEpisodes: nat := 10

  /** DISCOUNT_FACTOR ** t. */
  function DiscountPower(t: nat): (p: real)
    ensures 0.0 < p <= 1.0
  {
    if t == 0 then 1.0 else DiscountFactor * DiscountPower(t - 1)
  }

  /** `reward * (DISCOUNT_FACTOR ** timestep)`: what step `t` adds. */
  function Gain(o: Outcome, t: nat): real {
    o.reward as real * DiscountPower(t)
  }

  /** A step one timestep later is worth DISCOUNT_FACTOR times as much. */
  lemma GainShift(o: Outcome, t: nat)
    ensures Gain(o, t + 1) == DiscountFactor * Gain(o, t)
  {
    var r, p := o.reward as real, DiscountPower(t);
    assert DiscountPower(t + 1) == DiscountFactor * p;
    assert r * (DiscountFactor * p) == DiscountFactor * (r * p);
  }

  /** The loop's `discountedReturn` after the steps of `trace`: the gain of
      each step at its timestep, added in order. */
  function EpisodeReturn(trace: seq<Outcome>): real {
    if trace == [] then 0.0
    else
      var n := |trace| - 1;
      EpisodeReturn(trace[..n]) + Gain(trace[n], n)
  }

  /** The discounted return as the recursion G = r + 0.9 G' on the rest of
      the episode. */
  function ReturnFrom(trace: seq<Outcome>): real {
    if trace == [] then 0.0
    else trace[0].reward as real + DiscountFactor * ReturnFrom(trace[1..])
  }

  /** One more step adds its reward discounted by its timestep. */
  lemma EpisodeReturnAppend(trace: seq<Outcome>, o: Outcome)
    ensures EpisodeReturn(trace + [o]) == EpisodeReturn(trace) + Gain(o, |trace|)
  {
    assert (trace + [o])[..|trace|] == trace;
  }

  /** A step in front of an episode counts undiscounted and pushes every
      later reward one timestep further. */
  lemma {:induction false} EpisodeReturnPrepend(o: Outcome, trace: seq<Outcome>)
    ensures EpisodeReturn([o] + trace) == o.reward as real + DiscountFactor * EpisodeReturn(trace)
  {
    if trace == [] {
      assert [o] + trace == [] + [o];
      EpisodeReturnAppend([], o);
    } else {
      var n := |trace| - 1;
      EpisodeReturnPrepend(o, trace[..n]);
      assert [o] + trace == ([o] + trace[..n]) + [trace[n]];
      EpisodeReturnAppend([o] + trace[..n], trace[n]);
      EpisodeReturnAppend(trace[..n], trace[n]);
      assert trace[..n] + [trace[n]] == trace;
      GainShift(trace[n], n);
    }
  }

  /** The running sum of the loop is the discounted return of the episode. */
  lemma {:induction false} EpisodeReturnIsReturn(trace: seq<Outcome>)
    ensures EpisodeReturn(trace) == ReturnFrom(trace)
  {
    if trace != [] {
      EpisodeReturnIsReturn(trace[1..]);
      EpisodeReturnPrepend(trace[0], trace[1..]);
      assert [trace[0]] + trace[1..] == trace;
    }
  }

  /** The last step of an episode: onto the goal for 10, or into the water
      for -10. */
  predicate Ends(o: Outcome) {
    (o.next == Goal && o.reward == GoalReward) || (o.next == Water && o.reward == WaterReward)
  }

  /** A step that does not end the episode: onto a valid, non-terminal cell,
      for 0 or, when the move was blocked, -1. */
  predicate Continues(o: Outcome) {
    IsValidState(o.next) && !IsTerminal(o.next) && (o.reward == 0 || o.reward == -1)
  }

  /** The steps of one whole episode. */
  ghost predicate Finishes(trace: seq<Outcome>) {
    |trace| > 0
    && (forall i :: 0 <= i < |trace| - 1 ==> Continues(trace[i]))
    && Ends(trace[|trace| - 1])
  }

  lemma FinishesCons(o: Outcome, trace: seq<Outcome>)
    requires Continues(o) && Finishes(trace)
    ensures Finishes([o] + trace)
  {
    var t := [o] + trace;
    forall i | 0 <= i < |t| - 1 ensures Continues(t[i]) {
      if i > 0 {
        assert t[i] == trace[i - 1];
      }
    }
  }

  /** Every finished episode returns between -10 and 10: all steps but the
      last earn 0 or -1, and the last earns 10 or -10. */
  lemma {:induction false} FinishedReturnBounds(trace: seq<Outcome>)
    requires Finishes(trace)
    ensures -10.0 <= ReturnFrom(trace) <= 10.0
  {
    if |trace| > 1 {
      var rest := trace[1..];
      assert Continues(trace[0]);
      forall i | 0 <= i < |rest| - 1 ensures Continues(rest[i]) {
        assert rest[i] == trace[i + 1];
      }
      assert rest[|rest| - 1] == trace[|trace| - 1];
      FinishedReturnBounds(rest);
    }
  }

  /** The same bound for the loop's running sum. */
  lemma EpisodeReturnBounds(trace: seq<Outcome>)
    requires Finishes(trace)
    ensures -10.0 <= EpisodeReturn(trace) <= 10.0
  {
    EpisodeReturnIsReturn(trace);
    FinishedReturnBounds(trace);
  }

  /** From a valid cell that is not the goal, one `makeAction` step either
      ends the episode or continues it. */
  lemma MakeActionStep(s: Cell, action: string)
    requires IsValidState(s) && s != Goal && s != Water
    ensures var o := MakeAction(s, action); (o.next == Goal || o.next == Water) ==> Ends(o)
    ensures var o := MakeAction(s, action); o.next != Goal && o.next != Water ==> Continues(o)
  {
  }

  /** From a valid cell that is not the goal, one `takeAction` step either
      ends the episode or continues it. */
  lemma TakeActionStep(s: Cell, d: Direction)
    requires IsValidState(s) && s != Goal && s != Water
    ensures var o := TakeAction(s, Go(d)); (o.next == Goal || o.next == Water) ==> Ends(o)
    ensures var o := TakeAction(s, Go(d)); o.next != Goal && o.next != Water ==> Continues(o)
  {
    TakeActionSpec(s, Go(d));
    TakeActionStaysValid(s, Go(d));
  }

  // ---- uniformly random episodes ----

  /** How a random episode ends: the steps taken and the draws left over, or
      the draws ran out first. */
  datatype Walk = Walked(trace: seq<Outcome>, rest: seq<string>) | DrawsRanOut

  /** The `while currState != GOAL_STATE` loop of `uniformRandomSelection`
      from cell `s`, after the steps `trace`, taking one drawn action name per
      step. */
  function RandomEpisodeFrom(s: Cell, draws: seq<string>, trace: seq<Outcome>): Walk
    decreases |draws|
  {
    if s == Goal then Walked(trace, draws)
    else if draws == [] then DrawsRanOut
    else
      var o := MakeAction(s, draws[0]);
      if o.next == Water then Walked(trace + [o], draws[1..])
      else RandomEpisodeFrom(o.next, draws[1..], trace + [o])
  }

  /** One random episode from START_STATE. */
  function RandomEpisode(draws: seq<string>): Walk {
    RandomEpisodeFrom(Start, draws, [])
  }

  /** A random episode from a valid non-terminal cell that does not run out
      of draws keeps the earlier steps, adds a whole episode, and uses one draw
      per step, from the front of the list. */
  lemma {:induction false} RandomEpisodeFinishes(s: Cell, draws: seq<string>, trace: seq<Outcome>)
    requires IsValidState(s) && !IsTerminal(s)
    requires RandomEpisodeFrom(s, draws, trace).Walked?
    ensures var w := RandomEpisodeFrom(s, draws, trace);
      |trace| < |w.trace| && w.trace[..|trace|] == trace && Finishes(w.trace[|trace|..])
      && |w.trace| - |trace| <= |draws| && w.rest == draws[|w.trace| - |trace|..]
    decreases |draws|
  {
    var o := MakeAction(s, draws[0]);
    var w := RandomEpisodeFrom(s, draws, trace);
    MakeActionStep(s, draws[0]);
    if o.next == Water || o.next == Goal {
      assert w == Walked(trace + [o], draws[1..]);
      assert w.trace[|trace|..] == [o];
    } else {
      RandomEpisodeFinishes(o.next, draws[1..], trace + [o]);
      var n := |trace|;
      assert w.trace[..n + 1] == trace + [o];
      assert w.trace[..n] == w.trace[..n + 1][..n];
      FinishesCons(o, w.trace[n + 1..]);
      assert w.trace[n..] == [o] + w.trace[n + 1..];
    }
  }

  /** More draws at the end of the list do not change an episode that
      finished without them; they are left over. */
  lemma {:induction false} RandomEpisodeExtends(s: Cell, draws: seq<string>, trace: seq<Outcome>, more: seq<string>)
    requires RandomEpisodeFrom(s, draws, trace).Walked?
    ensures RandomEpisodeFrom(s, draws + more, trace)
         == Walked(RandomEpisodeFrom(s, draws, trace).trace, RandomEpisodeFrom(s, draws, trace).rest + more)
    decreases |draws|
  {
    if s != Goal {
      assert (draws + more)[0] == draws[0] && (draws + more)[1..] == draws[1..] + more;
      var o := MakeAction(s, draws[0]);
      if o.next != Water {
        RandomEpisodeExtends(o.next, draws[1..], trace + [o], more);
      }
    }
  }

  /** The returns of `k` more random episodes, each from START_STATE and
      each taking its draws where the previous one stopped, appended to
      `returns`; nothing when the draws run out. */
  function RandomReturnsFrom(k: nat, draws: seq<string>, earlier: seq<real>): Option<seq<real>>
    decreases k
  {
    if k == 0 then Some(earlier)
    else
      match RandomEpisode(draws)
      case DrawsRanOut => None
      case Walked(trace, rest) => RandomReturnsFrom(k - 1, rest, earlier + [EpisodeReturn(trace)])
  }

  /** The `discountedReturns` list of `k` random episodes. */
  function RandomReturns(k: nat, draws: seq<string>): Option<seq<real>> {
    RandomReturnsFrom(k, draws, [])
  }

  /** `k` episodes add exactly `k` returns, each between -10 and 10. */
  lemma {:induction false} RandomReturnsShape(k: nat, draws: seq<string>, earlier: seq<real>)
    requires RandomReturnsFrom(k, draws, earlier).Some?
    ensures var rs := RandomReturnsFrom(k, draws, earlier).value;
      |rs| == |earlier| + k && rs[..|earlier|] == earlier
      && forall i :: |earlier| <= i < |rs| ==> -10.0 <= rs[i] <= 10.0
    decreases k
  {
    if k > 0 {
      var w := RandomEpisode(draws);
      ConfigurationWellFormed();
      RandomEpisodeFinishes(Start, draws, []);
      assert w.trace[0..] == w.trace;
      EpisodeReturnBounds(w.trace);
      var earlier' := earlier + [EpisodeReturn(w.trace)];
      RandomReturnsShape(k - 1, w.rest, earlier');
      var rs := RandomReturnsFrom(k, draws, earlier).value;
      assert rs[..|earlier|] == rs[..|earlier'|][..|earlier|];
      assert rs[|earlier|] == rs[..|earlier'|][|earlier|];
    }
  }

  /** `k` random episodes give `k` returns between -10 and 10. */
  lemma RandomReturnsBounds(k: nat, draws: seq<string>)
    requires RandomReturns(k, draws).Some?
    ensures |RandomReturns(k, draws).value| == k
    ensures forall i :: 0 <= i < k ==> -10.0 <= RandomReturns(k, draws).value[i] <= 10.0
  {
    RandomReturnsShape(k, draws, []);
  }

  /** One pass of the inner loop: the drawn name is played with
      `makeAction`, and the episode either stops in the water or goes on from
      the next cell with one draw fewer. */
  lemma RandomEpisodeStep(s: Cell, draws: seq<string>, pos: nat, trace: seq<Outcome>)
    requires pos < |draws| && s != Goal
    ensures var o := MakeAction(s, draws[pos]);
      RandomEpisodeFrom(s, draws[pos..], trace)
      == if o.next == Water then Walked(trace + [o], draws[pos + 1..])
         else RandomEpisodeFrom(o.next, draws[pos + 1..], trace + [o])
  {
    assert draws[pos..][0] == draws[pos] && draws[pos..][1..] == draws[pos + 1..];
  }

  /** `uniformRandomSelection` (k = MAX_EPISODES = 10000) and
      `visualUniformRandomSelection` (k = 10) with the drawn action names
      given as `draws`: the list of `k` discounted returns, or nothing when
      the draws run out before the last episode ends. */
  method RunRandomEpisodes(k: nat, draws: seq<string>) returns (result: Option<seq<real>>)
    ensures result == RandomReturns(k, draws)
  {
    var discountedReturns: seq<real> := [];
    var pos := 0;
    for episode := 0 to k
      invariant pos <= |draws|
      invariant RandomReturnsFrom(k - episode, draws[pos..], discountedReturns) == RandomReturns(k, draws)
    {
      var currState := Start;
      var discountedReturn := 0.0;
      var timestep := 0;
      ghost var trace: seq<Outcome> := [];
      ghost var first := pos;
      while currState != Goal
        invariant first <= pos <= |draws|
        invariant timestep == |trace| && discountedReturn == EpisodeReturn(trace)
        invariant RandomEpisodeFrom(currState, draws[pos..], trace) == RandomEpisode(draws[first..])
        decreases |draws| - pos
      {
        if pos == |draws| {
          return None;
        }
        var action := draws[pos];
        var o := MakeAction(currState, action);
        RandomEpisodeStep(currState, draws, pos, trace);
        EpisodeReturnAppend(trace, o);
        discountedReturn := discountedReturn + Gain(o, timestep);
        trace := trace + [o];
        timestep := timestep + 1;
        pos := pos + 1;
        currState := o.next;
        if currState == Water {
          break;
        }
      }
      assert RandomEpisode(draws[first..]) == Walked(trace, draws[pos..]);
      discountedReturns := discountedReturns + [discountedReturn];
    }
    result := Some(discountedReturns);
  }

  // ---- the greedy policy's episodes ----

  /** How an episode under a policy ends: the steps taken, a cell the policy
      has no entry for (where the script raises KeyError), or the step budget
      ran out (where the script loops for ever). */
  datatype Play = Played(trace: seq<Outcome>) | NoPolicyEntry(at: Cell) | FuelRanOut

  /** The `while currState != GOAL_STATE` loop of `runOptimalPolicy` from cell
      `s`, after the steps `trace`, with at most `fuel` more steps. */
  function PolicyEpisodeFrom(policy: map<Cell, Direction>, s: Cell, fuel: nat, trace: seq<Outcome>): Play
    decreases fuel
  {
    if s == Goal then Played(trace)
    else if fuel == 0 then FuelRanOut
    else if s !in policy then NoPolicyEntry(s)
    else
      var o := TakeAction(s, Go(policy[s]));
      if o.next == Water then Played(trace + [o])
      else PolicyEpisodeFrom(policy, o.next, fuel - 1, trace + [o])
  }

  /** One episode under the policy from START_STATE. */
  function PolicyEpisode(policy: map<Cell, Direction>, fuel: nat): Play {
    PolicyEpisodeFrom(policy, Start, fuel, [])
  }

  /** A policy episode from a valid non-terminal cell that plays out keeps
      the earlier steps, adds a whole episode, and takes at most `fuel`
      steps. */
  lemma {:induction false} PolicyEpisodeFinishes(policy: map<Cell, Direction>, s: Cell, fuel: nat, trace: seq<Outcome>)
    requires IsValidState(s) && !IsTerminal(s)
    requires PolicyEpisodeFrom(policy, s, fuel, trace).Played?
    ensures var t := PolicyEpisodeFrom(policy, s, fuel, trace).trace;
      |trace| < |t| <= |trace| + fuel && t[..|trace|] == trace && Finishes(t[|trace|..])
    decreases fuel
  {
    var o := TakeAction(s, Go(policy[s]));
    var t := PolicyEpisodeFrom(policy, s, fuel, trace).trace;
    TakeActionStep(s, policy[s]);
    if o.next == Water || o.next == Goal {
      assert t == trace + [o];
      assert t[|trace|..] == [o];
    } else {
      PolicyEpisodeFinishes(policy, o.next, fuel - 1, trace + [o]);
      var n := |trace|;
      assert t[..n + 1] == trace + [o];
      assert t[..n] == t[..n + 1][..n];
      FinishesCons(o, t[n + 1..]);
      assert t[n..] == [o] + t[n + 1..];
    }
  }

  /** The step budget only caps the loop: an episode that plays out within
      `fuel` steps plays out the same with any larger budget. */
  lemma {:induction false} PolicyEpisodeFuelOnlyCaps(policy: map<Cell, Direction>, s: Cell, fuel: nat, trace: seq<Outcome>, more: nat)
    requires PolicyEpisodeFrom(policy, s, fuel, trace).Played?
    ensures PolicyEpisodeFrom(policy, s, fuel + more, trace) == PolicyEpisodeFrom(policy, s, fuel, trace)
    decreases fuel
  {
    if s != Goal {
      var o := TakeAction(s, Go(policy[s]));
      if o.next != Water {
        PolicyEpisodeFuelOnlyCaps(policy, o.next, fuel - 1, trace + [o], more);
      }
    }
  }

  /** A policy with an entry for every valid non-terminal cell never makes
      the episode look up a missing cell: the agent only ever stands on valid
      cells. */
  lemma {:induction false} PolicyEpisodeNeverMissing(policy: map<Cell, Direction>, s: Cell, fuel: nat, trace: seq<Outcome>)
    requires forall c :: IsValidState(c) && !IsTerminal(c) ==> c in policy
    requires IsValidState(s) && s != Water
    ensures !PolicyEpisodeFrom(policy, s, fuel, trace).NoPolicyEntry?
    decreases fuel
  {
    if s != Goal && fuel > 0 {
      var o := TakeAction(s, Go(policy[s]));
      TakeActionStaysValid(s, Go(policy[s]));
      if o.next != Water {
        PolicyEpisodeNeverMissing(policy, o.next, fuel - 1, trace + [o]);
      }
    }
  }

  /** The list of `n` copies of `x`. */
  function Repeat(x: real, n: nat): (xs: seq<real>)
    ensures |xs| == n && forall i :: 0 <= i < n ==> xs[i] == x
  {
    if n == 0 then [] else Repeat(x, n - 1) + [x]
  }

  /** What `runOptimalPolicy` ends with: its `discountedReturns` list, the
      cell where `policy[currState]` raises KeyError, or an episode that does
      not reach the goal or the water within the step budget (where the
      script loops for ever). */
  datatype PolicyRun = Returns(values: seq<real>) | MissingEntry(at: Cell) | OutOfSteps

  /** `runOptimalPolicy` with `k` episodes: the episode is deterministic, so
      either all `k` returns are the same or the first episode already fails,
      and it fails the way that episode does. */
  function PolicyReturns(policy: map<Cell, Direction>, fuel: nat, k: nat): (r: PolicyRun)
  {
    if k == 0 then Returns([])
    else
      match PolicyEpisode(policy, fuel)
      case Played(trace) => Returns(Repeat(EpisodeReturn(trace), k))
      case NoPolicyEntry(c) => MissingEntry(c)
      case FuelRanOut => OutOfSteps
  }

  /** `k` policy episodes give `k` equal returns between -10 and 10. */
  lemma PolicyReturnsBounds(policy: map<Cell, Direction>, fuel: nat, k: nat)
    requires PolicyReturns(policy, fuel, k).Returns?
    ensures |PolicyReturns(policy, fuel, k).values| == k
    ensures forall i :: 0 <= i < k ==> -10.0 <= PolicyReturns(policy, fuel, k).values[i] <= 10.0
    ensures forall i, j :: 0 <= i < j < k ==> PolicyReturns(policy, fuel, k).values[i] == PolicyReturns(policy, fuel, k).values[j]
  {
    if k > 0 {
      var t := PolicyEpisode(policy, fuel).trace;
      ConfigurationWellFormed();
      PolicyEpisodeFinishes(policy, Start, fuel, []);
      assert t[0..] == t;
      EpisodeReturnBounds(t);
    }
  }

  /** One pass of the inner loop of `runOptimalPolicy`: the policy's action
      is played with `takeAction`, and the episode either stops in the water
      or goes on from the next cell with one step less of budget. */
  lemma PolicyEpisodeStep(policy: map<Cell, Direction>, s: Cell, fuel: nat, trace: seq<Outcome>)
    requires s != Goal && fuel > 0 && s in policy
    ensures var o := TakeAction(s, Go(policy[s]));
      PolicyEpisodeFrom(policy, s, fuel, trace)
      == if o.next == Water then Played(trace + [o])
         else PolicyEpisodeFrom(policy, o.next, fuel - 1, trace + [o])
  {
  }

  /** `runOptimalPolicy` with `k` episodes of at most `fuel` steps each: the
      list of `k` discounted returns, or the cell where an episode looks up a
      missing policy entry, or the report that an episode did not end within
      `fuel` steps. */
  method RunOptimalPolicy(policy: map<Cell, Direction>, k: nat, fuel: nat) returns (result: PolicyRun)
    ensures result == PolicyReturns(policy, fuel, k)
  {
    var discountedReturns: seq<real> := [];
    for episode := 0 to k
      invariant episode == 0 ==> discountedReturns == []
      invariant episode > 0 ==> (PolicyEpisode(policy, fuel).Played?
                                 && discountedReturns == Repeat(EpisodeReturn(PolicyEpisode(policy, fuel).trace), episode))
    {
      var currState := Start;
      var discountedReturn := 0.0;
      var timestep := 0;
      ghost var trace: seq<Outcome> := [];
      while currState != Goal
        invariant timestep <= fuel
        invariant timestep == |trace| && discountedReturn == EpisodeReturn(trace)
        invariant PolicyEpisodeFrom(policy, currState, fuel - timestep, trace) == PolicyEpisode(policy, fuel)
        decreases fuel - timestep
      {
        if timestep == fuel {
          return OutOfSteps;
        }
        if currState !in policy {
          return MissingEntry(currState);
        }
        var action := policy[currState];
        var o := TakeAction(currState, Go(action));
        PolicyEpisodeStep(policy, currState, fuel - timestep, trace);
        EpisodeReturnAppend(trace, o);
        discountedReturn := discountedReturn + Gain(o, timestep);
        trace := trace + [o];
        timestep := timestep + 1;
        currState := o.next;
        if currState == Water {
          break;
        }
      }
      assert PolicyEpisode(policy, fuel) == Played(trace);
      discountedReturns := discountedReturns + [discountedReturn];
    }
    result := Returns(discountedReturns);
  }

  /** The policy of value iteration after at least one pygame sweep has an
      entry for every cell an episode can stand on, so `runOptimalPolicy`
      never raises KeyError with it. */
  lemma GreedyPolicyNeverMissing(n: nat, fuel: nat)
    requires n > 0
    ensures !PolicyEpisode(PolicyAfter(n), fuel).NoPolicyEntry?
  {
    forall c | IsValidState(c) && !IsTerminal(c) ensures c in PolicyAfter(n) {
      PolicyMatchesTable(n, c);
    }
    ConfigurationWellFormed();
    PolicyEpisodeNeverMissing(PolicyAfter(n), Start, fuel, []);
  }
}
