/** The one-step Bellman backup `calculateValue` of the value iteration
    scripts, the four-decimal rounding of Python's `round(x, 4)`, and the
    `max` / `np.argmax` choices a sweep makes over the four action values. */
module Bellman {
  import opened Grid
  import opened Moves

  const DiscountFactor: real := 0.9
  const IntendedProb: real := 0.8
  const VeerLeftProb: real := 0.05
  const VeerRightProb: real := 0.05
  const StayProb: real := 0.10

  /** A value table V: cell to value. */
  type ValueTable = map<Cell, real>

  /** The table has an entry for every cell of the grid, as every table the
      scripts build does. */
  ghost predicate Covers(V: ValueTable) {
    forall c :: InBounds(c) ==> c in V
  }

  function Abs(x: real): real {
    if x < 0.0 then -x else x
  }

  function Max(x: real, y: real): real {
    if x < y then y else x
  }

  /** One of the terms `calculateValue` adds to its reward: the probability
      of a move and the cell the move lands on. */
  datatype Branch = Branch(prob: real, next: Cell)

  /** The intended move, the veer to the left, the veer to the right and the
      stay move 'N', in the order `calculateValue` adds them, with their
      probabilities. */
  function Chances(a: Direction): (cs: seq<(real, Move)>)
    ensures |cs| == 4
  {
    [(IntendedProb, Go(a)), (VeerLeftProb, Go(GoLeft(a))), (VeerRightProb, Go(GoRight(a))), (StayProb, Stay)]
  }

  /** Each move of the list taken from `s` with `takeAction`, keeping its
      probability. */
  function Landings(s: Cell, chances: seq<(real, Move)>): (bs: seq<Branch>)
    ensures |bs| == |chances|
  {
    if chances == [] then []
    else
      var n := |chances| - 1;
      Landings(s, chances[..n]) + [Branch(chances[n].0, TakeAction(s, chances[n].1).next)]
  }

  /** The i-th landing is where the i-th move goes. */
  lemma {:induction false} LandingsAt(s: Cell, chances: seq<(real, Move)>, i: nat)
    requires i < |chances|
    ensures Landings(s, chances)[i] == Branch(chances[i].0, TakeAction(s, chances[i].1).next)
  {
    var n := |chances| - 1;
    if i < n {
      LandingsAt(s, chances[..n], i);
    }
  }

  /** The weighted landing cells of `calculateValue`'s four moves. */
  function Branches(s: Cell, a: Direction): seq<Branch> {
    Landings(s, Chances(a))
  }

  /** Every branch lands inside the grid. */
  ghost predicate Lands(branches: seq<Branch>) {
    forall i :: 0 <= i < |branches| ==> InBounds(branches[i].next)
  }

  /** From a cell in the grid every move lands in the grid. */
  lemma BranchesLand(s: Cell, a: Direction)
    requires InBounds(s)
    ensures Lands(Branches(s, a))
  {
    var cs, bs := Chances(a), Branches(s, a);
    forall i | 0 <= i < |bs| ensures InBounds(bs[i].next) {
      LandingsAt(s, cs, i);
      TakeActionSpec(s, cs[i].1);
    }
  }

  /** The running sum of `v += p * (DISCOUNT_FACTOR * V[next])`, one term per
      branch, in order. */
  function Discounted(V: ValueTable, branches: seq<Branch>): real
    requires Covers(V) && Lands(branches)
  {
    if branches == [] then 0.0
    else
      var n := |branches| - 1;
      var b := branches[n];
      Discounted(V, branches[..n]) + b.prob * (DiscountFactor * V[b.next])
  }

  /** `calculateValue`: the reward plus the discounted, weighted values of the
      four landing cells. The source binds `reward` from each of its four
      `takeAction` calls in turn, so the reward it starts from is the last
      one's, the stay move's. */
  function CalculateValue(V: ValueTable, s: Cell, a: Direction): real
    requires InBounds(s) && Covers(V)
  {
    var stayReward := TakeAction(s, Stay).reward;
    BranchesLand(s, a);
    stayReward as real + Discounted(V, Branches(s, a))
  }

  /** The four branches of `calculateValue`, listed. */
  lemma BranchesListed(s: Cell, a: Direction)
    ensures Branches(s, a) == [Branch(IntendedProb, TakeAction(s, Go(a)).next),
                               Branch(VeerLeftProb, TakeAction(s, Go(GoLeft(a))).next),
                               Branch(VeerRightProb, TakeAction(s, Go(GoRight(a))).next),
                               Branch(StayProb, TakeAction(s, Stay).next)]
  {
    var cs := Chances(a);
    LandingsAt(s, cs, 0);
    LandingsAt(s, cs, 1);
    LandingsAt(s, cs, 2);
    LandingsAt(s, cs, 3);
  }

  /** The running sum over four branches with `calculateValue`'s
      probabilities, multiplied out. */
  lemma DiscountedOfFour(V: ValueTable, i: Cell, l: Cell, r: Cell, s: Cell)
    requires Covers(V) && InBounds(i) && InBounds(l) && InBounds(r) && InBounds(s)
    ensures Lands([Branch(IntendedProb, i), Branch(VeerLeftProb, l), Branch(VeerRightProb, r), Branch(StayProb, s)])
    ensures Discounted(V, [Branch(IntendedProb, i), Branch(VeerLeftProb, l), Branch(VeerRightProb, r), Branch(StayProb, s)])
      == 0.72 * V[i] + 0.045 * V[l] + 0.045 * V[r] + 0.09 * V[s]
  {
    var p1 := [Branch(IntendedProb, i)];
    var p2 := p1 + [Branch(VeerLeftProb, l)];
    var p3 := p2 + [Branch(VeerRightProb, r)];
    var p4 := p3 + [Branch(StayProb, s)];
    assert p4[..3] == p3 && p3[..2] == p2 && p2[..1] == p1 && p1[..0] == [];
    assert Discounted(V, p1) == 0.8 * (0.9 * V[i]) == 0.72 * V[i];
    assert Discounted(V, p2) == Discounted(V, p1) + 0.05 * (0.9 * V[l]);
    assert Discounted(V, p3) == Discounted(V, p2) + 0.05 * (0.9 * V[r]);
    assert Discounted(V, p4) == Discounted(V, p3) + 0.10 * (0.9 * V[s]);
    assert p4 == [Branch(IntendedProb, i), Branch(VeerLeftProb, l), Branch(VeerRightProb, r), Branch(StayProb, s)];
  }

  /** The action value written out: the stay move's reward plus 0.72, 0.045,
      0.045 and 0.09 times the values of the cells the intended move, the two
      veers and the stay move land on. */
  lemma CalculateValueExpanded(V: ValueTable, s: Cell, a: Direction)
    requires InBounds(s) && Covers(V)
    ensures InBounds(TakeAction(s, Go(a)).next) && InBounds(TakeAction(s, Go(GoLeft(a))).next)
    ensures InBounds(TakeAction(s, Go(GoRight(a))).next)
    ensures CalculateValue(V, s, a) == StayReward(s) as real
      + 0.72 * V[TakeAction(s, Go(a)).next]
      + 0.045 * V[TakeAction(s, Go(GoLeft(a))).next]
      + 0.045 * V[TakeAction(s, Go(GoRight(a))).next]
      + 0.09 * V[s]
  {
    BranchesListed(s, a);
    StayOutcome(s);
    TakeActionSpec(s, Go(a));
    TakeActionSpec(s, Go(GoLeft(a)));
    TakeActionSpec(s, Go(GoRight(a)));
    DiscountedOfFour(V, TakeAction(s, Go(a)).next, TakeAction(s, Go(GoLeft(a))).next, TakeAction(s, Go(GoRight(a))).next, s);
  }

  /** The weights sum to one and the immediate term is the stay move's
      reward: against a table that is `k` everywhere, every action is worth
      that reward plus 0.9 k. */
  lemma CalculateValueOfConstantTable(V: ValueTable, s: Cell, a: Direction, k: real)
    requires InBounds(s) && Covers(V)
    requires forall c :: InBounds(c) ==> V[c] == k
    ensures CalculateValue(V, s, a) == StayReward(s) as real + DiscountFactor * k
  {
    CalculateValueExpanded(V, s, a);
  }

  /** Bounds on the table bound the action value. */
  lemma CalculateValueBounds(V: ValueTable, s: Cell, a: Direction, lo: real, hi: real)
    requires InBounds(s) && Covers(V)
    requires forall c :: InBounds(c) ==> lo <= V[c] <= hi
    ensures StayReward(s) as real + DiscountFactor * lo <= CalculateValue(V, s, a)
    ensures CalculateValue(V, s, a) <= StayReward(s) as real + DiscountFactor * hi
  {
    CalculateValueExpanded(V, s, a);
  }

  /** The weighted sum of the expansion, over any four cells, moves by at
      most 0.9 eps between tables that are within `eps` of each other. */
  lemma WeightedGap(V: ValueTable, W: ValueTable, t: real, i: Cell, l: Cell, r: Cell, s: Cell, eps: real)
    requires Covers(V) && Covers(W) && InBounds(i) && InBounds(l) && InBounds(r) && InBounds(s)
    requires forall c :: InBounds(c) ==> Abs(V[c] - W[c]) <= eps
    ensures Abs((t + 0.72 * V[i] + 0.045 * V[l] + 0.045 * V[r] + 0.09 * V[s])
              - (t + 0.72 * W[i] + 0.045 * W[l] + 0.045 * W[r] + 0.09 * W[s])) <= DiscountFactor * eps
  {
    assert -eps <= V[i] - W[i] <= eps by { assert Abs(V[i] - W[i]) <= eps; }
    assert -eps <= V[l] - W[l] <= eps by { assert Abs(V[l] - W[l]) <= eps; }
    assert -eps <= V[r] - W[r] <= eps by { assert Abs(V[r] - W[r]) <= eps; }
    assert -eps <= V[s] - W[s] <= eps by { assert Abs(V[s] - W[s]) <= eps; }
  }

  /** The action value is a 0.9-contraction: tables that differ by at most
      `eps` everywhere give action values that differ by at most 0.9 eps. */
  lemma CalculateValueContraction(V: ValueTable, W: ValueTable, s: Cell, a: Direction, eps: real)
    requires InBounds(s) && Covers(V) && Covers(W)
    requires forall c :: InBounds(c) ==> Abs(V[c] - W[c]) <= eps
    ensures Abs(CalculateValue(V, s, a) - CalculateValue(W, s, a)) <= DiscountFactor * eps
  {
    CalculateValueExpanded(V, s, a);
    CalculateValueExpanded(W, s, a);
    WeightedGap(V, W, StayReward(s) as real, TakeAction(s, Go(a)).next, TakeAction(s, Go(GoLeft(a))).next,
      TakeAction(s, Go(GoRight(a))).next, s, eps);
  }

  /** From a cell that is neither off the grid nor an obstacle, the action
      value never reads an obstacle's entry: tables that agree on the valid
      cells give the same action values. */
  lemma CalculateValueIgnoresObstacles(V: ValueTable, W: ValueTable, s: Cell, a: Direction)
    requires IsValidState(s) && Covers(V) && Covers(W)
    requires forall c :: IsValidState(c) ==> V[c] == W[c]
    ensures CalculateValue(V, s, a) == CalculateValue(W, s, a)
  {
    CalculateValueExpanded(V, s, a);
    CalculateValueExpanded(W, s, a);
    TakeActionStaysValid(s, Go(a));
    TakeActionStaysValid(s, Go(GoLeft(a)));
    TakeActionStaysValid(s, Go(GoRight(a)));
  }

  /** `[calculateValue(V, state, action) for action in actions]`, built one
      action at a time. */
  function ValuesOf(V: ValueTable, s: Cell, actions: seq<Direction>): (q: seq<real>)
    requires InBounds(s) && Covers(V)
    ensures |q| == |actions|
  {
    if actions == [] then []
    else
      var n := |actions| - 1;
      ValuesOf(V, s, actions[..n]) + [CalculateValue(V, s, actions[n])]
  }

  /** The i-th entry of the list is the i-th action's value. */
  lemma {:induction false} ValuesOfAt(V: ValueTable, s: Cell, actions: seq<Direction>, i: nat)
    requires InBounds(s) && Covers(V) && i < |actions|
    ensures ValuesOf(V, s, actions)[i] == CalculateValue(V, s, actions[i])
  {
    var n := |actions| - 1;
    if i < n {
      ValuesOfAt(V, s, actions[..n], i);
    }
  }

  /** `actionValues`: the values of U, D, L and R, in that order. */
  function ActionValues(V: ValueTable, s: Cell): (q: seq<real>)
    requires InBounds(s) && Covers(V)
    ensures |q| == |Actions|
  {
    ValuesOf(V, s, Actions)
  }

  /** Each entry of `actionValues` is its action's value. */
  lemma ActionValuesAt(V: ValueTable, s: Cell, i: nat)
    requires InBounds(s) && Covers(V) && i < |Actions|
    ensures ActionValues(V, s)[i] == CalculateValue(V, s, Actions[i])
  {
    ValuesOfAt(V, s, Actions, i);
  }

  /** Python's `max` over a non-empty list, scanning left to right. */
  function MaxOf(xs: seq<real>): real
    requires |xs| > 0
  {
    if |xs| == 1 then xs[0]
    else
      var m := MaxOf(xs[..|xs| - 1]);
      if xs[|xs| - 1] > m then xs[|xs| - 1] else m
  }

  /** `max` returns an element of the list that no other element exceeds. */
  lemma {:induction false} MaxOfIsMax(xs: seq<real>)
    requires |xs| > 0
    ensures MaxOf(xs) in xs
    ensures forall j :: 0 <= j < |xs| ==> xs[j] <= MaxOf(xs)
  {
    if |xs| > 1 {
      var n := |xs| - 1;
      MaxOfIsMax(xs[..n]);
      assert forall j :: 0 <= j < n ==> xs[..n][j] == xs[j];
    }
  }

  /** `np.argmax`, scanning left to right and moving only on a strictly
      larger element. */
  function Argmax(xs: seq<real>): (k: nat)
    requires |xs| > 0
    ensures k < |xs|
  {
    if |xs| == 1 then 0
    else
      var k := Argmax(xs[..|xs| - 1]);
      if xs[|xs| - 1] > xs[k] then |xs| - 1 else k
  }

  /** `np.argmax` is the first index holding the largest element. */
  lemma {:induction false} ArgmaxIsFirstMax(xs: seq<real>)
    requires |xs| > 0
    ensures forall j :: 0 <= j < |xs| ==> xs[j] <= xs[Argmax(xs)]
    ensures forall j :: 0 <= j < Argmax(xs) ==> xs[j] < xs[Argmax(xs)]
  {
    if |xs| > 1 {
      var n := |xs| - 1;
      ArgmaxIsFirstMax(xs[..n]);
      assert forall j :: 0 <= j < n ==> xs[..n][j] == xs[j];
    }
  }

  /** `max` and `np.argmax` pick the same value. */
  lemma {:induction false} ArgmaxHoldsMax(xs: seq<real>)
    requires |xs| > 0
    ensures xs[Argmax(xs)] == MaxOf(xs)
  {
    if |xs| > 1 {
      ArgmaxHoldsMax(xs[..|xs| - 1]);
    }
  }

  /** Taking the maximum does not widen the gap between two lists that are
      pointwise within `eps` of each other. */
  lemma {:induction false} MaxOfContraction(xs: seq<real>, ys: seq<real>, eps: real)
    requires |xs| == |ys| > 0
    requires forall i :: 0 <= i < |xs| ==> Abs(xs[i] - ys[i]) <= eps
    ensures Abs(MaxOf(xs) - MaxOf(ys)) <= eps
  {
    if |xs| > 1 {
      var n := |xs| - 1;
      MaxOfContraction(xs[..n], ys[..n], eps);
      assert Abs(xs[n] - ys[n]) <= eps;
    }
  }

  /** Bounds on the table bound every action value, hence their maximum. */
  lemma ActionValuesBounds(V: ValueTable, s: Cell, lo: real, hi: real)
    requires InBounds(s) && Covers(V)
    requires forall c :: InBounds(c) ==> lo <= V[c] <= hi
    ensures StayReward(s) as real + DiscountFactor * lo <= MaxOf(ActionValues(V, s))
    ensures MaxOf(ActionValues(V, s)) <= StayReward(s) as real + DiscountFactor * hi
  {
    var q := ActionValues(V, s);
    MaxOfIsMax(q);
    var k :| 0 <= k < |q| && q[k] == MaxOf(q);
    ActionValuesAt(V, s, k);
    CalculateValueBounds(V, s, Actions[k], lo, hi);
    ActionValuesAt(V, s, 0);
    CalculateValueBounds(V, s, Actions[0], lo, hi);
  }

  /** One entry of the list moves by at most 0.9 eps. */
  lemma ActionValueGap(V: ValueTable, W: ValueTable, s: Cell, i: nat, eps: real)
    requires InBounds(s) && Covers(V) && Covers(W) && i < |Actions|
    requires forall c :: InBounds(c) ==> Abs(V[c] - W[c]) <= eps
    ensures Abs(ActionValues(V, s)[i] - ActionValues(W, s)[i]) <= DiscountFactor * eps
  {
    ActionValuesAt(V, s, i);
    ActionValuesAt(W, s, i);
    CalculateValueContraction(V, W, s, Actions[i], eps);
  }

  /** Tables within `eps` of each other give action values, and so maxima,
      within 0.9 eps. */
  lemma ActionValuesContraction(V: ValueTable, W: ValueTable, s: Cell, eps: real)
    requires InBounds(s) && Covers(V) && Covers(W)
    requires forall c :: InBounds(c) ==> Abs(V[c] - W[c]) <= eps
    ensures Abs(MaxOf(ActionValues(V, s)) - MaxOf(ActionValues(W, s))) <= DiscountFactor * eps
  {
    var q, r := ActionValues(V, s), ActionValues(W, s);
    forall i | 0 <= i < |q| ensures Abs(q[i] - r[i]) <= DiscountFactor * eps {
      ActionValueGap(V, W, s, i, eps);
    }
    MaxOfContraction(q, r, DiscountFactor * eps);
  }

  /** From a valid cell, tables that agree on the valid cells give the same
      list of action values. */
  lemma ActionValuesIgnoreObstacles(V: ValueTable, W: ValueTable, s: Cell)
    requires IsValidState(s) && Covers(V) && Covers(W)
    requires forall c :: IsValidState(c) ==> V[c] == W[c]
    ensures ActionValues(V, s) == ActionValues(W, s)
  {
    var q, r := ActionValues(V, s), ActionValues(W, s);
    forall i | 0 <= i < |q| ensures q[i] == r[i] {
      ActionValuesAt(V, s, i);
      ActionValuesAt(W, s, i);
      CalculateValueIgnoresObstacles(V, W, s, Actions[i]);
    }
  }

  /** Python's `round(x, 4)`: the nearest multiple of 0.0001, ties to the even
      multiple. */
  function Round4(x: real): real
  {
    var y := x * 10000.0;
    var f := y.Floor;
    var frac := y - f as real;
    var n := if frac < 0.5 then f
             else if frac > 0.5 then f + 1
             else if f % 2 == 0 then f else f + 1;
    n as real / 10000.0
  }

  /** The rounded value is within half a unit of the fourth decimal. */
  lemma Round4Close(x: real)
    ensures Abs(Round4(x) - x) <= 0.00005
  {
    var y := x * 10000.0;
    var f := y.Floor;
    assert f as real <= y < f as real + 1.0;
  }

  /** A value that already has at most four decimals is left unchanged. */
  lemma Round4Exact(n: int)
    ensures Round4(n as real / 10000.0) == n as real / 10000.0
  {
    var y := (n as real / 10000.0) * 10000.0;
    assert y == n as real;
    assert y.Floor == n;
  }

  /** Rounding keeps the order of its inputs. */
  lemma Round4Monotone(x: real, y: real)
    requires x <= y
    ensures Round4(x) <= Round4(y)
  {
    var fx := (x * 10000.0).Floor;
    var fy := (y * 10000.0).Floor;
    assert fx <= fy;
  }
}
