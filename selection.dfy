/**
 ReflexCaptureAgent.choose_action: score every legal action, then either
 pick at random among the best ones or, when at most two enemy pellets are
 left, retreat: take the first action whose successor is nearest to the
 agent's starting position.
 */
module Selection {
  import opened Wrappers
  import opened GameView
  import opened Features
  import opened Evaluation

  /** A legal action with the successor it leads to. */
  datatype Candidate = Candidate(action: Action, succ: Successor)

  /** The distance the retreat loop starts from; only a successor strictly
      nearer than this to the start can be chosen. */
  const NoDistance: nat := 9999

  /** At or below this many enemy pellets the agent retreats. */
  const EndgameFood: nat := 2

  /** Every candidate's features can be computed. */
  predicate AllDefined(role: Role, score: int, cs: seq<Candidate>)
  {
    forall i :: 0 <= i < |cs| ==> FeaturesDefined(role, score, cs[i].succ)
  }

  /** The values list: evaluate of each candidate, in order. */
  function Values(role: Role, score: int, cs: seq<Candidate>): seq<real>
    requires AllDefined(role, score, cs)
  {
    seq(|cs|, i requires 0 <= i < |cs| => Value(role, score, cs[i].action, cs[i].succ))
  }

  /** Python's max over a non-empty list of values. */
  function MaxOf(vs: seq<real>): (m: real)
    requires |vs| > 0
    ensures m in vs
    ensures forall v :: v in vs ==> v <= m
  {
    if |vs| == 1 then vs[0]
    else
      var rest := MaxOf(vs[1..]);
      assert forall v :: v in vs ==> v == vs[0] || v in vs[1..];
      if vs[0] >= rest then vs[0] else rest
  }

  /** best_actions: the actions, in order, whose value equals m. */
  function BestActions(cs: seq<Candidate>, values: seq<real>, m: real): (best: seq<Action>)
    requires |values| == |cs|
    ensures forall a :: a in best ==>
      exists i :: 0 <= i < |cs| && cs[i].action == a && values[i] == m
    ensures forall i :: 0 <= i < |cs| && values[i] == m ==> cs[i].action in best
  {
    if cs == [] then []
    else
      var n := |cs| - 1;
      var front := BestActions(cs[..n], values[..n], m);
      if values[n] == m then front + [cs[n].action] else front
  }

  /** Candidate k is the first of cs[..n] whose successor is nearest to the
      start, and it is nearer than NoDistance. */
  predicate FirstNearest(cs: seq<Candidate>, n: nat, k: nat)
  {
    && k < n <= |cs|
    && cs[k].succ.startDist < NoDistance
    && (forall j :: 0 <= j < n ==> cs[k].succ.startDist <= cs[j].succ.startDist)
    && (forall j :: 0 <= j < k ==> cs[k].succ.startDist < cs[j].succ.startDist)
  }

  /** The retreat choice is determined: at most one candidate is the first
      nearest. */
  lemma FirstNearestUnique(cs: seq<Candidate>, n: nat, k1: nat, k2: nat)
    requires FirstNearest(cs, n, k1) && FirstNearest(cs, n, k2)
    ensures k1 == k2
  {
  }

  /** choose_action. `score` is the current score, `foodLeft` the number of
      enemy pellets in the current state, `cs` the legal actions (in the
      order the game lists them) with their successors. The result is None
      only where the source returns None: in the retreat branch, when no
      successor is nearer than 9999 to the start. */
  method ChooseAction(role: Role, score: int, foodLeft: nat, cs: seq<Candidate>)
    returns (r: Option<Action>)
    requires |cs| > 0
    requires AllDefined(role, score, cs)
    ensures foodLeft > EndgameFood ==>
      exists i :: 0 <= i < |cs| && r == Some(cs[i].action) &&
        (forall j :: 0 <= j < |cs| ==> Values(role, score, cs)[j] <= Values(role, score, cs)[i])
    ensures foodLeft <= EndgameFood ==>
      (r == None <==> forall j :: 0 <= j < |cs| ==> cs[j].succ.startDist >= NoDistance)
    ensures foodLeft <= EndgameFood && r.Some? ==>
      exists k: nat :: FirstNearest(cs, |cs|, k) && r == Some(cs[k].action)
  {
    var values := Values(role, score, cs);
    if foodLeft <= EndgameFood {
      r := Retreat(cs);
      return;
    }
    var a := RandomBest(cs, values);
    r := Some(a);
  }

  /** The ordinary branch of choose_action: max_value, best_actions, and
      random.choice among them (an unspecified choice here). */
  method RandomBest(cs: seq<Candidate>, values: seq<real>) returns (a: Action)
    requires |cs| > 0 && |values| == |cs|
    ensures
      exists i :: 0 <= i < |cs| && a == cs[i].action &&
        (forall j :: 0 <= j < |cs| ==> values[j] <= values[i])
  {
    var maxValue := MaxOf(values);
    var best := BestActions(cs, values, maxValue);
    var i0 :| 0 <= i0 < |cs| && values[i0] == maxValue;
    assert cs[i0].action in best;
    var choice :| 0 <= choice < |best|;
    a := best[choice];
    assert a in best;
    var i1 :| 0 <= i1 < |cs| && cs[i1].action == a && values[i1] == maxValue;
    forall j | 0 <= j < |cs| ensures values[j] <= values[i1] {
      assert values[j] in values;
    }
  }

  /** The retreat loop of choose_action: keep the first action whose
      successor is strictly nearer to the start than every earlier one,
      starting from 9999; None when no successor is nearer than that. */
  method Retreat(cs: seq<Candidate>) returns (r: Option<Action>)
    ensures r == None <==> forall j :: 0 <= j < |cs| ==> cs[j].succ.startDist >= NoDistance
    ensures r.Some? ==> exists k: nat :: FirstNearest(cs, |cs|, k) && r == Some(cs[k].action)
  {
    var bestDist := NoDistance;
    var bestAction: Option<Action> := None;
    ghost var k: nat := 0;
    for i := 0 to |cs|
      invariant bestAction.None? ==> bestDist == NoDistance
      invariant bestAction.None? ==> forall j :: 0 <= j < i ==> cs[j].succ.startDist >= NoDistance
      invariant bestAction.Some? ==>
        FirstNearest(cs, i, k) && bestAction == Some(cs[k].action) && bestDist == cs[k].succ.startDist
    {
      var dist := cs[i].succ.startDist;
      if dist < bestDist {
        bestAction := Some(cs[i].action);
        bestDist := dist;
        k := i;
      }
    }
    r := bestAction;
  }
}
