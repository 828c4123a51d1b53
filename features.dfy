/**
 Feature extraction and weight tables of the three reflex agents:
 ReflexCaptureAgent (the base class), StallReflexAgent (switches between
 offense, defense and "winning" defense) and DefenseReflexAgent (always
 defends). A feature vector is a map from feature name to value; a name
 that is absent reads as 0, as util.Counter does.
 */
module Features {
  import opened Wrappers
  import opened GameView

  /** The feature names the agents use. */
  datatype Feature = SuccessorScore | OnDefense | ObjectiveDistance | NumInvaders | Stop | Fear

  type FeatureMap = map<Feature, real>

  /** The agent classes; create_team picks two of them by name. */
  datatype Role = Reflex | StallReflex | DefenseReflex

  /** The three branches of StallReflexAgent.get_features. */
  datatype Mode = Offense | Defense | Winning

  /** Counter lookup: a missing key reads as 0. */
  function Get(f: FeatureMap, k: Feature): real
  {
    if k in f then f[k] else 0.0
  }

  /** The score threshold that both decides the branch and bounds the food margin. */
  const Threshold: int := 5

  /** The branch StallReflexAgent takes, from the current score and the
      food counts of the successor. */
  function StallMode(score: int, s: Successor): Mode
  {
    if score <= Threshold then
      if |s.myFood| - |s.enemyFood| < Threshold && |s.myFood| != 2 then Offense else Defense
    else Winning
  }

  /** Every visible ghost is at a positive distance, so 1/distance is defined. */
  predicate GhostsApart(s: Successor)
  {
    forall i :: 0 <= i < |s.enemies| && !s.enemies[i].isPacman && s.enemies[i].dist.Some? ==>
      s.enemies[i].dist.value > 0
  }

  /** The inputs on which StallReflexAgent.get_features raises no exception:
      fear divides by the nearest ghost distance where it is computed, and
      the winning branch takes the minimum over own food when no invader is
      visible. (The defense branch never meets an empty own-food list: see
      DefenseModeHasFood.) */
  predicate StallDefined(score: int, s: Successor)
  {
    match StallMode(score, s)
    case Offense => |s.enemyFood| > 0 && s.isPacman ==> GhostsApart(s)
    case Defense => s.isPacman ==> GhostsApart(s)
    case Winning => |Invaders(s.enemies)| > 0 || |s.myFood| > 0
  }

  /** DefenseReflexAgent.get_features raises no exception: with no invader
      visible, own food is not empty. */
  predicate DefenseDefined(s: Successor)
  {
    |Invaders(s.enemies)| > 0 || |s.myFood| > 0
  }

  /** 1/d on a positive distance, as an exact real (not a rounded double). */
  function Reciprocal(d: nat): (r: real)
    requires d > 0
    ensures 0.0 < r <= 1.0
  {
    1.0 / (d as real)
  }

  lemma GhostsPositive(s: Successor)
    requires GhostsApart(s)
    requires |Ghosts(s.enemies)| > 0
    ensures MinOf(Ghosts(s.enemies)) > 0
  {
    var m := MinOf(Ghosts(s.enemies));
    var i :| 0 <= i < |s.enemies| && !s.enemies[i].isPacman && s.enemies[i].dist == Some(m);
  }

  /** The fear of the agent as a pacman: the reciprocal of the nearest visible
      ghost, or 0 when no ghost is visible. The scared timer is not consulted. */
  function FearOf(s: Successor): real
    requires GhostsApart(s)
  {
    var ghosts := Ghosts(s.enemies);
    if |ghosts| > 0 then
      GhostsPositive(s);
      Reciprocal(MinOf(ghosts))
    else 0.0
  }

  /** The defensive objective: the nearest invader if one is visible,
      otherwise the nearest pellet we defend. */
  function NearestObjective(invaders: seq<nat>, myFood: seq<nat>): real
    requires |invaders| > 0 || |myFood| > 0
  {
    if |invaders| > 0 then MinOf(invaders) as real else MinOf(myFood) as real
  }

  /** The stop feature: written only when the action is STOP, as 0 in
      defense and as 1 in offense. */
  function WithStop(f: FeatureMap, action: Action): FeatureMap
  {
    if Get(f, OnDefense) == 1.0 then
      if action == Action.Stop then f[Feature.Stop := 0.0] else f
    else if Get(f, OnDefense) == 0.0 then
      if action == Action.Stop then f[Feature.Stop := 1.0] else f
    else f
  }

  /** ReflexCaptureAgent.get_features: only the successor's score. */
  function ReflexFeatures(s: Successor): FeatureMap
  {
    map[SuccessorScore := s.score as real]
  }

  /** StallReflexAgent.get_features. */
  function StallFeatures(score: int, action: Action, s: Successor): FeatureMap
    requires StallDefined(score, s)
  {
    var invaders := Invaders(s.enemies);
    var f :=
      match StallMode(score, s)
      case Offense =>
        var base := map[OnDefense := 0.0, SuccessorScore := |s.enemyFood| as real,
                        Fear := 0.0, NumInvaders := 0.0];
        if |s.enemyFood| > 0 then
          var feared := if s.isPacman then base[Fear := FearOf(s)] else base;
          feared[ObjectiveDistance := MinOf(s.enemyFood) as real]
        else base
      case Defense =>
        var base := map[OnDefense := 1.0, NumInvaders := |invaders| as real,
                        Fear := 0.0, SuccessorScore := 0.0];
        if s.isPacman then
          base[Fear := FearOf(s)][ObjectiveDistance := NearestObjective(invaders, s.myFood)]
        else base
      case Winning =>
        map[OnDefense := 1.0, SuccessorScore := 0.0, Fear := 0.0,
            NumInvaders := |invaders| as real,
            ObjectiveDistance := NearestObjective(invaders, s.myFood)];
    WithStop(f, action)
  }

  /** DefenseReflexAgent.get_features. */
  function DefenseFeatures(action: Action, s: Successor): FeatureMap
    requires DefenseDefined(s)
  {
    var invaders := Invaders(s.enemies);
    var f := map[NumInvaders := |invaders| as real, OnDefense := 1.0,
                 ObjectiveDistance := NearestObjective(invaders, s.myFood)];
    WithStop(f, action)
  }

  /** The weight tables of the three agents. */
  function Weights(role: Role): FeatureMap
  {
    match role
    case Reflex => map[SuccessorScore := 1.0]
    case StallReflex =>
      map[SuccessorScore := -100.0, OnDefense := 100.0, ObjectiveDistance := -1.0,
          NumInvaders := -1000.0, Feature.Stop := -100.0, Fear := -10.0]
    case DefenseReflex =>
      map[OnDefense := 100.0, ObjectiveDistance := -1.0, NumInvaders := -1000.0,
          Feature.Stop := -100.0]
  }

  /** The inputs on which the role's get_features raises no exception. */
  predicate FeaturesDefined(role: Role, score: int, s: Successor)
  {
    match role
    case Reflex => true
    case StallReflex => StallDefined(score, s)
    case DefenseReflex => DefenseDefined(s)
  }

  /** get_features, dispatched on the agent's class; `score` is the score of
      the current state. */
  function FeaturesOf(role: Role, score: int, action: Action, s: Successor): FeatureMap
    requires FeaturesDefined(role, score, s)
  {
    match role
    case Reflex => ReflexFeatures(s)
    case StallReflex => StallFeatures(score, action, s)
    case DefenseReflex => DefenseFeatures(action, s)
  }

  // ---------------------------------------------------------------------
  // What the feature maps say, stated against the successor itself.

  /** Some opponent of the given kind (pacman or ghost) is visible. */
  predicate AnyVisible(es: seq<Enemy>, pacmen: bool)
  {
    exists i :: 0 <= i < |es| && es[i].isPacman == pacmen && es[i].dist.Some?
  }

  /** d is the distance to a nearest visible opponent of the given kind. */
  predicate IsNearestVisible(es: seq<Enemy>, pacmen: bool, d: nat)
  {
    && (exists i :: 0 <= i < |es| && es[i].isPacman == pacmen && es[i].dist == Some(d))
    && forall i :: 0 <= i < |es| && es[i].isPacman == pacmen && es[i].dist.Some? ==>
         d <= es[i].dist.value
  }

  /** d is the distance to a nearest pellet of the list. */
  predicate IsNearest(xs: seq<nat>, d: nat)
  {
    d in xs && forall x :: x in xs ==> d <= x
  }

  lemma NearestVisibleIsMin(es: seq<Enemy>, pacmen: bool)
    requires AnyVisible(es, pacmen)
    ensures |VisibleDists(es, pacmen)| > 0
    ensures IsNearestVisible(es, pacmen, MinOf(VisibleDists(es, pacmen)))
  {
    var i :| 0 <= i < |es| && es[i].isPacman == pacmen && es[i].dist.Some?;
    assert es[i].dist.value in VisibleDists(es, pacmen);
  }

  lemma NoneVisible(es: seq<Enemy>, pacmen: bool)
    requires !AnyVisible(es, pacmen)
    ensures VisibleDists(es, pacmen) == []
  {
  }

  /** At most one distance is the nearest. */
  lemma NearestVisibleUnique(es: seq<Enemy>, pacmen: bool, d: nat, e: nat)
    requires IsNearestVisible(es, pacmen, d) && IsNearestVisible(es, pacmen, e)
    ensures d == e
  {
    var i :| 0 <= i < |es| && es[i].isPacman == pacmen && es[i].dist == Some(d);
    var j :| 0 <= j < |es| && es[j].isPacman == pacmen && es[j].dist == Some(e);
  }

  /** The defensive objective is the nearest visible invader when there is
      one, and the nearest pellet we defend otherwise. */
  lemma NearestObjectivePrefersInvaders(s: Successor)
    requires DefenseDefined(s)
    ensures AnyVisible(s.enemies, true) ==>
      exists d: nat :: IsNearestVisible(s.enemies, true, d) && NearestObjective(Invaders(s.enemies), s.myFood) == d as real
    ensures !AnyVisible(s.enemies, true) ==>
      |s.myFood| > 0 &&
      exists d: nat :: IsNearest(s.myFood, d) && NearestObjective(Invaders(s.enemies), s.myFood) == d as real
  {
    if AnyVisible(s.enemies, true) {
      NearestVisibleIsMin(s.enemies, true);
      var d := MinOf(Invaders(s.enemies));
      assert IsNearestVisible(s.enemies, true, d);
    } else {
      NoneVisible(s.enemies, true);
      var d := MinOf(s.myFood);
      assert IsNearest(s.myFood, d);
    }
  }

  /** Once an invader at distance d is nearest, d is the defensive objective. */
  lemma NearestInvaderObjective(s: Successor, d: nat)
    requires IsNearestVisible(s.enemies, true, d)
    ensures DefenseDefined(s)
    ensures NearestObjective(Invaders(s.enemies), s.myFood) == d as real
  {
    NearestVisibleIsMin(s.enemies, true);
    NearestVisibleUnique(s.enemies, true, d, MinOf(Invaders(s.enemies)));
  }

  /** In the defense branch own food is never empty: the branch is taken
      only when exactly 2 pellets are left or the margin is at least 5. */
  lemma DefenseModeHasFood(score: int, s: Successor)
    requires StallMode(score, s) == Defense
    ensures |s.myFood| == 2 || |s.myFood| >= Threshold + |s.enemyFood|
  {
  }

  /** Offense is chosen exactly when the score is at most 5, the successor's
      food margin is below 5 and own food is not exactly 2; then the agent
      counts enemy food and ignores invaders. */
  lemma {:induction false} OffenseFeatures(score: int, action: Action, s: Successor)
    requires StallDefined(score, s)
    ensures var f := StallFeatures(score, action, s);
      && OnDefense in f
      && (f[OnDefense] == 0.0 <==>
            score <= 5 && |s.myFood| - |s.enemyFood| < 5 && |s.myFood| != 2)
      && (f[OnDefense] == 0.0 || f[OnDefense] == 1.0)
      && (f[OnDefense] == 0.0 ==>
            Get(f, SuccessorScore) == |s.enemyFood| as real && Get(f, NumInvaders) == 0.0)
  {
  }

  /** In offense the objective is the nearest enemy pellet, and it is absent
      when no enemy pellet is left. */
  lemma {:induction false} OffenseObjective(score: int, action: Action, s: Successor)
    requires StallDefined(score, s)
    requires StallMode(score, s) == Offense
    ensures var f := StallFeatures(score, action, s);
      && (ObjectiveDistance in f <==> |s.enemyFood| > 0)
      && (ObjectiveDistance in f ==>
            exists d: nat :: IsNearest(s.enemyFood, d) && f[ObjectiveDistance] == d as real)
  {
    var f := StallFeatures(score, action, s);
    if |s.enemyFood| > 0 {
      var d := MinOf(s.enemyFood);
      assert IsNearest(s.enemyFood, d) && f[ObjectiveDistance] == d as real;
    }
  }

  /** Above a score of 5 the agent defends whatever the food: on_defense is
      1, successor_score and fear are 0, num_invaders counts the visible
      invaders, and the objective is the nearest invader, or the nearest own
      pellet when none is visible. */
  lemma {:induction false} WinningFeatures(score: int, action: Action, s: Successor)
    requires score > 5
    requires StallDefined(score, s)
    ensures var f := StallFeatures(score, action, s);
      && Get(f, OnDefense) == 1.0
      && Get(f, SuccessorScore) == 0.0
      && Get(f, Fear) == 0.0
      && Get(f, NumInvaders) == CountInvaders(s.enemies) as real
      && ObjectiveDistance in f
      && (AnyVisible(s.enemies, true) ==>
            exists d: nat :: IsNearestVisible(s.enemies, true, d) && f[ObjectiveDistance] == d as real)
      && (!AnyVisible(s.enemies, true) ==>
            exists d: nat :: IsNearest(s.myFood, d) && f[ObjectiveDistance] == d as real)
  {
    InvadersCount(s.enemies);
    NearestObjectivePrefersInvaders(s);
  }

  /** In the defense branch at a score of at most 5 the agent defends, but
      it sets an objective only while it is a pacman; then the objective
      prefers the nearest invader to the nearest own pellet. */
  lemma {:induction false} DefenseBranchFeatures(score: int, action: Action, s: Successor)
    requires StallDefined(score, s)
    requires StallMode(score, s) == Defense
    ensures var f := StallFeatures(score, action, s);
      && Get(f, OnDefense) == 1.0
      && Get(f, SuccessorScore) == 0.0
      && Get(f, NumInvaders) == CountInvaders(s.enemies) as real
      && (ObjectiveDistance in f <==> s.isPacman)
      && (s.isPacman && AnyVisible(s.enemies, true) ==>
            exists d: nat :: IsNearestVisible(s.enemies, true, d) && f[ObjectiveDistance] == d as real)
      && (s.isPacman && !AnyVisible(s.enemies, true) ==>
            exists d: nat :: IsNearest(s.myFood, d) && f[ObjectiveDistance] == d as real)
  {
    InvadersCount(s.enemies);
    NearestObjectivePrefersInvaders(s);
  }

  /** The fear feature of StallReflexAgent lies in [0, 1]; it is positive
      exactly when the agent is a pacman with a ghost in sight and the branch
      computes it (the defense branch, or offense with enemy food left), and
      then it is 1 over the distance to the nearest visible ghost. Scared
      timers play no part. */
  lemma {:induction false} StallFear(score: int, action: Action, s: Successor)
    requires StallDefined(score, s)
    ensures var f := StallFeatures(score, action, s);
      && Fear in f
      && 0.0 <= f[Fear] <= 1.0
      && (f[Fear] > 0.0 <==>
            && score <= 5 && s.isPacman && AnyVisible(s.enemies, false)
            && (StallMode(score, s) == Defense || |s.enemyFood| > 0))
      && (f[Fear] > 0.0 ==>
            exists d: nat :: d > 0 && IsNearestVisible(s.enemies, false, d) && f[Fear] == 1.0 / (d as real))
  {
    var f := StallFeatures(score, action, s);
    if score <= 5 && s.isPacman && (StallMode(score, s) == Defense || |s.enemyFood| > 0) {
      if AnyVisible(s.enemies, false) {
        NearestVisibleIsMin(s.enemies, false);
        GhostsPositive(s);
        var d := MinOf(Ghosts(s.enemies));
        assert f[Fear] == 1.0 / (d as real);
      } else {
        NoneVisible(s.enemies, false);
      }
    }
  }

  /** The stop feature is present only for STOP, and then it is 1 in offense
      and 0 in defense: standing still is penalised only when attacking. */
  lemma {:induction false} StallStop(score: int, action: Action, s: Successor)
    requires StallDefined(score, s)
    ensures var f := StallFeatures(score, action, s);
      && (Feature.Stop in f <==> action == Action.Stop)
      && (Feature.Stop in f ==> f[Feature.Stop] == 1.0 - f[OnDefense])
  {
  }

  /** DefenseReflexAgent always defends: on_defense is 1, num_invaders counts
      the visible invaders, the objective prefers the nearest invader to the
      nearest own pellet, stop is 0 on STOP and absent otherwise, and neither
      successor_score nor fear is ever set. */
  lemma {:induction false} DefenseAgentFeatures(action: Action, s: Successor)
    requires DefenseDefined(s)
    ensures var f := DefenseFeatures(action, s);
      && Get(f, OnDefense) == 1.0
      && Get(f, NumInvaders) == CountInvaders(s.enemies) as real
      && SuccessorScore !in f && Fear !in f
      && (Feature.Stop in f <==> action == Action.Stop)
      && (Feature.Stop in f ==> f[Feature.Stop] == 0.0)
      && ObjectiveDistance in f
      && (AnyVisible(s.enemies, true) ==>
            exists d: nat :: IsNearestVisible(s.enemies, true, d) && f[ObjectiveDistance] == d as real)
      && (!AnyVisible(s.enemies, true) ==>
            exists d: nat :: IsNearest(s.myFood, d) && f[ObjectiveDistance] == d as real)
  {
    InvadersCount(s.enemies);
    NearestObjectivePrefersInvaders(s);
  }

  // ---------------------------------------------------------------------
  // Two boundary scenarios for the offense/defense switch.

  /** Score 0, ten own pellets, one enemy pellet: the margin 9 is not below
      5, so the agent defends despite the food lead. */
  lemma MarginNineDefends(action: Action, fd: nat, ed: nat)
    ensures var s := Successor(false, 0, [ed], seq(10, _ => fd), [], 0);
      StallMode(0, s) == Defense && Get(StallFeatures(0, action, s), OnDefense) == 1.0
  {
  }

  /** Score 0, three own pellets, one enemy pellet: the margin 2 is below 5
      and own food is not at 2, so the agent attacks and successor_score is 1. */
  lemma MarginTwoAttacks(action: Action, fd: nat, ed: nat)
    ensures var s := Successor(false, 0, [ed], [fd, fd, fd], [], 0);
      && StallMode(0, s) == Offense
      && Get(StallFeatures(0, action, s), OnDefense) == 0.0
      && Get(StallFeatures(0, action, s), SuccessorScore) == 1.0
  {
  }
}
