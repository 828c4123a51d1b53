/**
 ReflexCaptureAgent.evaluate: the dot product of a feature vector with the
 agent's weight table, as util.Counter's `*` computes it (the operands are
 swapped so that the smaller map is walked, and a key missing from the
 other map is skipped).
 */
module Evaluation {
  import opened GameView
  import opened Features

  /** Every feature name once; the sum is taken in this order. */
  const AllFeatures: seq<Feature> :=
    [SuccessorScore, OnDefense, ObjectiveDistance, NumInvaders, Feature.Stop, Fear]

  /** The sum, over `keys`, of x[k] * y[k] for the keys present in both maps. */
  function DotOver(keys: seq<Feature>, x: FeatureMap, y: FeatureMap): real
  {
    if keys == [] then 0.0
    else
      var k := keys[0];
      (if k in x && k in y then x[k] * y[k] else 0.0) + DotOver(keys[1..], x, y)
  }

  /** features * weights, walking the smaller of the two maps. */
  function Evaluate(f: FeatureMap, w: FeatureMap): real
  {
    if |f| > |w| then DotOver(AllFeatures, w, f) else DotOver(AllFeatures, f, w)
  }

  predicate Distinct(keys: seq<Feature>)
  {
    forall i, j :: 0 <= i < j < |keys| ==> keys[i] != keys[j]
  }

  /** Swapping the operands does not change the dot product. */
  lemma {:induction false} DotOverSymmetric(keys: seq<Feature>, x: FeatureMap, y: FeatureMap)
    ensures DotOver(keys, x, y) == DotOver(keys, y, x)
  {
    if keys != [] {
      DotOverSymmetric(keys[1..], x, y);
    }
  }

  /** Changing one entry of the feature map moves the dot product by the
      change times that key's weight (absent entries read as 0). */
  lemma DotOverUpdate(keys: seq<Feature>, f: FeatureMap, w: FeatureMap, k: Feature, v: real)
    requires Distinct(keys)
    ensures DotOver(keys, f[k := v], w)
      == DotOver(keys, f, w) + (if k in keys then (v - Get(f, k)) * Get(w, k) else 0.0)
  {
    DotOverChange(keys, f, f[k := v], w, k);
  }

  /** Two feature maps that agree on every key but k have dot products that
      differ by the difference at k times k's weight. */
  lemma {:induction false} DotOverChange(keys: seq<Feature>, f: FeatureMap, g: FeatureMap, w: FeatureMap, k: Feature)
    requires Distinct(keys)
    requires forall h :: h != k ==> Get(g, h) == Get(f, h)
    ensures DotOver(keys, g, w)
      == DotOver(keys, f, w) + (if k in keys then (Get(g, k) - Get(f, k)) * Get(w, k) else 0.0)
  {
    if keys != [] {
      var h, t := keys[0], keys[1..];
      var delta := (Get(g, k) - Get(f, k)) * Get(w, k);
      var rest := if k in t then delta else 0.0;
      var here := if h == k then delta else 0.0;
      assert DotOver(t, g, w) == DotOver(t, f, w) + rest by {
        DistinctTail(keys);
        DotOverChange(t, f, g, w, k);
      }
      assert Get(g, h) * Get(w, h) == Get(f, h) * Get(w, h) + here by {
        ChangedTerm(f, g, w, k, h);
      }
      assert (if k in keys then delta else 0.0) == here + rest by {
        DistinctTail(keys);
        InTail(keys, k);
      }
      DotOverCons(keys, g, w);
      DotOverCons(keys, f, w);
    }
  }

  lemma InTail(keys: seq<Feature>, k: Feature)
    requires keys != []
    ensures k in keys <==> k == keys[0] || k in keys[1..]
  {
    assert keys == [keys[0]] + keys[1..];
  }

  lemma DistinctTail(keys: seq<Feature>)
    requires Distinct(keys) && keys != []
    ensures Distinct(keys[1..]) && keys[0] !in keys[1..]
  {
    var t := keys[1..];
    forall i, j | 0 <= i < j < |t| ensures t[i] != t[j] {
      assert t[i] == keys[i + 1] && t[j] == keys[j + 1];
    }
    forall j | 0 <= j < |t| ensures t[j] != keys[0] {
      assert t[j] == keys[j + 1];
    }
  }

  /** One term of the sum when only key k may differ. */
  lemma ChangedTerm(f: FeatureMap, g: FeatureMap, w: FeatureMap, k: Feature, h: Feature)
    requires forall h :: h != k ==> Get(g, h) == Get(f, h)
    ensures Get(g, h) * Get(w, h)
      == Get(f, h) * Get(w, h) + (if h == k then (Get(g, k) - Get(f, k)) * Get(w, k) else 0.0)
  {
    if h == k {
      assert (Get(g, k) - Get(f, k)) * Get(w, k) == Get(g, k) * Get(w, k) - Get(f, k) * Get(w, k);
    }
  }

  /** The swap in Counter's `*` is harmless: evaluate is the dot product of
      the features with the weights, whatever their sizes. */
  lemma EvaluateIsDot(f: FeatureMap, w: FeatureMap)
    ensures Evaluate(f, w) == DotOver(AllFeatures, f, w)
  {
    DotOverSymmetric(AllFeatures, w, f);
  }

  /** evaluate, written out: each feature times its weight, a key absent
      from either map contributing 0. */
  lemma EvaluateExpanded(f: FeatureMap, w: FeatureMap)
    ensures Evaluate(f, w)
      == Get(f, SuccessorScore) * Get(w, SuccessorScore)
       + Get(f, OnDefense) * Get(w, OnDefense)
       + Get(f, ObjectiveDistance) * Get(w, ObjectiveDistance)
       + Get(f, NumInvaders) * Get(w, NumInvaders)
       + Get(f, Feature.Stop) * Get(w, Feature.Stop)
       + Get(f, Fear) * Get(w, Fear)
  {
    EvaluateIsDot(f, w);
    DotOverFirstThree(f, w);
    DotOverLastThree(f, w);
  }

  lemma DotOverFirstThree(f: FeatureMap, w: FeatureMap)
    ensures DotOver(AllFeatures, f, w)
      == Get(f, SuccessorScore) * Get(w, SuccessorScore)
       + Get(f, OnDefense) * Get(w, OnDefense)
       + Get(f, ObjectiveDistance) * Get(w, ObjectiveDistance)
       + DotOver([NumInvaders, Feature.Stop, Fear], f, w)
  {
    var ks := AllFeatures;
    DotOverCons(ks, f, w);
    assert ks[1..] == [OnDefense, ObjectiveDistance, NumInvaders, Feature.Stop, Fear];
    DotOverCons(ks[1..], f, w);
    assert ks[1..][1..] == [ObjectiveDistance, NumInvaders, Feature.Stop, Fear];
    DotOverCons(ks[1..][1..], f, w);
    assert ks[1..][1..][1..] == [NumInvaders, Feature.Stop, Fear];
  }

  lemma DotOverLastThree(f: FeatureMap, w: FeatureMap)
    ensures DotOver([NumInvaders, Feature.Stop, Fear], f, w)
      == Get(f, NumInvaders) * Get(w, NumInvaders)
       + Get(f, Feature.Stop) * Get(w, Feature.Stop)
       + Get(f, Fear) * Get(w, Fear)
  {
    var ks := [NumInvaders, Feature.Stop, Fear];
    DotOverCons(ks, f, w);
    assert ks[1..] == [Feature.Stop, Fear];
    DotOverCons(ks[1..], f, w);
    assert ks[1..][1..] == [Fear];
    DotOverCons(ks[1..][1..], f, w);
    assert ks[1..][1..][1..] == [];
  }

  /** One step of the sum, with absent keys read as 0. */
  lemma DotOverCons(keys: seq<Feature>, x: FeatureMap, y: FeatureMap)
    requires keys != []
    ensures DotOver(keys, x, y) == Get(x, keys[0]) * Get(y, keys[0]) + DotOver(keys[1..], x, y)
  {
  }

  /** Keys missing from either map count as 0: updating a feature the
      weights do not mention leaves the value alone, and updating one they do
      moves it by the change times the weight. */
  lemma EvaluateUpdate(f: FeatureMap, w: FeatureMap, k: Feature, v: real)
    ensures Evaluate(f[k := v], w) == Evaluate(f, w) + (v - Get(f, k)) * Get(w, k)
  {
    EvaluateIsDot(f, w);
    EvaluateIsDot(f[k := v], w);
    DotOverUpdate(AllFeatures, f, w, k, v);
    assert k in AllFeatures by {
      match k
      case SuccessorScore => assert AllFeatures[0] == k;
      case OnDefense => assert AllFeatures[1] == k;
      case ObjectiveDistance => assert AllFeatures[2] == k;
      case NumInvaders => assert AllFeatures[3] == k;
      case Stop => assert AllFeatures[4] == k;
      case Fear => assert AllFeatures[5] == k;
    }
  }

  /** With either weight table that has a num_invaders weight, raising the
      num_invaders feature by 1 lowers the value by 1000. */
  lemma InvaderPenalty(role: Role, f: FeatureMap)
    requires role != Reflex
    ensures Evaluate(f[NumInvaders := Get(f, NumInvaders) + 1.0], Weights(role))
      == Evaluate(f, Weights(role)) - 1000.0
  {
    EvaluateUpdate(f, Weights(role), NumInvaders, Get(f, NumInvaders) + 1.0);
  }

  /** evaluate(game_state, action) of an agent of the given role. */
  function Value(role: Role, score: int, action: Action, s: Successor): real
    requires FeaturesDefined(role, score, s)
  {
    Evaluate(FeaturesOf(role, score, action, s), Weights(role))
  }

  /** The base agent values a move by the score of its successor. */
  lemma ReflexValue(score: int, action: Action, s: Successor)
    ensures Value(Reflex, score, action, s) == s.score as real
  {
    EvaluateExpanded(ReflexFeatures(s), Weights(Reflex));
  }

  /** While defending (DefenseReflexAgent, or StallReflexAgent above a
      score of 5) a move is worth 100, less its objective distance, less
      1000 per visible invader. */
  lemma DefendingValue(role: Role, score: int, action: Action, s: Successor)
    requires role == DefenseReflex || (role == StallReflex && score > 5)
    requires FeaturesDefined(role, score, s)
    ensures Value(role, score, action, s)
      == 100.0 - NearestObjective(Invaders(s.enemies), s.myFood) - 1000.0 * CountInvaders(s.enemies) as real
  {
    var f := FeaturesOf(role, score, action, s);
    InvadersCount(s.enemies);
    EvaluateExpanded(f, Weights(role));
    if role == DefenseReflex {
      assert Get(f, Feature.Stop) == 0.0;
    } else {
      StallStop(score, action, s);
      assert Get(f, Feature.Stop) == 0.0;
    }
  }

  /** While defending, with the same number of visible invaders and the same
      move, a successor nearer to the nearest invader is valued strictly
      higher: the evaluation never prefers moving away from invaders. */
  lemma {:induction false} CloserToInvaderPreferred(
    role: Role, score: int, action: Action, s1: Successor, s2: Successor, d1: nat, d2: nat)
    requires role == DefenseReflex || (role == StallReflex && score > 5)
    requires FeaturesDefined(role, score, s1) && FeaturesDefined(role, score, s2)
    requires CountInvaders(s1.enemies) == CountInvaders(s2.enemies)
    requires IsNearestVisible(s1.enemies, true, d1) && IsNearestVisible(s2.enemies, true, d2)
    requires d1 < d2
    ensures Value(role, score, action, s1) > Value(role, score, action, s2)
  {
    NearestInvaderObjective(s1, d1);
    NearestInvaderObjective(s2, d2);
    DefendingValue(role, score, action, s1);
    DefendingValue(role, score, action, s2);
  }
}
