/** Option, for the places where the agent's code can yield Python's None. */
module Wrappers {
  datatype Option<+T> = None | Some(value: T)
}

/**
 The part of the game world that the reflex agents look at, once the game
 engine has done its work: every position the agents compare is already
 turned into a maze distance from the agent's (grid-aligned) successor
 position, so no positions, grids or distance oracle appear here.
 */
module GameView {
  import opened Wrappers

  /** The legal moves; `Stop` is Directions.STOP. */
  datatype Action = North | South | East | West | Stop

  /** An opponent's agent state in the successor: whether it is a pacman
      (an invader on our side) and the maze distance from our successor
      position to it, `None` when its position is not visible. */
  datatype Enemy = Enemy(isPacman: bool, dist: Option<nat>)

  /** What one candidate action leads to (the successor that
      get_successor returns, half steps already completed):
      - isPacman: whether our agent is a pacman there (on enemy territory);
      - score: get_score of the successor;
      - enemyFood: maze distance to each pellet we may eat, one per pellet;
      - myFood: maze distance to each pellet we defend, one per pellet;
      - enemies: the opponents, in get_opponents order;
      - startDist: maze distance from the agent's recorded start to it. */
  datatype Successor = Successor(
    isPacman: bool,
    score: int,
    enemyFood: seq<nat>,
    myFood: seq<nat>,
    enemies: seq<Enemy>,
    startDist: nat)

  /** Python's min over a non-empty list of distances. */
  function MinOf(xs: seq<nat>): (m: nat)
    requires |xs| > 0
    ensures m in xs
    ensures forall x :: x in xs ==> m <= x
  {
    if |xs| == 1 then xs[0]
    else
      var rest := MinOf(xs[1..]);
      assert forall x :: x in xs ==> x == xs[0] || x in xs[1..];
      if xs[0] <= rest then xs[0] else rest
  }

  /** The distances to the visible opponents that are pacmen (when
      `pacmen` holds) or ghosts (when it does not), in opponent order. */
  function VisibleDists(es: seq<Enemy>, pacmen: bool): (ds: seq<nat>)
    ensures |ds| <= |es|
    ensures forall d :: d in ds ==>
      exists i :: 0 <= i < |es| && es[i].isPacman == pacmen && es[i].dist == Some(d)
    ensures forall i :: 0 <= i < |es| && es[i].isPacman == pacmen && es[i].dist.Some? ==>
      es[i].dist.value in ds
  {
    if es == [] then []
    else
      var e := es[|es| - 1];
      var front := VisibleDists(es[..|es| - 1], pacmen);
      if e.isPacman == pacmen && e.dist.Some? then front + [e.dist.value] else front
  }

  /** The invaders list: visible opponents that are pacmen. */
  function Invaders(es: seq<Enemy>): seq<nat>
  {
    VisibleDists(es, true)
  }

  /** The enemy_positions list: visible opponents that are not pacmen. */
  function Ghosts(es: seq<Enemy>): seq<nat>
  {
    VisibleDists(es, false)
  }

  /** How many opponents are visible pacmen, counted one by one. */
  function CountInvaders(es: seq<Enemy>): nat
  {
    if es == [] then 0
    else (if es[0].isPacman && es[0].dist.Some? then 1 else 0) + CountInvaders(es[1..])
  }

  lemma {:induction false} VisibleDistsAppend(es: seq<Enemy>, fs: seq<Enemy>, pacmen: bool)
    ensures VisibleDists(es + fs, pacmen) == VisibleDists(es, pacmen) + VisibleDists(fs, pacmen)
    decreases |fs|
  {
    if fs == [] {
      assert es + fs == es;
    } else {
      var n := |fs| - 1;
      assert (es + fs)[..|es + fs| - 1] == es + fs[..n];
      VisibleDistsAppend(es, fs[..n], pacmen);
    }
  }

  /** num_invaders is the number of visible invaders, not just a bound on it. */
  lemma {:induction false} InvadersCount(es: seq<Enemy>)
    ensures |Invaders(es)| == CountInvaders(es)
  {
    if es != [] {
      assert es == [es[0]] + es[1..];
      VisibleDistsAppend([es[0]], es[1..], true);
      InvadersCount(es[1..]);
      assert VisibleDists([es[0]], true)
        == (if es[0].isPacman && es[0].dist.Some? then [es[0].dist.value] else []);
    }
  }
}
