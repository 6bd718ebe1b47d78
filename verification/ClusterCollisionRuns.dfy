/**
 The bound on collisions is sharp: masters that all begin with one configEpoch
 can each move as often as there are greater names.
 */
module ClusterCollisionRuns {
  import opened Basics
  import opened ClusterEpochs
  import opened ClusterCollision

  /** Masters that know each other, all with configEpoch e. */
  function Equal(ids: set<Id>, e: nat): State {
    State(map i | i in ids :: Node(e, 0, 0, 0, false, map j | j in ids :: e), multiset{}, map[], map[], map[], {})
  }

  /** No message is in flight, no server is ahead of another's epoch, and each has its own epoch as the current one. */
  ghost predicate Tidy(s: State, ids: set<Id>) {
    && EpochInv(s) && ViewsCurrent(s) && s.nodes.Keys == ids && s.net == multiset{}
    && forall i :: i in ids ==> s.nodes[i].currentEpoch == Own(s, i)
  }

  // ----- one collision -----

  function Send(i: Id, j: Id): Step {
    SendPing(j, i, j)
  }

  function Receive(s: State, i: Id, j: Id): Step
    requires j in s.nodes && j in s.nodes[j].epochs
  {
    DeliverPing(Envelope(i, Ping(BuildHeader(j, s.nodes[j], j))), true)
  }

  /** The smaller name of two with one epoch hears of the greater: it moves to the next epoch. */
  lemma Meet(me: Id, n: Node, j: Id, m: Node)
    requires NodeOk(me, n) && NodeOk(j, m) && me < j && j in n.epochs && me in m.epochs
    requires n.currentEpoch == n.epochs[me] == m.epochs[j] == m.currentEpoch && n.epochs[j] <= m.epochs[j]
    ensures OnPing(me, n, BuildHeader(j, m, j), true)
            == n.(currentEpoch := n.currentEpoch + 1, epochs := n.epochs[j := m.epochs[j]][me := n.currentEpoch + 1])
  {
  }

  lemma Sends(s: State, ids: set<Id>, i: Id, j: Id) returns (q: State)
    requires Tidy(s, ids) && j in ids
    ensures j in s.nodes && j in s.nodes[j].epochs
    ensures Enabled(s, Send(i, j)) && q == Apply(s, Send(i, j)) && EpochInv(q)
    ensures q.nodes == s.nodes && q.net == multiset{Receive(s, i, j).env}
  {
    assert NodeOk(j, s.nodes[j]);
    q := Apply(s, Send(i, j));
    assert q.nodes == s.nodes;
    StepKeepsEpochInv(s, Send(i, j));
  }

  lemma Receives(q: State, u: Step) returns (r: State)
    requires EpochInv(q) && u.DeliverPing? && u.bothMasters && q.net == multiset{u.env}
    requires u.env.msg.Ping? && u.env.to in q.nodes
    ensures Enabled(q, u) && r == Apply(q, u) && EpochInv(r) && r.net == multiset{}
    ensures r.nodes == q.nodes[u.env.to := OnPing(u.env.to, q.nodes[u.env.to], u.env.msg.hdr, true)]
  {
    hide OnPing, EpochInv;
    r := Apply(q, u);
    StepKeepsEpochInv(q, u);
  }

  lemma TidyAgain(s: State, ids: set<Id>, i: Id, j: Id, r: State)
    requires Tidy(s, ids) && i in ids && j in ids && i < j && Own(s, i) == Own(s, j) && EpochInv(r) && r.net == multiset{}
    requires i in s.nodes && i in s.nodes[i].epochs && j in s.nodes && j in s.nodes[j].epochs
    requires var n := s.nodes[i];
             r.nodes == s.nodes[i := n.(currentEpoch := n.currentEpoch + 1,
                                        epochs := n.epochs[j := s.nodes[j].epochs[j]][i := n.currentEpoch + 1])]
    ensures Tidy(r, ids) && forall x :: x in ids ==> Own(r, x) == Own(s, x) + if x == i then 1 else 0
  {
    hide EpochInv;
  }

  lemma Collide(s: State, ids: set<Id>, i: Id, j: Id) returns (q: State, r: State)
    requires Tidy(s, ids) && i in ids && j in ids && i < j && Own(s, i) == Own(s, j)
    ensures j in s.nodes && j in s.nodes[j].epochs
    ensures Enabled(s, Send(i, j)) && q == Apply(s, Send(i, j)) && q.nodes == s.nodes
    ensures Enabled(q, Receive(s, i, j)) && r == Apply(q, Receive(s, i, j))
    ensures Tidy(r, ids) && forall x :: x in ids ==> Own(r, x) == Own(s, x) + if x == i then 1 else 0
  {
    assert NodeOk(i, s.nodes[i]) && NodeOk(j, s.nodes[j]);
    Meet(i, s.nodes[i], j, s.nodes[j]);
    hide Apply, Enabled, OnPing, EpochInv, ViewsCurrent;
    q := Sends(s, ids, i, j);
    r := Receives(q, Receive(s, i, j));
    TidyAgain(s, ids, i, j, r);
  }

  // ----- runs -----

  /** A run from equal epochs e that ends tidily, after f[i] moves of each server i. */
  ghost predicate Moved(states: seq<State>, steps: seq<Step>, ids: set<Id>, e: nat, f: map<Id, nat>) {
    && CollisionRun(states, steps) && states[0] == Equal(ids, e) && Tidy(states[|steps|], ids) && f.Keys == ids
    && forall i :: i in ids ==> Own(states[|steps|], i) == e + f[i] && Bumps(states, i, |steps|) == f[i]
  }

  lemma {:induction false} BumpsPrefix(states: seq<State>, more: seq<State>, i: Id, n: nat)
    requires n < |states|
    ensures Bumps(states + more, i, n) == Bumps(states, i, n)
  {
    hide Own;
    if n > 0 {
      BumpsPrefix(states, more, i, n - 1);
    }
  }

  lemma EqualMoved(ids: set<Id>, e: nat)
    ensures Moved([Equal(ids, e)], [], ids, e, map i | i in ids :: 0)
  {
  }

  lemma Extended(states: seq<State>, steps: seq<Step>, q: State, r: State, t: Step, u: Step)
    requires CollisionRun(states, steps) && CollisionStep(t) && CollisionStep(u)
    requires Enabled(states[|steps|], t) && q == Apply(states[|steps|], t) && Enabled(q, u) && r == Apply(q, u)
    ensures CollisionRun(states + [q, r], steps + [t, u])
  {
    hide Enabled, Apply, CollisionStep, EpochInv;
  }

  lemma OneMore(states: seq<State>, steps: seq<Step>, ids: set<Id>, e: nat, f: map<Id, nat>, i: Id, j: Id)
    returns (states': seq<State>, steps': seq<Step>)
    requires Moved(states, steps, ids, e, f) && i in ids && j in ids && i < j && f[i] == f[j]
    ensures Moved(states', steps', ids, e, f[i := f[i] + 1])
  {
    hide CollisionRun, Tidy, Enabled, Apply;
    var n := |steps|;
    assert |states| == n + 1 by { RunLength(states, steps); }
    var s := states[n];
    var q, r := Collide(s, ids, i, j);
    states', steps' := states + [q, r], steps + [Send(i, j), Receive(s, i, j)];
    Extended(states, steps, q, r, Send(i, j), Receive(s, i, j));
    assert f[i := f[i] + 1].Keys == ids;
    forall x | x in ids ensures Bumps(states', x, n + 2) == Bumps(states, x, n) + if x == i then 1 else 0 {
      BumpsPrefix(states, [q, r], x, n);
      assert states'[n] == s && states'[n + 1] == q && states'[n + 2] == r;
      assert Own(q, x) == Own(s, x);
      assert Bumps(states', x, n + 1) == Bumps(states', x, n);
    }
  }

  lemma RunLength(states: seq<State>, steps: seq<Step>)
    requires CollisionRun(states, steps)
    ensures |states| == |steps| + 1
  {
  }

  // ----- names by rank -----

  function Greater(ids: set<Id>, i: Id): set<Id> {
    set j | j in ids && j > i
  }

  function Rank(ids: set<Id>, i: Id): nat {
    |Greater(ids, i)|
  }

  lemma {:induction false} OfRank(ids: set<Id>, i: Id, m: nat) returns (j: Id)
    requires m < Rank(ids, i)
    ensures j in ids && j > i && Rank(ids, j) == m
    decreases Rank(ids, i)
  {
    var g := Greater(ids, i);
    j := Least(g);
    assert Greater(ids, j) == g - {j};
    if m < Rank(ids, j) {
      j := OfRank(ids, j, m);
    }
  }

  lemma {:induction false} Greatest(g: set<Id>) returns (m: Id)
    requires g != {}
    ensures m in g && forall j :: j in g ==> j <= m
  {
    m :| m in g;
    if g != {m} {
      var k := Greatest(g - {m});
      assert forall j :: j in g ==> j == m || j in g - {m};
      if k > m {
        m := k;
      }
    }
  }

  /** Server i collides in turn with the servers of ranks 0, 1, and so on, which have made all their moves. */
  lemma {:induction false} Climb(states: seq<State>, steps: seq<Step>, ids: set<Id>, e: nat, f: map<Id, nat>, i: Id)
    returns (states': seq<State>, steps': seq<Step>)
    requires Moved(states, steps, ids, e, f) && i in ids && f.Keys == ids && f[i] <= Rank(ids, i)
    requires forall j :: j in ids && j > i ==> f[j] == Rank(ids, j)
    ensures Moved(states', steps', ids, e, f[i := Rank(ids, i)])
    decreases Rank(ids, i) - f[i]
  {
    hide Moved, Rank;
    if f[i] == Rank(ids, i) {
      assert f[i := Rank(ids, i)] == f;
      states', steps' := states, steps;
    } else {
      var j := OfRank(ids, i, f[i]);
      var states1, steps1 := OneMore(states, steps, ids, e, f, i, j);
      var g := f[i := f[i] + 1];
      states', steps' := Climb(states1, steps1, ids, e, g, i);
      assert g[i := Rank(ids, i)] == f[i := Rank(ids, i)];
    }
  }

  lemma {:induction false} ClimbAll(states: seq<State>, steps: seq<Step>, ids: set<Id>, e: nat, f: map<Id, nat>, todo: set<Id>)
    returns (states': seq<State>, steps': seq<Step>)
    requires Moved(states, steps, ids, e, f) && todo <= ids && f.Keys == ids
    requires forall i :: i in ids ==> f[i] == if i in todo then 0 else Rank(ids, i)
    ensures Moved(states', steps', ids, e, map i | i in ids :: Rank(ids, i))
    decreases |todo|
  {
    hide Moved, Rank;
    if todo == {} {
      assert f == map i | i in ids :: Rank(ids, i);
      states', steps' := states, steps;
    } else {
      var i := Greatest(todo);
      var states1, steps1 := Climb(states, steps, ids, e, f, i);
      states', steps' := ClimbAll(states1, steps1, ids, e, f[i := Rank(ids, i)], todo - {i});
    }
  }

  /** From any one epoch, any servers: a run in which each of them moves as often as there are greater names. */
  lemma EveryBoundReached(ids: set<Id>, e: nat) returns (states: seq<State>, steps: seq<Step>)
    ensures CollisionRun(states, steps) && states[0] == Equal(ids, e)
    ensures forall i :: i in ids ==> Bumps(states, i, |steps|) == |Above(states[0], i)|
  {
    EqualMoved(ids, e);
    hide *;
    var f := map i | i in ids :: Rank(ids, i);
    states, steps := ClimbAll([Equal(ids, e)], [], ids, e, map i | i in ids :: 0, ids);
    EndOfRun(states, steps, ids, e, f);
    forall i | i in ids ensures Bumps(states, i, |steps|) == |Above(states[0], i)| {
      AboveEqual(ids, e, i);
    }
  }

  lemma EndOfRun(states: seq<State>, steps: seq<Step>, ids: set<Id>, e: nat, f: map<Id, nat>)
    requires Moved(states, steps, ids, e, f)
    ensures CollisionRun(states, steps) && |states| == |steps| + 1 && states[0] == Equal(ids, e) && f.Keys == ids
    ensures forall i :: i in ids ==> Bumps(states, i, |steps|) == f[i]
  {
    RunLength(states, steps);
    hide CollisionRun, Tidy, Own, Bumps, Equal;
  }

  lemma AboveEqual(ids: set<Id>, e: nat, i: Id)
    ensures Above(Equal(ids, e), i) == Greater(ids, i) && |Above(Equal(ids, e), i)| == Rank(ids, i)
  {
    assert Above(Equal(ids, e), i) == Greater(ids, i);
  }
}
