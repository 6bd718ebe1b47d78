/**
 Resolution of configEpoch collisions among masters: how often a node can move
 to a new epoch, and what holds once no node moves any more.
 */
module ClusterCollision {
  import opened Basics
  import opened ClusterEpochs

  /** The configEpoch a server holds for itself. */
  function Own(s: State, i: Id): nat {
    if i in s.nodes && i in s.nodes[i].epochs then s.nodes[i].epochs[i] else 0
  }

  /** Steps among masters that keep their roles: pings sent, delivered, or lost. */
  predicate CollisionStep(t: Step) {
    (t.SendPing? && t.master == t.from) || (t.DeliverPing? && t.bothMasters) || t.Lose?
  }

  /** A run of collision resolution, from any epochs and with nothing in flight. */
  ghost predicate CollisionRun(states: seq<State>, steps: seq<Step>) {
    && |states| == |steps| + 1 && EpochInv(states[0]) && states[0].net == multiset{}
    && forall i :: 0 <= i < |steps| ==>
      Enabled(states[i], steps[i]) && CollisionStep(steps[i]) && states[i + 1] == Apply(states[i], steps[i])
  }

  // ----- the epochs a server went through -----

  /** The epochs server i held for itself up to state n. */
  ghost function Held(states: seq<State>, i: Id, n: nat): set<nat>
    requires n < |states|
  {
    if n == 0 then {Own(states[0], i)} else Held(states, i, n - 1) + {Own(states[n], i)}
  }

  /** The epochs server i gave up for a new one before state n. */
  ghost function Left(states: seq<State>, i: Id, n: nat): set<nat>
    requires n < |states|
  {
    if n == 0 then {}
    else if Own(states[n], i) == Own(states[n - 1], i) then Left(states, i, n - 1)
    else Left(states, i, n - 1) + {Own(states[n - 1], i)}
  }

  /** How often server i moved to a new epoch before state n. */
  ghost function Bumps(states: seq<State>, i: Id, n: nat): nat
    requires n < |states|
  {
    if n == 0 then 0
    else Bumps(states, i, n - 1) + if Own(states[n], i) == Own(states[n - 1], i) then 0 else 1
  }

  /** The epochs held by servers with names greater than i. */
  ghost function HeldAbove(states: seq<State>, i: Id, n: nat): set<nat>
    requires n < |states|
  {
    set j, v | j in Above(states[0], i) && v in Held(states, j, n) :: v
  }

  function Above(s: State, i: Id): set<Id> {
    set j | j in s.nodes.Keys && j > i
  }

  // ----- one step -----

  /** Every ping in flight carries an epoch its sender held. */
  ghost predicate PingsOk(states: seq<State>, n: nat)
    requires n < |states|
  {
    forall e :: e in states[n].net ==>
      e.msg.Ping? && e.msg.hdr.sender in states[0].nodes && e.msg.hdr.configEpoch in Held(states, e.msg.hdr.sender, n)
  }

  lemma PingMoves(me: Id, n: Node, h: Header)
    requires NodeOk(me, n) && h.configEpoch <= h.currentEpoch && h.sender != me
    ensures var n' := OnPing(me, n, h, true);
            && me in n'.epochs && n'.epochs[me] >= n.epochs[me]
            && (n'.epochs[me] != n.epochs[me] ==>
                  h.sender > me && h.configEpoch == n.epochs[me] && n'.epochs[me] > n.epochs[me])
  {
  }

  /** A ping from a server to itself changes nothing. */
  lemma SelfPing(me: Id, n: Node, h: Header)
    requires NodeOk(me, n) && h.sender == me && h.configEpoch <= n.epochs[me]
    ensures OnPing(me, n, h, true).epochs[me] == n.epochs[me]
  {
  }

  ghost predicate RunInv(states: seq<State>, n: nat)
    requires n < |states|
  {
    && EpochInv(states[n]) && states[n].nodes.Keys == states[0].nodes.Keys && PingsOk(states, n)
    && (forall i, v :: i in states[0].nodes && v in Held(states, i, n) ==> v <= Own(states[n], i))
  }

  /** What one step does to the own epochs: at most its server's moves, upward, away from a greater name's epoch. */
  lemma OwnEpochStep(states: seq<State>, steps: seq<Step>, n: nat, i: Id)
    requires CollisionRun(states, steps) && 0 < n < |states| && RunInv(states, n - 1) && i in states[0].nodes
    ensures Own(states[n], i) >= Own(states[n - 1], i)
    ensures Own(states[n], i) != Own(states[n - 1], i) ==> Own(states[n - 1], i) in HeldAbove(states, i, n - 1)
  {
    var s, t := states[n - 1], steps[n - 1];
    var sender, v := StepAt(states, steps, n);
    hide *;
    OwnAfter(s, t, i);
    if t.DeliverPing? && t.env.to == i && sender > i {
      InHeldAbove(states, n - 1, i, sender, v);
    }
  }

  /** The step taken; if it delivers a ping, the sender held the epoch that it carries. */
  lemma StepAt(states: seq<State>, steps: seq<Step>, n: nat) returns (sender: Id, v: nat)
    requires CollisionRun(states, steps) && 0 < n < |states| && RunInv(states, n - 1)
    ensures |steps| == |states| - 1
    ensures var s, t := states[n - 1], steps[n - 1];
            && Enabled(s, t) && CollisionStep(t) && states[n] == Apply(s, t) && EpochInv(s)
            && s.nodes.Keys == states[0].nodes.Keys
            && (t.DeliverPing? ==> t.env.msg.hdr.sender == sender && t.env.msg.hdr.configEpoch == v
                                   && sender in states[0].nodes && v in Held(states, sender, n - 1) && v <= Own(s, sender))
  {
    hide Apply, EpochInv, Held, Own;
    var s, t := states[n - 1], steps[n - 1];
    assert Enabled(s, t) && CollisionStep(t) && states[n] == Apply(s, t);
    sender, v := 0, 0;
    if t.DeliverPing? {
      sender, v := t.env.msg.hdr.sender, t.env.msg.hdr.configEpoch;
    }
  }

  lemma InHeldAbove(states: seq<State>, n: nat, i: Id, j: Id, v: nat)
    requires n < |states| && j in states[0].nodes && j > i && v in Held(states, j, n)
    ensures v in HeldAbove(states, i, n)
  {
    hide Held;
    assert j in Above(states[0], i);
  }

  /** One step moves no own epoch but that of the server it pings, and that only away from a greater name's epoch. */
  lemma OwnAfter(s: State, t: Step, i: Id)
    requires EpochInv(s) && Enabled(s, t) && CollisionStep(t) && i in s.nodes
    requires t.DeliverPing? && t.env.msg.hdr.sender == i ==> t.env.msg.hdr.configEpoch <= Own(s, i)
    ensures !(t.DeliverPing? && t.env.to == i) ==> Own(Apply(s, t), i) == Own(s, i)
    ensures t.DeliverPing? && t.env.to == i ==>
      var h, v := t.env.msg.hdr, Own(Apply(s, t), i);
      v >= Own(s, i) && (v != Own(s, i) ==> h.sender > i && h.configEpoch == Own(s, i))
  {
    assert NodeOk(i, s.nodes[i]);
    hide OnPing;
    if t.DeliverPing? && t.env.to == i {
      var h := t.env.msg.hdr;
      assert MsgOk(t.env.msg);
      if h.sender == i {
        SelfPing(i, s.nodes[i], h);
      } else {
        PingMoves(i, s.nodes[i], h);
      }
    }
  }

  lemma PingsStep(states: seq<State>, steps: seq<Step>, n: nat)
    requires CollisionRun(states, steps) && 0 < n < |states| && RunInv(states, n - 1)
    ensures PingsOk(states, n) && states[n].nodes.Keys == states[0].nodes.Keys
  {
    var s, t := states[n - 1], steps[n - 1];
    assert Enabled(s, t) && CollisionStep(t) && states[n] == Apply(s, t);
    hide EpochInv, NewNode, NewVotes, NewCounted, NewStale, NewWins, CollisionRun;
    forall e | e in states[n].net
      ensures e.msg.Ping? && e.msg.hdr.sender in states[0].nodes
      ensures e.msg.hdr.configEpoch in Held(states, e.msg.hdr.sender, n)
    {
      if e !in s.net {
        SentIsOwn(s, t, e);
      }
    }
  }

  lemma SentIsOwn(s: State, t: Step, e: Envelope)
    requires Enabled(s, t) && CollisionStep(t) && e in Apply(s, t).net && e !in s.net
    ensures e.msg.Ping? && e.msg.hdr.sender in s.nodes
    ensures e.msg.hdr.configEpoch == Own(Apply(s, t), e.msg.hdr.sender)
  {
  }

  lemma RunInvStep(states: seq<State>, steps: seq<Step>, n: nat)
    requires CollisionRun(states, steps) && 0 < n < |states| && RunInv(states, n - 1)
    ensures RunInv(states, n)
  {
    hide Apply, EpochInv, PingsOk, Own, Enabled;
    StepKeepsEpochInv(states[n - 1], steps[n - 1]);
    PingsStep(states, steps, n);
    forall i, v | i in states[0].nodes && v in Held(states, i, n) ensures v <= Own(states[n], i) {
      OwnEpochStep(states, steps, n, i);
      assert Held(states, i, n) == Held(states, i, n - 1) + {Own(states[n], i)};
    }
  }

  lemma {:induction false} RunInvariant(states: seq<State>, steps: seq<Step>, n: nat)
    requires CollisionRun(states, steps) && n < |states|
    ensures RunInv(states, n)
  {
    if n > 0 {
      hide CollisionRun, RunInv;
      RunInvariant(states, steps, n - 1);
      RunInvStep(states, steps, n);
    }
  }

  // ----- counting -----

  /** Each epoch left is a different one, all of them below the present epoch and held by a greater name. */
  lemma {:induction false} LeftCounted(states: seq<State>, steps: seq<Step>, n: nat, i: Id)
    requires CollisionRun(states, steps) && n < |states| && i in states[0].nodes
    ensures |Left(states, i, n)| == Bumps(states, i, n)
    ensures forall v :: v in Left(states, i, n) ==> v < Own(states[n], i)
    ensures Left(states, i, n) <= HeldAbove(states, i, n)
    ensures Held(states, i, n) <= Left(states, i, n) + {Own(states[n], i)}
  {
    hide CollisionRun, RunInv, Own, HeldAbove;
    if n > 0 {
      LeftCounted(states, steps, n - 1, i);
      RunInvariant(states, steps, n - 1);
      OwnEpochStep(states, steps, n, i);
      HeldAboveGrows(states, i, n);
    } else {
      assert Left(states, i, 0) == {};
    }
  }

  lemma HeldAboveGrows(states: seq<State>, i: Id, n: nat)
    requires 0 < n < |states|
    ensures HeldAbove(states, i, n - 1) <= HeldAbove(states, i, n)
  {
    forall v | v in HeldAbove(states, i, n - 1) ensures v in HeldAbove(states, i, n) {
      var j :| j in Above(states[0], i) && v in Held(states, j, n - 1);
      assert v in Held(states, j, n);
    }
  }

  lemma {:induction false} Least(g: set<Id>) returns (m: Id)
    requires g != {}
    ensures m in g && forall j :: j in g ==> m <= j
  {
    m :| m in g;
    if g != {m} {
      var k := Least(g - {m});
      assert forall j :: j in g ==> j == m || j in g - {m};
      if k < m {
        m := k;
      }
    }
  }

  /** The servers above i together went through no more epochs than there are of them. */
  lemma {:induction false} EpochsAbove(states: seq<State>, steps: seq<Step>, n: nat, i: Id)
    requires CollisionRun(states, steps) && n < |states|
    ensures |HeldAbove(states, i, n)| <= |Above(states[0], i)|
    decreases |Above(states[0], i)|
  {
    hide CollisionRun, HeldAbove, Held, Left, Own;
    var g := Above(states[0], i);
    if g == {} {
      NothingAbove(states, n, i);
    } else {
      var j := Least(g);
      assert Above(states[0], j) == g - {j};
      EpochsAbove(states, steps, n, j);
      LeftCounted(states, steps, n, j);
      SplitAbove(states, n, i, j);
      SubsetSize(HeldAbove(states, i, n), HeldAbove(states, j, n) + {Own(states[n], j)});
      UnionSize(HeldAbove(states, j, n), {Own(states[n], j)});
    }
  }

  lemma NothingAbove(states: seq<State>, n: nat, i: Id)
    requires n < |states| && Above(states[0], i) == {}
    ensures HeldAbove(states, i, n) == {}
  {
  }

  lemma SplitAbove(states: seq<State>, n: nat, i: Id, j: Id)
    requires n < |states| && j in Above(states[0], i) && Above(states[0], j) == Above(states[0], i) - {j}
    ensures HeldAbove(states, i, n) == Held(states, j, n) + HeldAbove(states, j, n)
  {
    var a, b := HeldAbove(states, i, n), Held(states, j, n) + HeldAbove(states, j, n);
    forall v | v in a ensures v in b {
      var k :| k in Above(states[0], i) && v in Held(states, k, n);
      if k != j {
        assert k in Above(states[0], j);
      }
    }
    forall v | v in b ensures v in a {
      if v in HeldAbove(states, j, n) {
        var k :| k in Above(states[0], j) && v in Held(states, k, n);
        assert k in Above(states[0], i);
      }
    }
  }

  /** A server with k greater names moves to a new configEpoch at most k times, in any run of any length. */
  lemma CollisionsEnd(states: seq<State>, steps: seq<Step>, n: nat, i: Id)
    requires CollisionRun(states, steps) && n < |states| && i in states[0].nodes
    ensures Bumps(states, i, n) <= |Above(states[0], i)|
  {
    LeftCounted(states, steps, n, i);
    EpochsAbove(states, steps, n, i);
    SubsetSize(Left(states, i, n), HeldAbove(states, i, n));
  }

  // ----- when nothing moves any more -----

  /** Every server knows every other and is not ahead of it. */
  ghost predicate ViewsCurrent(s: State) {
    forall i, j :: i in s.nodes && j in s.nodes ==> j in s.nodes[i].epochs && s.nodes[i].epochs[j] <= Own(s, j)
  }

  /** No ping that a server could send now would make another move. */
  ghost predicate Settled(s: State) {
    forall i, j :: i in s.nodes && j in s.nodes && i != j && j in s.nodes[j].epochs ==>
      !Moves(i, s.nodes[i], BuildHeader(j, s.nodes[j], j))
  }

  ghost predicate Moves(me: Id, n: Node, h: Header) {
    var n' := OnPing(me, n, h, true);
    me in n.epochs && me in n'.epochs && n'.epochs[me] != n.epochs[me]
  }

  /** Once the views are current, no collision is left to resolve if and only if all configEpochs are distinct. */
  lemma SettledMeansDistinct(s: State)
    requires EpochInv(s) && ViewsCurrent(s)
    ensures Settled(s) <==> forall i, j :: i in s.nodes && j in s.nodes && i != j ==> Own(s, i) != Own(s, j)
  {
    forall i, j | i in s.nodes && j in s.nodes && i < j
      ensures Moves(i, s.nodes[i], BuildHeader(j, s.nodes[j], j)) <==> Own(s, i) == Own(s, j)
      ensures !Moves(j, s.nodes[j], BuildHeader(i, s.nodes[i], i))
    {
      assert NodeOk(i, s.nodes[i]) && NodeOk(j, s.nodes[j]);
      OrderedMoves(s, i, j);
    }
    hide Moves, Own, EpochInv;
  }

  lemma OrderedMoves(s: State, i: Id, j: Id)
    requires EpochInv(s) && ViewsCurrent(s) && i in s.nodes && j in s.nodes && i < j
    requires i in s.nodes[i].epochs && j in s.nodes[j].epochs
    ensures Moves(i, s.nodes[i], BuildHeader(j, s.nodes[j], j)) <==> Own(s, i) == Own(s, j)
    ensures !Moves(j, s.nodes[j], BuildHeader(i, s.nodes[i], i))
  {
    assert NodeOk(i, s.nodes[i]) && NodeOk(j, s.nodes[j]);
    assert s.nodes[i].epochs[j] <= Own(s, j);
  }
}
