/**
 What masters know of each other's configuration epochs: as long as each speaks
 for itself, nobody believes another to be ahead of where it is.
 */
module ClusterViews {
  import opened ClusterEpochs
  import opened ClusterCollision

  /** Steps of masters, which put their own epoch into the headers they send, without elections. */
  predicate SpeaksForItself(t: Step) {
    match t
    case SendPing(from, _, master) => master == from
    case SendUpdate(from, _, master, _) => master == from
    case DeliverRequest(_, _, _) => false
    case FailoverCron(_, _, _, _) => false
    case _ => true
  }

  /** Nobody knows a later epoch of a server than the server has. */
  ghost predicate NodeBehind(s: State, n: Node) {
    forall j :: j in n.epochs && j in s.nodes ==> n.epochs[j] <= Own(s, j)
  }

  ghost predicate MsgBehind(s: State, m: Msg) {
    && m.hdr.sender in s.nodes && m.hdr.configEpoch <= Own(s, m.hdr.sender)
    && (m.Update? && m.about in s.nodes ==> m.reported <= Own(s, m.about))
  }

  ghost predicate NobodyAhead(s: State) {
    (forall i :: i in s.nodes ==> NodeBehind(s, s.nodes[i])) && forall e :: e in s.net ==> MsgBehind(s, e.msg)
  }

  /** Own epochs only grow, so what was behind stays behind. */
  ghost predicate OwnsGrow(s: State, r: State) {
    r.nodes.Keys == s.nodes.Keys && forall i :: i in s.nodes ==> Own(r, i) >= Own(s, i)
  }

  lemma StillBehind(s: State, r: State, n: Node, m: Msg)
    requires OwnsGrow(s, r)
    ensures NodeBehind(s, n) ==> NodeBehind(r, n)
    ensures MsgBehind(s, m) ==> MsgBehind(r, m)
  {
    hide Own;
  }

  /** A header that is behind leaves the view of the one who saw it behind. */
  lemma HeaderBehind(s: State, n: Node, h: Header)
    requires NodeBehind(s, n) && h.sender in s.nodes && h.configEpoch <= Own(s, h.sender)
    ensures NodeBehind(s, SeeHeader(n, h))
  {
    hide Own;
  }

  /** What a server learns from a packet that is behind leaves its view of the others behind. */
  lemma LearnsBehind(s: State, t: Step)
    requires NobodyAhead(s) && EpochInv(s) && Enabled(s, t) && SpeaksForItself(t) && Actor(t) in s.nodes
    ensures var me, n, n' := Actor(t), s.nodes[Actor(t)], NewNode(s.nodes[Actor(t)], t);
            && me in n.epochs && me in n'.epochs && n'.epochs[me] >= n.epochs[me]
            && forall j :: j in n'.epochs && j in s.nodes && j != me ==> n'.epochs[j] <= Own(s, j)
  {
    var me, n := Actor(t), s.nodes[Actor(t)];
    assert NodeOk(me, n) && NodeBehind(s, n);
    if t.DeliverPing? || t.DeliverUpdate? || t.DeliverAck? {
      assert MsgBehind(s, t.env.msg);
      HeaderBehind(s, n, t.env.msg.hdr);
      hide Own, EpochInv, NobodyAhead;
    } else {
      hide OnPing, OnUpdate, OnAuthAck, OnAuthRequest, OnFailoverCron, Own, EpochInv, NobodyAhead;
    }
  }

  lemma SentBehind(s: State, t: Step, e: Envelope)
    requires NobodyAhead(s) && Enabled(s, t) && SpeaksForItself(t) && Actor(t) in s.nodes
    requires e in Sent(s.nodes[Actor(t)], NewNode(s.nodes[Actor(t)], t), t)
    ensures MsgBehind(s, e.msg)
  {
    assert NodeBehind(s, s.nodes[Actor(t)]);
  }

  lemma OwnAfterStep(s: State, t: Step)
    requires NobodyAhead(s) && EpochInv(s) && Enabled(s, t) && SpeaksForItself(t)
    ensures OwnsGrow(s, Apply(s, t))
  {
    if Actor(t) in s.nodes {
      LearnsBehind(s, t);
    }
    hide NewNode, Sent, NodeBehind, MsgBehind, EpochInv, Enabled;
  }

  lemma NodesStayBehind(s: State, t: Step)
    requires NobodyAhead(s) && EpochInv(s) && Enabled(s, t) && SpeaksForItself(t)
    ensures var r := Apply(s, t); forall i :: i in r.nodes ==> NodeBehind(r, r.nodes[i])
  {
    var r, me := Apply(s, t), Actor(t);
    OwnAfterStep(s, t);
    if me in s.nodes {
      LearnsBehind(s, t);
    }
    assert forall i :: i in r.nodes && i != me ==> i in s.nodes && r.nodes[i] == s.nodes[i];
    assert me in s.nodes ==> r.nodes[me] == NewNode(s.nodes[me], t);
    hide Apply, NewNode, EpochInv, Enabled, SpeaksForItself, MsgBehind, Actor;
    forall i | i in r.nodes ensures NodeBehind(r, r.nodes[i]) {
      if i != me {
        StillBehind(s, r, s.nodes[i], Ping(Header(i, 0, 0)));
      }
    }
  }

  lemma NetStaysBehind(s: State, t: Step)
    requires NobodyAhead(s) && EpochInv(s) && Enabled(s, t) && SpeaksForItself(t)
    ensures var r := Apply(s, t); forall e :: e in r.net ==> MsgBehind(r, e.msg)
  {
    var r := Apply(s, t);
    OwnAfterStep(s, t);
    assert forall e :: e in r.net && e !in s.net ==>
      Actor(t) in s.nodes && e in Sent(s.nodes[Actor(t)], NewNode(s.nodes[Actor(t)], t), t) by { hide NewNode, Sent, Own; }
    hide Apply, NewNode, Sent, EpochInv, Enabled, SpeaksForItself, MsgBehind, NodeBehind, Actor;
    forall e | e in r.net ensures MsgBehind(r, e.msg) {
      if e !in s.net {
        SentBehind(s, t, e);
      }
      StillBehind(s, r, Node(0, 0, 0, 0, false, map[]), e.msg);
    }
  }

  lemma StepKeepsBehind(s: State, t: Step)
    requires NobodyAhead(s) && EpochInv(s) && Enabled(s, t) && SpeaksForItself(t)
    ensures NobodyAhead(Apply(s, t))
  {
    NodesStayBehind(s, t);
    NetStaysBehind(s, t);
    hide Apply, NodeBehind, MsgBehind, EpochInv, Enabled, SpeaksForItself;
  }

  lemma NobodyAheadAtFirst(s: State)
    requires Initial(s)
    ensures NobodyAhead(s)
  {
  }

  /** In every run of masters that speak for themselves, nobody ever knows a later epoch of a server than it has. */
  lemma {:induction false} NobodyIsAhead(states: seq<State>, steps: seq<Step>, n: nat)
    requires Run(states, steps) && n < |states| && forall i :: 0 <= i < |steps| ==> SpeaksForItself(steps[i])
    ensures NobodyAhead(states[n])
  {
    hide Run, NobodyAhead, SpeaksForItself, Apply, Enabled, Initial, EpochInv;
    if n > 0 {
      RunLink(states, steps, n);
      NobodyIsAhead(states, steps, n - 1);
      EpochInvariant(states, steps, n - 1);
      StepKeepsBehind(states[n - 1], steps[n - 1]);
    } else {
      RunStart(states, steps);
      NobodyAheadAtFirst(states[0]);
    }
  }
}
