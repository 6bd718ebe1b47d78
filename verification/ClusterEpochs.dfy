/**
 The epochs of Redis Cluster as a step system: nodes that exchange messages
 over links which may delay or lose them, and the handlers of cluster.c as far
 as they read or write currentEpoch, the configEpoch of every known node,
 lastVoteEpoch and the failover election fields.

 Everything else that a handler consults (roles, failure flags, slot owners,
 clocks) enters as an argument of the step, so what is proved holds whatever
 that surrounding state is. Node names are numbers in the order of memcmp.
 */
module ClusterEpochs {

  type Id = nat

  /** The epoch state of one server; `epochs` holds the configEpoch of each node it knows, itself included. */
  datatype Node = Node(
    currentEpoch: nat,
    lastVoteEpoch: nat,
    authEpoch: nat,
    authCount: nat,
    authSent: bool,
    epochs: map<Id, nat>)

  datatype Header = Header(sender: Id, currentEpoch: nat, configEpoch: nat)

  datatype Msg =
    | Ping(hdr: Header)
    | Update(hdr: Header, about: Id, reported: nat)
    | AuthRequest(hdr: Header)
    | AuthAck(hdr: Header)

  datatype Envelope = Envelope(to: Id, msg: Msg)

  function Max(a: nat, b: nat): nat {
    if a < b then b else a
  }

  // ----- handlers -----

  /** The epoch part of clusterProcessPacket, run for every packet of a known sender. */
  function SeeHeader(n: Node, h: Header): Node {
    if h.sender !in n.epochs then n else
      n.(currentEpoch := Max(n.currentEpoch, h.currentEpoch),
         epochs := n.epochs[h.sender := Max(n.epochs[h.sender], h.configEpoch)])
  }

  /** clusterHandleConfigEpochCollision, for masters: the smaller name of the two moves to a new epoch. */
  function HandleCollision(me: Id, n: Node, sender: Id): Node {
    if sender !in n.epochs || me !in n.epochs || n.epochs[sender] != n.epochs[me] || sender <= me then n
    else n.(currentEpoch := n.currentEpoch + 1, epochs := n.epochs[me := n.currentEpoch + 1])
  }

  /** PING, PONG and MEET; `bothMasters` says that I and the sender are masters in my view. */
  function OnPing(me: Id, n: Node, h: Header, bothMasters: bool): Node {
    var m := SeeHeader(n, h);
    if h.sender in m.epochs && bothMasters && me in m.epochs && h.configEpoch == m.epochs[me]
    then HandleCollision(me, m, h.sender) else m
  }

  /** UPDATE: takes over a newer configuration epoch reported about a node. */
  function OnUpdate(n: Node, h: Header, about: Id, reported: nat): Node {
    var m := SeeHeader(n, h);
    if h.sender !in m.epochs || about !in m.epochs || m.epochs[about] >= reported then m
    else m.(epochs := m.epochs[about := reported])
  }

  /** What a voter finds when it is asked for its vote. */
  datatype VoteView = VoteView(
    iCanVote: bool,          // a master that serves at least one slot
    senderIsMaster: bool,
    masterKnown: bool,
    masterFailed: bool,
    forceAck: bool,
    votedRecently: bool,     // for a replica of the same master, within twice the node timeout
    claimedEpochs: set<nat>) // configEpochs of the present owners of the slots claimed

  /** clusterSendFailoverAuthIfNeeded: the conditions for granting a vote, in the order they are tested. */
  predicate Grants(n: Node, h: Header, v: VoteView) {
    && v.iCanVote
    && h.currentEpoch >= n.currentEpoch
    && n.lastVoteEpoch != n.currentEpoch
    && !v.senderIsMaster && v.masterKnown && (v.masterFailed || v.forceAck)
    && !v.votedRecently
    && forall e :: e in v.claimedEpochs ==> e <= h.configEpoch
  }

  predicate VoteGranted(n: Node, h: Header, v: VoteView) {
    h.sender in n.epochs && Grants(SeeHeader(n, h), h, v)
  }

  function OnAuthRequest(n: Node, h: Header, v: VoteView): Node {
    var m := SeeHeader(n, h);
    if VoteGranted(n, h, v) then m.(lastVoteEpoch := m.currentEpoch) else m
  }

  /** A vote is counted from a master with slots whose epoch is not behind the election. */
  predicate AckCounted(n: Node, h: Header, senderVotes: bool) {
    h.sender in n.epochs && senderVotes && h.currentEpoch >= n.authEpoch
  }

  function OnAuthAck(n: Node, h: Header, senderVotes: bool): Node {
    var m := SeeHeader(n, h);
    if AckCounted(n, h, senderVotes) then m.(authCount := m.authCount + 1) else m
  }

  /** What clusterHandleSlaveFailover finds: whether it may act, and how old the last attempt is. */
  datatype FailoverView = FailoverView(
    eligible: bool,       // a slave whose master fails, or a manual failover, with data recent enough
    retryElapsed: bool,   // auth_age > auth_retry_time
    delayElapsed: bool,   // the scheduled start of the election has come
    expired: bool,        // auth_age > auth_timeout
    size: nat)            // masters with slots, as this node counts them

  datatype Attempt = Idle | Reset | Start | Win

  function Quorum(size: nat): nat {
    size / 2 + 1
  }

  /** The branch that clusterHandleSlaveFailover takes. */
  function Decide(n: Node, v: FailoverView): Attempt {
    if !v.eligible then Idle
    else if v.retryElapsed then Reset
    else if !v.delayElapsed then Idle
    else if v.expired then Idle
    else if !n.authSent then Start
    else if n.authCount >= Quorum(v.size) then Win
    else Idle
  }

  function OnFailoverCron(me: Id, n: Node, v: FailoverView): Node {
    match Decide(n, v)
    case Idle => n
    case Reset => n.(authCount := 0, authSent := false)
    case Start => n.(currentEpoch := n.currentEpoch + 1, authEpoch := n.currentEpoch + 1, authSent := true)
    case Win =>
      if me in n.epochs && n.epochs[me] < n.authEpoch then n.(epochs := n.epochs[me := n.authEpoch]) else n
  }

  /** clusterGetMaxEpoch. */
  ghost predicate IsMaxEpoch(n: Node, m: nat) {
    && m >= n.currentEpoch && (forall i :: i in n.epochs ==> m >= n.epochs[i])
    && (m == n.currentEpoch || exists i :: i in n.epochs && n.epochs[i] == m)
  }

  /** clusterBumpConfigEpochWithoutConsensus, given the maximum epoch found. */
  function Bump(me: Id, n: Node, maxEpoch: nat): Node {
    if me in n.epochs && (n.epochs[me] == 0 || n.epochs[me] != maxEpoch)
    then n.(currentEpoch := n.currentEpoch + 1, epochs := n.epochs[me := n.currentEpoch + 1])
    else n
  }

  /** CLUSTER SET-CONFIG-EPOCH, allowed only on a node that knows no other and has no epoch yet. */
  function SetConfigEpoch(me: Id, n: Node, e: nat): Node {
    if n.epochs == map[me := 0] then n.(epochs := map[me := e], currentEpoch := Max(n.currentEpoch, e)) else n
  }

  /** clusterGetMaxEpoch as the loop over the node table. */
  method GetMaxEpoch(n: Node) returns (m: nat)
    ensures IsMaxEpoch(n, m)
  {
    m := 0;
    var left := n.epochs.Keys;
    while left != {}
      invariant left <= n.epochs.Keys
      invariant forall i :: i in n.epochs && i !in left ==> m >= n.epochs[i]
      invariant m == 0 || exists i :: i in n.epochs && n.epochs[i] == m
      decreases left
    {
      var i :| i in left;
      if n.epochs[i] > m {
        m := n.epochs[i];
      }
      left := left - {i};
    }
    if m < n.currentEpoch {
      m := n.currentEpoch;
    }
  }

  // ----- the cluster -----

  /** A won election: who, in which epoch, the voters counted, and acks counted before the election began. */
  datatype Victory = Victory(winner: Id, epoch: nat, voters: set<Id>, stale: nat)

  /**
   The servers and the messages in flight. The other fields record the past of
   the run: the vote each server gave in each epoch; for each candidate, the
   servers whose acks it counted since its election began, and the number of
   acks it counted between its last reset and that beginning; elections won.
   */
  datatype State = State(
    nodes: map<Id, Node>,
    net: multiset<Envelope>,
    votes: map<(Id, nat), Id>,
    counted: map<Id, set<Id>>,
    stale: map<Id, nat>,
    wins: set<Victory>)

  datatype Step =
    | SendPing(from: Id, to: Id, master: Id)             // master: myself or, on a replica, its master
    | SendUpdate(from: Id, to: Id, master: Id, about: Id)
    | DeliverPing(env: Envelope, bothMasters: bool)
    | DeliverUpdate(env: Envelope)
    | DeliverRequest(env: Envelope, view: VoteView, master: Id)
    | DeliverAck(env: Envelope, senderVotes: bool)
    | Lose(env: Envelope)
    | FailoverCron(node: Id, fview: FailoverView, all: set<Id>, master: Id)
    | BumpEpoch(node: Id, maxEpoch: nat)
    | AssignEpoch(node: Id, epoch: nat)
    | Learn(node: Id, id: Id)
    | Forget(node: Id, id: Id)

  /** clusterBuildMessageHdr. */
  function BuildHeader(me: Id, n: Node, master: Id): Header
    requires master in n.epochs
  {
    Header(me, n.currentEpoch, n.epochs[master])
  }

  ghost predicate Enabled(s: State, t: Step) {
    match t
    case SendPing(from, to, master) => from in s.nodes && master in s.nodes[from].epochs
    case SendUpdate(from, to, master, about) =>
      from in s.nodes && master in s.nodes[from].epochs && about in s.nodes[from].epochs
    case DeliverPing(env, _) => env in s.net && env.to in s.nodes && env.msg.Ping?
    case DeliverUpdate(env) => env in s.net && env.to in s.nodes && env.msg.Update?
    case DeliverRequest(env, _, master) =>
      && env in s.net && env.to in s.nodes && env.msg.AuthRequest?
      && master in SeeHeader(s.nodes[env.to], env.msg.hdr).epochs
    case DeliverAck(env, _) => env in s.net && env.to in s.nodes && env.msg.AuthAck?
    case Lose(env) => env in s.net
    case FailoverCron(node, _, _, master) => node in s.nodes && master in s.nodes[node].epochs
    case BumpEpoch(node, maxEpoch) => node in s.nodes && IsMaxEpoch(s.nodes[node], maxEpoch)
    case AssignEpoch(node, _) => node in s.nodes
    case Learn(node, id) => node in s.nodes && id !in s.nodes[node].epochs
    case Forget(node, id) => node in s.nodes && id != node
  }

  /** The server whose state a step may change. */
  function Actor(t: Step): Id {
    match t
    case SendPing(from, _, _) => from
    case SendUpdate(from, _, _, _) => from
    case DeliverPing(env, _) => env.to
    case DeliverUpdate(env) => env.to
    case DeliverRequest(env, _, _) => env.to
    case DeliverAck(env, _) => env.to
    case Lose(env) => env.to
    case FailoverCron(node, _, _, _) => node
    case BumpEpoch(node, _) => node
    case AssignEpoch(node, _) => node
    case Learn(node, _) => node
    case Forget(node, _) => node
  }

  /** What the step makes of its server. */
  function NewNode(n: Node, t: Step): Node {
    var me := Actor(t);
    match t
    case DeliverPing(env, bothMasters) => OnPing(me, n, env.msg.hdr, bothMasters)
    case DeliverUpdate(env) => if env.msg.Update? then OnUpdate(n, env.msg.hdr, env.msg.about, env.msg.reported) else n
    case DeliverRequest(env, view, _) => OnAuthRequest(n, env.msg.hdr, view)
    case DeliverAck(env, senderVotes) => OnAuthAck(n, env.msg.hdr, senderVotes)
    case FailoverCron(_, fview, _, _) => OnFailoverCron(me, n, fview)
    case BumpEpoch(_, maxEpoch) => Bump(me, n, maxEpoch)
    case AssignEpoch(_, epoch) => SetConfigEpoch(me, n, epoch)
    case Learn(_, id) => n.(epochs := n.epochs[id := 0])
    case Forget(_, id) => n.(epochs := n.epochs - {id})
    case _ => n
  }

  /** The messages a step consumes. */
  function Taken(t: Step): multiset<Envelope> {
    if t.DeliverPing? || t.DeliverUpdate? || t.DeliverRequest? || t.DeliverAck? || t.Lose? then multiset{t.env}
    else multiset{}
  }

  /** The request of an election, one copy for every node of `all`. */
  function Broadcast(all: set<Id>, m: Msg): multiset<Envelope> {
    multiset(set i | i in all :: Envelope(i, m))
  }

  /** The messages a step sends, built from its server's state before (n) and after (n'). */
  function Sent(n: Node, n': Node, t: Step): multiset<Envelope> {
    match t
    case SendPing(from, to, master) =>
      if master in n.epochs then multiset{Envelope(to, Ping(BuildHeader(from, n, master)))} else multiset{}
    case SendUpdate(from, to, master, about) =>
      if master in n.epochs && about in n.epochs
      then multiset{Envelope(to, Update(BuildHeader(from, n, master), about, n.epochs[about]))} else multiset{}
    case DeliverRequest(env, view, master) =>
      if VoteGranted(n, env.msg.hdr, view) && master in n'.epochs
      then multiset{Envelope(env.msg.hdr.sender, AuthAck(BuildHeader(env.to, n', master)))} else multiset{}
    case FailoverCron(node, fview, all, master) =>
      if Decide(n, fview).Start? && master in n'.epochs
      then Broadcast(all, AuthRequest(BuildHeader(node, n', master))) else multiset{}
    case _ => multiset{}
  }

  function Counted(s: State, i: Id): set<Id> {
    if i in s.counted then s.counted[i] else {}
  }

  function Stale(s: State, i: Id): nat {
    if i in s.stale then s.stale[i] else 0
  }

  function NewVotes(s: State, n: Node, n': Node, t: Step): map<(Id, nat), Id> {
    if t.DeliverRequest? && VoteGranted(n, t.env.msg.hdr, t.view)
    then s.votes[(t.env.to, n'.currentEpoch) := t.env.msg.hdr.sender] else s.votes
  }

  function NewCounted(s: State, n: Node, t: Step): map<Id, set<Id>> {
    var me := Actor(t);
    if t.DeliverAck? && AckCounted(n, t.env.msg.hdr, t.senderVotes) && n.authSent
    then s.counted[me := Counted(s, me) + {t.env.msg.hdr.sender}]
    else if t.FailoverCron? && Decide(n, t.fview).Reset? then s.counted[me := {}]
    else s.counted
  }

  function NewStale(s: State, n: Node, t: Step): map<Id, nat> {
    var me := Actor(t);
    if t.DeliverAck? && AckCounted(n, t.env.msg.hdr, t.senderVotes) && !n.authSent
    then s.stale[me := Stale(s, me) + 1]
    else if t.FailoverCron? && Decide(n, t.fview).Reset? then s.stale[me := 0]
    else s.stale
  }

  function NewWins(s: State, n: Node, t: Step): set<Victory> {
    var me := Actor(t);
    if t.FailoverCron? && Decide(n, t.fview).Win?
    then s.wins + {Victory(me, n.authEpoch, Counted(s, me), Stale(s, me))} else s.wins
  }

  /** One step of the cluster. A message to a server outside the cluster can only be lost. */
  function Apply(s: State, t: Step): State {
    var me := Actor(t);
    if me !in s.nodes then s.(net := s.net - Taken(t)) else
      var n := s.nodes[me];
      var n' := NewNode(n, t);
      State(s.nodes[me := n'], s.net - Taken(t) + Sent(n, n', t),
            NewVotes(s, n, n', t), NewCounted(s, n, t), NewStale(s, n, t), NewWins(s, n, t))
  }

  /** A fresh server: all epochs zero, itself among the nodes it knows. */
  ghost predicate IsFresh(me: Id, n: Node) {
    && n == Node(0, 0, 0, 0, false, n.epochs) && me in n.epochs
    && forall i :: i in n.epochs ==> n.epochs[i] == 0
  }

  ghost predicate Initial(s: State) {
    && (forall i :: i in s.nodes ==> IsFresh(i, s.nodes[i]))
    && s.net == multiset{} && s.votes == map[] && s.counted == map[] && s.stale == map[] && s.wins == {}
  }

  /** A run of the cluster from its creation: each state follows from the one before by an enabled step. */
  ghost predicate Run(states: seq<State>, steps: seq<Step>) {
    && |states| == |steps| + 1 && Initial(states[0])
    && forall i :: 0 <= i < |steps| ==> Enabled(states[i], steps[i]) && states[i + 1] == Apply(states[i], steps[i])
  }

  // ----- the epoch invariant -----

  /** No server knows a configEpoch above its own currentEpoch. */
  ghost predicate NodeOk(me: Id, n: Node) {
    && me in n.epochs
    && (forall i :: i in n.epochs ==> n.epochs[i] <= n.currentEpoch)
    && n.lastVoteEpoch <= n.currentEpoch && n.authEpoch <= n.currentEpoch
  }

  /** No message carries a configEpoch above the currentEpoch in its header. */
  predicate MsgOk(m: Msg) {
    m.hdr.configEpoch <= m.hdr.currentEpoch && (m.Update? ==> m.reported <= m.hdr.currentEpoch)
  }

  ghost predicate EpochInv(s: State) {
    && (forall i :: i in s.nodes ==> NodeOk(i, s.nodes[i]))
    && (forall e :: e in s.net ==> MsgOk(e.msg))
  }

  lemma SeeHeaderOk(me: Id, n: Node, h: Header)
    requires NodeOk(me, n) && h.configEpoch <= h.currentEpoch
    ensures NodeOk(me, SeeHeader(n, h))
  {
  }

  lemma PacketsKeepNodeOk(me: Id, n: Node, h: Header, bothMasters: bool, v: VoteView, senderVotes: bool)
    requires NodeOk(me, n) && h.configEpoch <= h.currentEpoch
    ensures NodeOk(me, OnPing(me, n, h, bothMasters))
    ensures NodeOk(me, OnAuthRequest(n, h, v))
    ensures NodeOk(me, OnAuthAck(n, h, senderVotes))
  {
    SeeHeaderOk(me, n, h);
    hide SeeHeader, Grants;
  }

  lemma UpdateKeepsNodeOk(me: Id, n: Node, h: Header, about: Id, reported: nat)
    requires NodeOk(me, n) && h.configEpoch <= h.currentEpoch && reported <= h.currentEpoch
    ensures NodeOk(me, OnUpdate(n, h, about, reported))
  {
    SeeHeaderOk(me, n, h);
  }

  lemma CronKeepsNodeOk(me: Id, n: Node, v: FailoverView)
    requires NodeOk(me, n)
    ensures NodeOk(me, OnFailoverCron(me, n, v))
  {
  }

  lemma CommandsKeepNodeOk(me: Id, n: Node, m: nat, id: Id)
    requires NodeOk(me, n)
    ensures NodeOk(me, Bump(me, n, m)) && NodeOk(me, SetConfigEpoch(me, n, m))
    ensures NodeOk(me, n.(epochs := n.epochs[id := if id in n.epochs then n.epochs[id] else 0]))
    ensures id != me ==> NodeOk(me, n.(epochs := n.epochs - {id}))
  {
  }

  lemma NewNodeOk(n: Node, t: Step)
    requires NodeOk(Actor(t), n)
    requires t.Learn? ==> t.id !in n.epochs
    requires t.Forget? ==> t.id != t.node
    requires t.DeliverPing? || t.DeliverUpdate? || t.DeliverRequest? || t.DeliverAck? ==> MsgOk(t.env.msg)
    ensures NodeOk(Actor(t), NewNode(n, t))
  {
    hide OnPing, OnUpdate, OnAuthRequest, OnAuthAck, OnFailoverCron, Bump, SetConfigEpoch, SeeHeader, Grants, NodeOk;
    var me := Actor(t);
    var noView := VoteView(false, false, false, false, false, false, {});
    match t
    case DeliverPing(env, bothMasters) => PacketsKeepNodeOk(me, n, env.msg.hdr, bothMasters, noView, false);
    case DeliverUpdate(env) =>
      if env.msg.Update? {
        UpdateKeepsNodeOk(me, n, env.msg.hdr, env.msg.about, env.msg.reported);
      }
    case DeliverRequest(env, view, master) => PacketsKeepNodeOk(me, n, env.msg.hdr, false, view, false);
    case DeliverAck(env, senderVotes) => PacketsKeepNodeOk(me, n, env.msg.hdr, false, noView, senderVotes);
    case FailoverCron(node, fview, all, master) => CronKeepsNodeOk(me, n, fview);
    case BumpEpoch(node, m) => CommandsKeepNodeOk(me, n, m, 0);
    case AssignEpoch(node, e) => CommandsKeepNodeOk(me, n, e, 0);
    case Learn(node, id) => CommandsKeepNodeOk(me, n, 0, id);
    case Forget(node, id) => CommandsKeepNodeOk(me, n, 0, id);
    case _ =>
  }

  lemma SentOk(n: Node, n': Node, t: Step)
    requires NodeOk(Actor(t), n) && NodeOk(Actor(t), n')
    ensures forall e :: e in Sent(n, n', t) ==> MsgOk(e.msg)
  {
    hide VoteGranted, Decide;
  }

  lemma StepKeepsEpochInv(s: State, t: Step)
    requires EpochInv(s) && Enabled(s, t)
    ensures EpochInv(Apply(s, t))
  {
    hide NewNode, Sent, NodeOk, NewVotes, NewCounted, NewStale, NewWins, MsgOk;
    if Actor(t) in s.nodes {
      var n := s.nodes[Actor(t)];
      NewNodeOk(n, t);
      SentOk(n, NewNode(n, t), t);
    }
  }

  lemma RunLink(states: seq<State>, steps: seq<Step>, n: nat)
    requires Run(states, steps) && 0 < n < |states|
    ensures |states| == |steps| + 1 && Enabled(states[n - 1], steps[n - 1])
    ensures states[n] == Apply(states[n - 1], steps[n - 1])
  {
    hide Initial, Enabled, Apply;
  }

  lemma RunStart(states: seq<State>, steps: seq<Step>)
    requires Run(states, steps)
    ensures states != [] && Initial(states[0])
  {
    hide Initial, Enabled, Apply;
  }

  lemma {:induction false} EpochInvariant(states: seq<State>, steps: seq<Step>, n: nat)
    requires Run(states, steps) && n < |states|
    ensures EpochInv(states[n])
  {
    hide *;
    if n > 0 {
      RunLink(states, steps, n);
      EpochInvariant(states, steps, n - 1);
      StepKeepsEpochInv(states[n - 1], steps[n - 1]);
    } else {
      RunStart(states, steps);
      EpochStart(states[0]);
    }
  }

  lemma EpochStart(s: State)
    requires Initial(s)
    ensures EpochInv(s)
  {
  }

  /** In every reachable state the maximum epoch found is currentEpoch, and a bump exceeds all epochs known locally. */
  lemma BumpExceedsKnown(states: seq<State>, steps: seq<Step>, n: nat, me: Id, m: nat)
    requires Run(states, steps) && n < |states| && me in states[n].nodes && IsMaxEpoch(states[n].nodes[me], m)
    ensures m == states[n].nodes[me].currentEpoch
    ensures var a, b := states[n].nodes[me], Bump(me, states[n].nodes[me], m);
            && me in a.epochs
            && (b == a <==> a.epochs[me] == m && m != 0)
            && (b != a ==> forall i :: i in a.epochs ==> b.epochs[me] > a.epochs[i])
  {
    EpochInvariant(states, steps, n);
    assert NodeOk(me, states[n].nodes[me]);
  }
}
