/**
 Who can win an election, and what winning is worth: a candidate that too many
 masters would refuse never wins, and a winner announces its slots under the
 epoch that it won from then on.
 */
module ClusterWinners {
  import opened Basics
  import opened ClusterEpochs
  import opened ClusterElection

  // ----- what a winner announces -----

  /** Every winner of an election has the epoch that it won, or a later one. */
  ghost predicate WinnersHold(s: State) {
    forall w :: w in s.wins ==> Holds(s, w)
  }

  ghost predicate Holds(s: State, w: Victory) {
    w.winner in s.nodes && w.winner in s.nodes[w.winner].epochs && s.nodes[w.winner].epochs[w.winner] >= w.epoch
  }

  lemma PacketsGrow(me: Id, n: Node, h: Header, bothMasters: bool, v: VoteView, senderVotes: bool, about: Id, reported: nat)
    requires NodeOk(me, n)
    ensures me in OnPing(me, n, h, bothMasters).epochs && OnPing(me, n, h, bothMasters).epochs[me] >= n.epochs[me]
    ensures me in OnUpdate(n, h, about, reported).epochs && OnUpdate(n, h, about, reported).epochs[me] >= n.epochs[me]
    ensures me in OnAuthRequest(n, h, v).epochs && OnAuthRequest(n, h, v).epochs[me] >= n.epochs[me]
    ensures me in OnAuthAck(n, h, senderVotes).epochs && OnAuthAck(n, h, senderVotes).epochs[me] >= n.epochs[me]
  {
    hide Grants;
  }

  /** A server's own epoch never falls, and a win lifts it to the epoch won. */
  lemma OwnGrows(n: Node, t: Step)
    requires NodeOk(Actor(t), n) && (t.Forget? ==> t.id != t.node) && (t.Learn? ==> t.id !in n.epochs)
    ensures var n' := NewNode(n, t);
            && Actor(t) in n'.epochs && n'.epochs[Actor(t)] >= n.epochs[Actor(t)]
            && (t.FailoverCron? && Decide(n, t.fview).Win? ==> n'.epochs[Actor(t)] >= n.authEpoch)
  {
    if t.DeliverPing? {
      PacketsGrow(Actor(t), n, t.env.msg.hdr, t.bothMasters, VoteView(false, false, false, false, false, false, {}), false, 0, 0);
    } else if t.DeliverUpdate? && t.env.msg.Update? {
      PacketsGrow(Actor(t), n, t.env.msg.hdr, false, VoteView(false, false, false, false, false, false, {}), false,
                  t.env.msg.about, t.env.msg.reported);
    } else if t.DeliverRequest? {
      PacketsGrow(Actor(t), n, t.env.msg.hdr, false, t.view, false, 0, 0);
    } else if t.DeliverAck? {
      PacketsGrow(Actor(t), n, t.env.msg.hdr, false, VoteView(false, false, false, false, false, false, {}), t.senderVotes, 0, 0);
    }
    hide OnPing, OnUpdate, OnAuthRequest, OnAuthAck;
  }

  lemma StepKeepsWinners(s: State, t: Step)
    requires EpochInv(s) && WinnersHold(s) && Enabled(s, t)
    ensures WinnersHold(Apply(s, t))
  {
    var s', me := Apply(s, t), Actor(t);
    if me in s.nodes {
      assert NodeOk(me, s.nodes[me]);
      OwnGrows(s.nodes[me], t);
    }
    hide NewNode, Sent, NewVotes, NewCounted, NewStale, EpochInv, Decide;
    forall w | w in s'.wins ensures Holds(s', w) {
      if w in s.wins {
        assert Holds(s, w);
      }
    }
  }

  lemma NoWinnersYet(s: State)
    requires Initial(s)
    ensures WinnersHold(s)
  {
  }

  /** In every state of every run, every winner so far has at least the epoch that it won. */
  lemma {:induction false} WinnersKeepTheirEpoch(states: seq<State>, steps: seq<Step>, n: nat)
    requires Run(states, steps) && n < |states|
    ensures WinnersHold(states[n])
  {
    hide *;
    if n > 0 {
      RunLink(states, steps, n);
      EpochInvariant(states, steps, n - 1);
      WinnersKeepTheirEpoch(states, steps, n - 1);
      StepKeepsWinners(states[n - 1], steps[n - 1]);
    } else {
      RunStart(states, steps);
      NoWinnersYet(states[0]);
    }
  }

  /** Whatever a winner sends for itself from then on carries that epoch in its header, or a later one. */
  lemma WinnerAnnounces(states: seq<State>, steps: seq<Step>, n: nat, w: Victory, to: Id)
    requires Run(states, steps) && n < |steps| && w in states[n].wins
    requires steps[n] == SendPing(w.winner, to, w.winner)
    ensures exists e :: e in states[n + 1].net && e.to == to && e.msg.Ping? && e.msg.hdr.sender == w.winner
                        && e.msg.hdr.configEpoch >= w.epoch
    ensures forall e :: e in states[n + 1].net && e !in states[n].net ==> e.msg.hdr.configEpoch >= w.epoch
  {
    RunLink(states, steps, n + 1);
    WinnersKeepTheirEpoch(states, steps, n);
    var s := states[n];
    assert Holds(s, w);
    var h := BuildHeader(w.winner, s.nodes[w.winner], w.winner);
    assert Envelope(to, Ping(h)) in states[n + 1].net;
  }

  // ----- who cannot win -----

  /** A voter with this view has a reason to refuse; a slot claimed has an owner with a later epoch, for one. */
  predicate Refuses(h: Header, v: VoteView) {
    || !v.iCanVote || v.senderIsMaster || !v.masterKnown || (!v.masterFailed && !v.forceAck) || v.votedRecently
    || exists e :: e in v.claimedEpochs && e > h.configEpoch
  }

  lemma RefusalStands(n: Node, h: Header, v: VoteView)
    requires Refuses(h, v)
    ensures !VoteGranted(n, h, v)
  {
  }

  /** Whenever a request of c for epoch e reaches v, it is refused. */
  ghost predicate AlwaysRefuses(steps: seq<Step>, v: Id, c: Id, e: nat) {
    forall i :: 0 <= i < |steps| && IsRequest(steps[i], v, c, e) ==> Refuses(steps[i].env.msg.hdr, steps[i].view)
  }

  predicate IsRequest(t: Step, v: Id, c: Id, e: nat) {
    t.DeliverRequest? && t.env.to == v && t.env.msg.hdr.sender == c && t.env.msg.hdr.currentEpoch == e
  }

  /** A new vote answers a request for it that was granted. */
  lemma NewVoteGranted(s: State, t: Step, v: Id, e: nat, c: Id)
    requires EpochInv(s) && VotesOk(s) && Enabled(s, t) && VotedFor(Apply(s, t), v, e, c) && !VotedFor(s, v, e, c)
    ensures IsRequest(t, v, c, e) && v in s.nodes && VoteGranted(s.nodes[v], t.env.msg.hdr, t.view)
  {
    hide Grants, Sent, NewCounted, NewStale, NewWins;
    if t.DeliverRequest? && VoteGranted(s.nodes[t.env.to], t.env.msg.hdr, t.view) {
      VoteIsNew(s, t);
    }
    hide NewNode, VoteGranted, EpochInv, VotesOk, Enabled;
  }

  lemma {:induction false} RefusedMeansNoVote(states: seq<State>, steps: seq<Step>, n: nat, v: Id, e: nat, c: Id)
    requires Run(states, steps) && n < |states| && AlwaysRefuses(steps, v, c, e)
    ensures !VotedFor(states[n], v, e, c)
  {
    hide *;
    if n > 0 {
      RefusedMeansNoVote(states, steps, n - 1, v, e, c);
      RunLink(states, steps, n);
      EpochInvariant(states, steps, n - 1);
      ElectionInvariant(states, steps, n - 1);
      if VotedFor(states[n], v, e, c) {
        ElectionVotes(states[n - 1]);
        NewVoteGranted(states[n - 1], steps[n - 1], v, e, c);
        NeverGranted(steps, n - 1, v, c, e, states[n - 1].nodes[v]);
      }
    } else {
      RunStart(states, steps);
      NoVotesYet(states[0], v, e, c);
    }
  }

  lemma ElectionVotes(s: State)
    requires ElectionInv(s)
    ensures VotesOk(s)
  {
  }

  lemma NoVotesYet(s: State, v: Id, e: nat, c: Id)
    requires Initial(s)
    ensures !VotedFor(s, v, e, c)
  {
  }

  lemma NeverGranted(steps: seq<Step>, i: nat, v: Id, c: Id, e: nat, n: Node)
    requires AlwaysRefuses(steps, v, c, e) && i < |steps| && IsRequest(steps[i], v, c, e)
    ensures !VoteGranted(n, steps[i].env.msg.hdr, steps[i].view)
  {
    RefusalStands(n, steps[i].env.msg.hdr, steps[i].view);
  }

  /**
   A candidate that the voters `against` always refuse, be it because it claims
   slots that they know under a later epoch, wins only with late acks in their
   place: without them it wins against fewer than a blocking number alone.
   */
  lemma RefusedCandidateLoses(states: seq<State>, steps: seq<Step>, voters: set<Id>, n: nat, w: Victory, against: set<Id>)
    requires Run(states, steps) && VotersFixed(states, steps, voters) && n < |states| && w in states[n].wins
    requires against <= voters && forall v :: v in against ==> AlwaysRefuses(steps, v, w.winner, w.epoch)
    ensures |against| + Quorum(|voters|) <= |voters| + w.stale
  {
    CountsInvariant(states, steps, voters, n);
    ElectionInvariant(states, steps, n);
    forall v | v in against ensures v !in w.voters {
      RefusedMeansNoVote(states, steps, n, v, w.epoch, w.winner);
    }
    assert w.voters !! against;
    SubsetSize(w.voters + against, voters);
  }
}
