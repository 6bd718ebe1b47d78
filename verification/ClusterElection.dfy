/**
 Failover elections: what the votes of the masters guarantee over whole runs,
 and the one way in which the guarantee fails.
 */
module ClusterElection {
  import opened Basics
  import opened ClusterEpochs

  /** v gave its vote of epoch e to c. */
  predicate VotedFor(s: State, v: Id, e: nat, c: Id) {
    (v, e) in s.votes && s.votes[(v, e)] == c
  }

  /** Two acks that carry the vote of the same server in the same epoch. */
  predicate SameVote(a: Envelope, b: Envelope) {
    && a.msg.AuthAck? && b.msg.AuthAck?
    && a.msg.hdr.sender == b.msg.hdr.sender && a.msg.hdr.currentEpoch == b.msg.hdr.currentEpoch
  }

  /** Votes only lie in the past of the voter, and answer a request that the candidate made. */
  ghost predicate VotesOk(s: State) {
    forall v, e :: (v, e) in s.votes ==>
      && v in s.nodes && e <= s.nodes[v].lastVoteEpoch
      && s.votes[(v, e)] in s.nodes && e <= s.nodes[s.votes[(v, e)]].authEpoch
  }

  ghost predicate RequestsOk(s: State) {
    forall env :: env in s.net && env.msg.AuthRequest? ==>
      env.msg.hdr.sender in s.nodes && env.msg.hdr.currentEpoch <= s.nodes[env.msg.hdr.sender].authEpoch
  }

  /** An ack in flight carries a vote given to its addressee, exists once, and was not counted yet. */
  ghost predicate AckOk(s: State, env: Envelope) {
    && VotedFor(s, env.msg.hdr.sender, env.msg.hdr.currentEpoch, env.to)
    && s.net[env] == 1
    && !(env.to in s.nodes && env.msg.hdr.currentEpoch == s.nodes[env.to].authEpoch
         && env.msg.hdr.sender in Counted(s, env.to))
  }

  ghost predicate AcksOk(s: State) {
    && (forall env :: env in s.net && env.msg.AuthAck? ==> AckOk(s, env))
    && (forall a, b :: a in s.net && b in s.net && SameVote(a, b) ==> a == b)
  }

  /** A candidate's count: the voters of its election epoch, plus the acks counted before the election began. */
  ghost predicate CandidateOk(s: State, c: Id)
    requires c in s.nodes
  {
    var n := s.nodes[c];
    && (forall v :: v in Counted(s, c) ==> VotedFor(s, v, n.authEpoch, c))
    && (!n.authSent ==> Counted(s, c) == {})
    && n.authCount == |Counted(s, c)| + Stale(s, c)
  }

  ghost predicate WinsOk(s: State) {
    forall w :: w in s.wins ==> forall v :: v in w.voters ==> VotedFor(s, v, w.epoch, w.winner)
  }

  ghost predicate ElectionInv(s: State) {
    && VotesOk(s) && RequestsOk(s) && AcksOk(s) && WinsOk(s)
    && forall c :: c in s.nodes ==> CandidateOk(s, c)
  }

  // ----- what must stay for the invariant to stay -----

  /** No vote is forgotten and no election field of a server moves backward. */
  ghost predicate Forward(s: State, s': State) {
    && s'.nodes.Keys == s.nodes.Keys
    && (forall i :: i in s.nodes ==>
          s'.nodes[i].lastVoteEpoch >= s.nodes[i].lastVoteEpoch && s'.nodes[i].authEpoch >= s.nodes[i].authEpoch)
    && (forall v, e, c :: VotedFor(s, v, e, c) ==> VotedFor(s', v, e, c))
  }

  /** The count of a candidate stands as it was. */
  predicate SameCount(s: State, s': State, i: Id)
    requires i in s.nodes && i in s'.nodes
  {
    && s'.nodes[i].authEpoch == s.nodes[i].authEpoch && s'.nodes[i].authCount == s.nodes[i].authCount
    && s'.nodes[i].authSent == s.nodes[i].authSent
    && Counted(s', i) == Counted(s, i) && Stale(s', i) == Stale(s, i)
  }

  /** Messages of elections are not invented. */
  ghost predicate NoNewVotes(s: State, s': State) {
    forall e :: e in s'.net && e.msg.AuthAck? ==> e in s.net && s'.net[e] <= s.net[e]
  }

  lemma AcksFrame(s: State, s': State)
    requires AcksOk(s) && Forward(s, s') && NoNewVotes(s, s')
    requires forall i :: i in s.nodes ==>
      Counted(s', i) == {} || (s'.nodes[i].authEpoch == s.nodes[i].authEpoch && Counted(s', i) <= Counted(s, i))
    ensures AcksOk(s')
  {
    forall e | e in s'.net && e.msg.AuthAck? ensures AckOk(s', e) {
      assert AckOk(s, e);
    }
  }

  lemma CandidatesFrame(s: State, s': State, c: Id)
    requires (forall i :: i in s.nodes ==> CandidateOk(s, i)) && Forward(s, s')
    requires forall i :: i in s.nodes && i != c ==> SameCount(s, s', i)
    requires c in s'.nodes ==> CandidateOk(s', c)
    ensures forall i :: i in s'.nodes ==> CandidateOk(s', i)
  {
    forall i | i in s'.nodes ensures CandidateOk(s', i) {
      if i != c {
        assert CandidateOk(s, i);
      }
    }
  }

  lemma AllCandidatesFrame(s: State, s': State)
    requires (forall i :: i in s.nodes ==> CandidateOk(s, i)) && Forward(s, s')
    requires forall i :: i in s.nodes ==> SameCount(s, s', i)
    ensures forall i :: i in s'.nodes ==> CandidateOk(s', i)
  {
    forall i | i in s'.nodes ensures CandidateOk(s', i) {
      assert CandidateOk(s, i);
    }
  }

  /** Votes, requests and wins of the past stay in order when nothing new is added to them. */
  lemma PastFrame(s: State, s': State)
    requires Forward(s, s')
    ensures VotesOk(s) && s'.votes == s.votes ==> VotesOk(s')
    ensures WinsOk(s) && s'.wins == s.wins ==> WinsOk(s')
    ensures RequestsOk(s) && (forall e :: e in s'.net && e.msg.AuthRequest? ==> e in s.net) ==> RequestsOk(s')
  {
  }

  /** Nothing about elections changed but servers' other fields, and perhaps messages lost. */
  lemma SameElection(s: State, s': State)
    requires ElectionInv(s) && Forward(s, s') && NoNewVotes(s, s')
    requires s'.votes == s.votes && s'.wins == s.wins
    requires forall i :: i in s.nodes ==> SameCount(s, s', i)
    requires forall e :: e in s'.net && e.msg.AuthRequest? ==> e in s.net
    ensures ElectionInv(s')
  {
    PastFrame(s, s');
    AcksFrame(s, s');
    AllCandidatesFrame(s, s');
  }

  // ----- steps outside elections -----

  predicate Neutral(t: Step) {
    !t.DeliverRequest? && !t.DeliverAck? && !t.FailoverCron?
  }

  lemma NeutralKeepsFields(n: Node, t: Step)
    requires Neutral(t)
    ensures var n' := NewNode(n, t);
            n'.lastVoteEpoch == n.lastVoteEpoch && n'.authEpoch == n.authEpoch && n'.authCount == n.authCount
            && n'.authSent == n.authSent
  {
  }

  lemma SentByNeutral(n: Node, n': Node, t: Step)
    requires Neutral(t)
    ensures forall e :: e in Sent(n, n', t) ==> e.msg.Ping? || e.msg.Update?
  {
  }

  lemma NeutralKeepsElection(s: State, t: Step)
    requires ElectionInv(s) && Enabled(s, t) && Neutral(t)
    ensures ElectionInv(Apply(s, t))
  {
    hide *;
    NeutralApplied(s, t);
    SameElection(s, Apply(s, t));
  }

  lemma NeutralParts(s: State, t: Step)
    requires Neutral(t)
    ensures var s', i := Apply(s, t), Actor(t);
            && s'.votes == s.votes && s'.wins == s.wins && s'.counted == s.counted && s'.stale == s.stale
            && (i in s.nodes ==> s'.nodes == s.nodes[i := NewNode(s.nodes[i], t)]
                                 && s'.net == s.net - Taken(t) + Sent(s.nodes[i], NewNode(s.nodes[i], t), t))
            && (i !in s.nodes ==> s'.nodes == s.nodes && s'.net == s.net - Taken(t))
  {
    hide NewNode, Sent, Taken;
  }

  lemma SameStale(s: State, s': State)
    requires s'.counted == s.counted && s'.stale == s.stale
    ensures forall i :: Counted(s', i) == Counted(s, i) && Stale(s', i) == Stale(s, i)
  {
  }

  lemma NeutralApplied(s: State, t: Step)
    requires Neutral(t)
    ensures var s' := Apply(s, t);
            && Forward(s, s') && NoNewVotes(s, s') && s'.votes == s.votes && s'.wins == s.wins
            && (forall i :: i in s.nodes ==> SameCount(s, s', i))
            && (forall e :: e in s'.net && e.msg.AuthRequest? ==> e in s.net)
  {
    hide *;
    NeutralNet(s, t);
    NeutralParts(s, t);
    if Actor(t) in s.nodes {
      NeutralKeepsFields(s.nodes[Actor(t)], t);
    }
    KeptFields(s, Apply(s, t));
  }

  lemma KeptFields(s: State, s': State)
    requires s'.votes == s.votes && s'.counted == s.counted && s'.stale == s.stale && s'.nodes.Keys == s.nodes.Keys
    requires forall i :: i in s.nodes ==>
      var n, n' := s.nodes[i], s'.nodes[i];
      n'.lastVoteEpoch == n.lastVoteEpoch && n'.authEpoch == n.authEpoch && n'.authCount == n.authCount && n'.authSent == n.authSent
    ensures Forward(s, s') && forall i :: i in s.nodes ==> SameCount(s, s', i)
  {
    SameStale(s, s');
    hide Counted, Stale;
  }

  lemma NeutralNet(s: State, t: Step)
    requires Neutral(t)
    ensures NoNewVotes(s, Apply(s, t)) && forall e :: e in Apply(s, t).net && e.msg.AuthRequest? ==> e in s.net
  {
    NeutralParts(s, t);
    if Actor(t) in s.nodes {
      SentByNeutral(s.nodes[Actor(t)], NewNode(s.nodes[Actor(t)], t), t);
    }
    hide Apply, NewNode, Sent, Taken, Neutral, Actor;
  }

  // ----- votes -----

  lemma RefusedVoteKeepsElection(s: State, t: Step)
    requires ElectionInv(s) && Enabled(s, t) && t.DeliverRequest?
    requires !VoteGranted(s.nodes[t.env.to], t.env.msg.hdr, t.view)
    ensures ElectionInv(Apply(s, t))
  {
    hide Grants, ElectionInv;
    SameElection(s, Apply(s, t));
  }

  /** A master votes at most once in an epoch: its granted votes have strictly increasing epochs. */
  lemma VoteIsNew(s: State, t: Step)
    requires EpochInv(s) && VotesOk(s) && Enabled(s, t) && t.DeliverRequest?
    requires VoteGranted(s.nodes[t.env.to], t.env.msg.hdr, t.view)
    ensures var n' := NewNode(s.nodes[t.env.to], t);
            && n'.currentEpoch == t.env.msg.hdr.currentEpoch == n'.lastVoteEpoch
            && n'.lastVoteEpoch > s.nodes[t.env.to].lastVoteEpoch
            && (t.env.to, n'.currentEpoch) !in s.votes
            && (forall e :: (t.env.to, e) in s.votes ==> e < n'.lastVoteEpoch)
            && n'.authEpoch == s.nodes[t.env.to].authEpoch && n'.authCount == s.nodes[t.env.to].authCount
            && n'.authSent == s.nodes[t.env.to].authSent
  {
    assert NodeOk(t.env.to, s.nodes[t.env.to]);
  }

  lemma GrantSends(n: Node, n': Node, t: Step)
    requires t.DeliverRequest? && VoteGranted(n, t.env.msg.hdr, t.view) && t.master in n'.epochs
    ensures Sent(n, n', t) == multiset{Envelope(t.env.msg.hdr.sender, AuthAck(BuildHeader(t.env.to, n', t.master)))}
  {
  }

  /** s' is s with the request `req` answered by the vote `ack`, the first of its voter in that epoch. */
  ghost predicate Answered(s: State, s': State, req: Envelope, ack: Envelope) {
    && req in s.net && req.msg.AuthRequest? && ack.msg.AuthAck? && ack.to == req.msg.hdr.sender
    && ack.msg.hdr.currentEpoch == req.msg.hdr.currentEpoch
    && s'.net == s.net - multiset{req} + multiset{ack}
    && (ack.msg.hdr.sender, ack.msg.hdr.currentEpoch) !in s.votes
    && s'.votes == s.votes[(ack.msg.hdr.sender, ack.msg.hdr.currentEpoch) := ack.to]
    && s'.counted == s.counted && s'.stale == s.stale && s'.wins == s.wins
    && ack.msg.hdr.sender in s'.nodes && s'.nodes[ack.msg.hdr.sender].lastVoteEpoch >= ack.msg.hdr.currentEpoch
    && s'.nodes.Keys == s.nodes.Keys
    && (forall i :: i in s.nodes ==>
          && s'.nodes[i].lastVoteEpoch >= s.nodes[i].lastVoteEpoch && s'.nodes[i].authEpoch == s.nodes[i].authEpoch
          && s'.nodes[i].authCount == s.nodes[i].authCount && s'.nodes[i].authSent == s.nodes[i].authSent)
  }

  lemma GrantAnswers(s: State, t: Step) returns (ack: Envelope)
    requires EpochInv(s) && VotesOk(s) && Enabled(s, t) && t.DeliverRequest?
    requires VoteGranted(s.nodes[t.env.to], t.env.msg.hdr, t.view)
    ensures Answered(s, Apply(s, t), t.env, ack)
  {
    VoteIsNew(s, t);
    var v := t.env.to;
    var n' := NewNode(s.nodes[v], t);
    assert t.master in n'.epochs;
    hide Grants, VoteGranted, NewNode, EpochInv, VotesOk, Sent;
    GrantSends(s.nodes[v], n', t);
    ack := Envelope(t.env.msg.hdr.sender, AuthAck(BuildHeader(v, n', t.master)));
  }

  lemma AnswerIsOk(s: State, s': State, req: Envelope, ack: Envelope)
    requires ElectionInv(s) && Answered(s, s', req, ack) && ack !in s.net
    ensures AckOk(s', ack)
  {
    hide VotesOk, RequestsOk, WinsOk, AcksOk;
    if ack.to in s.nodes {
      assert CandidateOk(s, ack.to);
    }
  }

  lemma AnswerKeepsAcks(s: State, s': State, req: Envelope, ack: Envelope)
    requires ElectionInv(s) && Answered(s, s', req, ack)
    ensures AcksOk(s')
  {
    hide VotesOk, RequestsOk, WinsOk;
    forall e | e in s.net && e.msg.AuthAck? ensures !SameVote(e, ack) && AckOk(s', e) {
      assert AckOk(s, e);
    }
    AnswerIsOk(s, s', req, ack);
    hide AckOk;
    forall a, b | a in s'.net && b in s'.net && SameVote(a, b) ensures a == b {
      if a == ack {
        assert b == ack || b in s.net;
      } else {
        assert a in s.net;
      }
    }
  }

  lemma AnswerKeepsVotes(s: State, s': State, req: Envelope, ack: Envelope)
    requires VotesOk(s) && RequestsOk(s) && Answered(s, s', req, ack)
    ensures VotesOk(s') && RequestsOk(s') && Forward(s, s')
  {
  }

  lemma AnswerKeepsCounts(s: State, s': State, req: Envelope, ack: Envelope)
    requires Answered(s, s', req, ack)
    ensures s'.wins == s.wins && s'.nodes.Keys == s.nodes.Keys && forall i :: i in s.nodes ==> SameCount(s, s', i)
  {
  }

  lemma AnswerKeepsElection(s: State, s': State, req: Envelope, ack: Envelope)
    requires ElectionInv(s) && Answered(s, s', req, ack)
    ensures ElectionInv(s')
  {
    hide AcksOk, VotesOk, RequestsOk, WinsOk, Answered, Forward;
    AnswerKeepsVotes(s, s', req, ack);
    AnswerKeepsAcks(s, s', req, ack);
    AnswerKeepsCounts(s, s', req, ack);
    PastFrame(s, s');
    AllCandidatesFrame(s, s');
  }

  // ----- counting -----

  /** Every counted ack carries exactly the candidate's election epoch, and is counted for the first time. */
  lemma CountedAckIsCurrent(s: State, env: Envelope, senderVotes: bool)
    requires ElectionInv(s) && env in s.net && env.msg.AuthAck? && env.to in s.nodes
    requires AckCounted(s.nodes[env.to], env.msg.hdr, senderVotes)
    ensures env.msg.hdr.currentEpoch == s.nodes[env.to].authEpoch
    ensures VotedFor(s, env.msg.hdr.sender, s.nodes[env.to].authEpoch, env.to)
    ensures env.msg.hdr.sender !in Counted(s, env.to)
  {
    assert AckOk(s, env);
  }

  /** s' is s with the ack counted: as a vote of the election if it has begun, else as a stale one. */
  ghost predicate Tallied(s: State, s': State, ack: Envelope) {
    && ack in s.net && ack.msg.AuthAck? && ack.to in s.nodes
    && s'.net == s.net - multiset{ack} && s'.votes == s.votes && s'.wins == s.wins
    && s'.nodes.Keys == s.nodes.Keys
    && (forall i :: i in s.nodes ==>
          s'.nodes[i].lastVoteEpoch == s.nodes[i].lastVoteEpoch && s'.nodes[i].authEpoch == s.nodes[i].authEpoch)
    && (forall i :: i in s.nodes && i != ack.to ==> SameCount(s, s', i))
    && s'.nodes[ack.to].authCount == s.nodes[ack.to].authCount + 1
    && s'.nodes[ack.to].authSent == s.nodes[ack.to].authSent
    && if s.nodes[ack.to].authSent
       then Counted(s', ack.to) == Counted(s, ack.to) + {ack.msg.hdr.sender} && Stale(s', ack.to) == Stale(s, ack.to)
       else Counted(s', ack.to) == Counted(s, ack.to) && Stale(s', ack.to) == Stale(s, ack.to) + 1
  }

  lemma AckTallies(s: State, t: Step)
    requires Enabled(s, t) && t.DeliverAck? && AckCounted(s.nodes[t.env.to], t.env.msg.hdr, t.senderVotes)
    ensures Tallied(s, Apply(s, t), t.env)
  {
    assert Sent(s.nodes[t.env.to], NewNode(s.nodes[t.env.to], t), t) == multiset{};
  }

  lemma UncountedAckKeepsElection(s: State, t: Step)
    requires ElectionInv(s) && Enabled(s, t) && t.DeliverAck?
    requires !AckCounted(s.nodes[t.env.to], t.env.msg.hdr, t.senderVotes)
    ensures ElectionInv(Apply(s, t))
  {
    hide ElectionInv;
    SameElection(s, Apply(s, t));
  }

  lemma TallyKeepsElection(s: State, s': State, ack: Envelope)
    requires ElectionInv(s) && Tallied(s, s', ack)
    requires ack.msg.hdr.currentEpoch == s.nodes[ack.to].authEpoch && ack.msg.hdr.sender !in Counted(s, ack.to)
    ensures ElectionInv(s')
  {
    assert AckOk(s, ack) && CandidateOk(s, ack.to);
    assert Forward(s, s');
    PastFrame(s, s');
    TallyKeepsAcks(s, s', ack);
    hide AcksOk, VotesOk, WinsOk, RequestsOk;
    CandidatesFrame(s, s', ack.to);
  }

  lemma TallyKeepsAcks(s: State, s': State, ack: Envelope)
    requires AcksOk(s) && Tallied(s, s', ack) && Forward(s, s')
    requires ack.msg.hdr.currentEpoch == s.nodes[ack.to].authEpoch
    ensures AcksOk(s')
  {
    assert AckOk(s, ack);
    forall e | e in s'.net && e.msg.AuthAck? ensures AckOk(s', e) {
      assert AckOk(s, e);
      assert !SameVote(e, ack);
    }
  }

  // ----- elections -----

  /** s' is s after a reset, a win, or a pass of the cron that does nothing: no message sent, no epoch moved. */
  ghost predicate QuietPass(s: State, s': State, c: Id) {
    && c in s.nodes && s'.net == s.net && s'.votes == s.votes && s'.nodes.Keys == s.nodes.Keys
    && (forall i :: i in s.nodes ==>
          s'.nodes[i].lastVoteEpoch == s.nodes[i].lastVoteEpoch && s'.nodes[i].authEpoch == s.nodes[i].authEpoch)
    && (forall i :: i in s.nodes && i != c ==> SameCount(s, s', i))
    && (SameCount(s, s', c) || (Counted(s', c) == {} && Stale(s', c) == 0 && s'.nodes[c].authCount == 0))
    && (s'.wins == s.wins || s'.wins == s.wins + {Victory(c, s.nodes[c].authEpoch, Counted(s, c), Stale(s, c))})
  }

  lemma QuietCron(s: State, t: Step)
    requires Enabled(s, t) && t.FailoverCron? && !Decide(s.nodes[t.node], t.fview).Start?
    ensures QuietPass(s, Apply(s, t), t.node)
  {
    CronParts(s, t);
    CronFields(s.nodes[t.node], t);
    hide Apply, Enabled, Decide, NewNode, Counted, Stale;
  }

  lemma CronParts(s: State, t: Step)
    requires Enabled(s, t) && t.FailoverCron? && !Decide(s.nodes[t.node], t.fview).Start?
    ensures var s', c, d := Apply(s, t), t.node, Decide(s.nodes[t.node], t.fview);
            && s'.net == s.net && s'.votes == s.votes && s'.nodes == s.nodes[c := NewNode(s.nodes[c], t)]
            && (forall i :: i != c || !d.Reset? ==> Counted(s', i) == Counted(s, i) && Stale(s', i) == Stale(s, i))
            && (d.Reset? ==> Counted(s', c) == {} && Stale(s', c) == 0)
            && s'.wins == if d.Win? then s.wins + {Victory(c, s.nodes[c].authEpoch, Counted(s, c), Stale(s, c))} else s.wins
  {
    var n := s.nodes[t.node];
    assert Sent(n, NewNode(n, t), t) == multiset{};
    hide Decide, NewNode, Sent;
  }

  lemma CronFields(n: Node, t: Step)
    requires t.FailoverCron? && !Decide(n, t.fview).Start?
    ensures var n' := NewNode(n, t);
            n'.lastVoteEpoch == n.lastVoteEpoch && n'.authEpoch == n.authEpoch
            && if Decide(n, t.fview).Reset? then n'.authCount == 0 && !n'.authSent
               else n'.authCount == n.authCount && n'.authSent == n.authSent
  {
  }

  lemma QuietPassWins(s: State, s': State, c: Id)
    requires ElectionInv(s) && QuietPass(s, s', c)
    ensures Forward(s, s') && WinsOk(s') && CandidateOk(s', c)
  {
    hide AcksOk, VotesOk, RequestsOk;
    assert CandidateOk(s, c);
  }

  lemma QuietPassKeepsElection(s: State, s': State, c: Id)
    requires ElectionInv(s) && QuietPass(s, s', c)
    ensures ElectionInv(s')
  {
    QuietPassWins(s, s', c);
    hide CandidateOk, WinsOk, AcksOk, VotesOk, RequestsOk, Forward;
    PastFrame(s, s');
    AcksFrame(s, s');
    CandidatesFrame(s, s', c);
  }

  /** s' is s after c began an election: a new epoch, and requests for it. */
  ghost predicate Started(s: State, s': State, c: Id, all: set<Id>, req: Msg) {
    && c in s.nodes && s'.votes == s.votes && s'.wins == s.wins && s'.nodes.Keys == s.nodes.Keys
    && req.AuthRequest? && req.hdr.sender == c && req.hdr.currentEpoch == s'.nodes[c].authEpoch
    && s'.net == s.net + Broadcast(all, req)
    && (forall i :: i in s.nodes && i != c ==> s'.nodes[i] == s.nodes[i] && SameCount(s, s', i))
    && !s.nodes[c].authSent && s'.nodes[c].authEpoch > s.nodes[c].authEpoch
    && s'.nodes[c].lastVoteEpoch == s.nodes[c].lastVoteEpoch && s'.nodes[c].authCount == s.nodes[c].authCount
    && Counted(s', c) == Counted(s, c) && Stale(s', c) == Stale(s, c)
  }

  lemma CronStarts(s: State, t: Step) returns (req: Msg)
    requires EpochInv(s) && Enabled(s, t) && t.FailoverCron? && Decide(s.nodes[t.node], t.fview).Start?
    ensures Started(s, Apply(s, t), t.node, t.all, req)
  {
    var n := s.nodes[t.node];
    var n' := NewNode(n, t);
    assert NodeOk(t.node, n);
    req := AuthRequest(BuildHeader(t.node, n', t.master));
    assert Sent(n, n', t) == Broadcast(t.all, req);
  }

  lemma StartMessages(s: State, s': State, c: Id, all: set<Id>, req: Msg)
    requires RequestsOk(s) && Started(s, s', c, all, req)
    ensures Forward(s, s') && NoNewVotes(s, s') && RequestsOk(s')
  {
    assert forall e :: e in Broadcast(all, req) ==> e.msg == req;
    forall e | e in s'.net && e.msg.AuthAck? ensures e in s.net && s'.net[e] <= s.net[e] {
      assert e !in Broadcast(all, req);
    }
  }

  lemma StartKeepsElection(s: State, s': State, c: Id, all: set<Id>, req: Msg)
    requires ElectionInv(s) && Started(s, s', c, all, req)
    ensures ElectionInv(s')
  {
    StartMessages(s, s', c, all, req);
    assert CandidateOk(s, c) && CandidateOk(s', c);
    hide RequestsOk, NoNewVotes, CandidateOk, VotesOk, WinsOk, AcksOk;
    PastFrame(s, s');
    AcksFrame(s, s');
    CandidatesFrame(s, s', c);
  }

  lemma StepKeepsElection(s: State, t: Step)
    requires EpochInv(s) && ElectionInv(s) && Enabled(s, t)
    ensures ElectionInv(Apply(s, t))
  {
    hide Apply, EpochInv, AcksOk, CandidateOk, WinsOk, RequestsOk, VotesOk, VoteGranted, AckCounted, Decide, Answered, Tallied, Started, QuietPass;
    if t.DeliverRequest? {
      if VoteGranted(s.nodes[t.env.to], t.env.msg.hdr, t.view) {
        var ack := GrantAnswers(s, t);
        AnswerKeepsElection(s, Apply(s, t), t.env, ack);
      } else {
        RefusedVoteKeepsElection(s, t);
      }
    } else if t.DeliverAck? {
      if AckCounted(s.nodes[t.env.to], t.env.msg.hdr, t.senderVotes) {
        CountedAckIsCurrent(s, t.env, t.senderVotes);
        AckTallies(s, t);
        TallyKeepsElection(s, Apply(s, t), t.env);
      } else {
        UncountedAckKeepsElection(s, t);
      }
    } else if t.FailoverCron? {
      if Decide(s.nodes[t.node], t.fview).Start? {
        var req := CronStarts(s, t);
        StartKeepsElection(s, Apply(s, t), t.node, t.all, req);
      } else {
        QuietCron(s, t);
        QuietPassKeepsElection(s, Apply(s, t), t.node);
      }
    } else {
      NeutralKeepsElection(s, t);
    }
  }

  lemma ElectionStart(s: State)
    requires Initial(s)
    ensures ElectionInv(s)
  {
  }

  lemma {:induction false} ElectionInvariant(states: seq<State>, steps: seq<Step>, n: nat)
    requires Run(states, steps) && n < |states|
    ensures ElectionInv(states[n])
  {
    hide *;
    if n > 0 {
      RunLink(states, steps, n);
      EpochInvariant(states, steps, n - 1);
      ElectionInvariant(states, steps, n - 1);
      StepKeepsElection(states[n - 1], steps[n - 1]);
    } else {
      RunStart(states, steps);
      ElectionStart(states[0]);
    }
  }

  // ----- at most one winner per epoch -----

  /** The masters whose acks are counted belong to the fixed set `voters`, whose size gives the quorum. */
  ghost predicate VotersFixed(states: seq<State>, steps: seq<Step>, voters: set<Id>)
    requires Run(states, steps)
  {
    forall i :: 0 <= i < |steps| ==> StepRespects(states[i], steps[i], voters)
  }

  ghost predicate StepRespects(s: State, t: Step, voters: set<Id>)
    requires Enabled(s, t)
  {
    && (t.DeliverAck? && t.senderVotes ==> t.env.msg.hdr.sender in voters)
    && (t.FailoverCron? && Decide(s.nodes[t.node], t.fview).Win? ==> t.fview.size == |voters|)
  }

  ghost predicate CountsOk(s: State, voters: set<Id>) {
    && (forall c :: c in s.nodes ==> Counted(s, c) <= voters)
    && (forall w :: w in s.wins ==> w.voters <= voters && |w.voters| + w.stale >= Quorum(|voters|))
  }

  lemma WinNeedsQuorum(n: Node, v: FailoverView)
    ensures Decide(n, v).Win? ==> n.authCount >= Quorum(v.size)
  {
  }

  lemma StepKeepsCounts(s: State, t: Step, voters: set<Id>)
    requires ElectionInv(s) && Enabled(s, t) && StepRespects(s, t, voters) && CountsOk(s, voters)
    ensures CountsOk(Apply(s, t), voters)
  {
    if t.FailoverCron? {
      assert CandidateOk(s, t.node);
      WinNeedsQuorum(s.nodes[t.node], t.fview);
      CronCounted(s, t);
    } else {
      OthersCounted(s, t);
    }
    hide Apply, ElectionInv, Enabled, Decide, Quorum, Counted, Stale;
  }

  lemma CronCounted(s: State, t: Step)
    requires Enabled(s, t) && t.FailoverCron?
    ensures var s', c := Apply(s, t), t.node;
            && s'.nodes.Keys == s.nodes.Keys
            && (forall i :: Counted(s', i) == Counted(s, i) || Counted(s', i) == {})
            && (s'.wins == s.wins
                || (Decide(s.nodes[c], t.fview).Win?
                    && s'.wins == s.wins + {Victory(c, s.nodes[c].authEpoch, Counted(s, c), Stale(s, c))}))
  {
    hide NewNode, Sent, NewVotes, NewStale, Decide;
  }

  lemma OthersCounted(s: State, t: Step)
    requires Enabled(s, t) && !t.FailoverCron?
    ensures var s' := Apply(s, t);
            && s'.nodes.Keys == s.nodes.Keys && s'.wins == s.wins
            && (forall i :: Counted(s', i) == Counted(s, i)
                            || (t.DeliverAck? && t.senderVotes && Counted(s', i) == Counted(s, i) + {t.env.msg.hdr.sender}))
  {
    hide NewNode, Sent, NewVotes, NewStale, Enabled;
    if t.DeliverAck? {
      hide NewWins, Taken;
    } else if Actor(t) in s.nodes {
      assert NewCounted(s, s.nodes[Actor(t)], t) == s.counted;
    }
  }

  lemma CountsStart(s: State, voters: set<Id>)
    requires Initial(s)
    ensures CountsOk(s, voters)
  {
  }

  lemma VotersRespected(states: seq<State>, steps: seq<Step>, voters: set<Id>, n: nat)
    requires Run(states, steps) && VotersFixed(states, steps, voters) && 0 < n < |states|
    requires |states| == |steps| + 1 && Enabled(states[n - 1], steps[n - 1])
    ensures StepRespects(states[n - 1], steps[n - 1], voters)
  {
    hide Run, Enabled, StepRespects;
  }

  lemma {:induction false} CountsInvariant(states: seq<State>, steps: seq<Step>, voters: set<Id>, n: nat)
    requires Run(states, steps) && VotersFixed(states, steps, voters) && n < |states|
    ensures CountsOk(states[n], voters)
  {
    hide *;
    if n > 0 {
      CountsInvariant(states, steps, voters, n - 1);
      ElectionInvariant(states, steps, n - 1);
      RunLink(states, steps, n);
      VotersRespected(states, steps, voters, n);
      StepKeepsCounts(states[n - 1], steps[n - 1], voters);
    } else {
      RunStart(states, steps);
      CountsStart(states[0], voters);
    }
  }

  /** How many late acks it takes to make two quorums without a common voter: 1 or 2, by the parity of n. */
  function Budget(n: nat): nat {
    2 * Quorum(n) - n
  }

  lemma VotersMeet(a: set<Id>, b: set<Id>, voters: set<Id>)
    requires a <= voters && b <= voters && |a| + |b| > |voters|
    ensures exists v :: v in a && v in b
  {
    if a * b == {} {
      assert |a + b| == |a| + |b|;
      SubsetSize(a + b, voters);
    }
    assert a * b != {};
    var v :| v in a * b;
  }

  /**
   Two elections won in one epoch were won by the same replica, if the acks that
   the two counted before they began stay below the budget.
   */
  lemma ElectionSafety(states: seq<State>, steps: seq<Step>, voters: set<Id>, n: nat, w: Victory, u: Victory)
    requires Run(states, steps) && VotersFixed(states, steps, voters) && n < |states|
    requires w in states[n].wins && u in states[n].wins && w.epoch == u.epoch
    requires w.stale + u.stale < Budget(|voters|)
    ensures w.winner == u.winner
  {
    CountsInvariant(states, steps, voters, n);
    ElectionInvariant(states, steps, n);
    VotersMeet(w.voters, u.voters, voters);
    var v :| v in w.voters && v in u.voters;
    assert VotedFor(states[n], v, w.epoch, w.winner) && VotedFor(states[n], v, u.epoch, u.winner);
  }

  /** Acks reach a candidate only between the start of its election and its next reset. */
  ghost predicate AcksTimely(states: seq<State>, steps: seq<Step>)
    requires Run(states, steps)
  {
    forall i :: 0 <= i < |steps| && steps[i].DeliverAck? ==> states[i].nodes[steps[i].env.to].authSent
  }

  ghost predicate NothingStale(s: State) {
    (forall c :: Stale(s, c) == 0) && (forall w :: w in s.wins ==> w.stale == 0)
  }

  lemma TimelyStep(s: State, t: Step)
    requires NothingStale(s) && Enabled(s, t) && (t.DeliverAck? ==> s.nodes[t.env.to].authSent)
    ensures NothingStale(Apply(s, t))
  {
    hide NewNode, Sent, NewVotes, NewCounted;
    forall c ensures Stale(Apply(s, t), c) == 0 {
      assert Stale(s, c) == 0;
    }
    assert Stale(s, Actor(t)) == 0;
  }

  lemma {:induction false} TimelyMeansNothingStale(states: seq<State>, steps: seq<Step>, n: nat)
    requires Run(states, steps) && AcksTimely(states, steps) && n < |states|
    ensures NothingStale(states[n])
  {
    if n > 0 {
      hide Apply, NothingStale, Enabled, Initial;
      TimelyMeansNothingStale(states, steps, n - 1);
      TimelyStep(states[n - 1], steps[n - 1]);
    }
  }

  /** Election safety: with fixed voters and timely acks, no epoch has two winners. */
  lemma OneWinnerPerEpoch(states: seq<State>, steps: seq<Step>, voters: set<Id>, n: nat, w: Victory, u: Victory)
    requires Run(states, steps) && VotersFixed(states, steps, voters) && AcksTimely(states, steps) && n < |states|
    requires w in states[n].wins && u in states[n].wins && w.epoch == u.epoch
    ensures w.winner == u.winner
  {
    TimelyMeansNothingStale(states, steps, n);
    ElectionSafety(states, steps, voters, n, w, u);
  }

  /** The count a candidate checks against the quorum is its number of votes if and only if nothing stale was counted. */
  lemma CountIsExactlyTheVotes(states: seq<State>, steps: seq<Step>, n: nat, c: Id)
    requires Run(states, steps) && n < |states| && c in states[n].nodes
    ensures var s, k := states[n], Counted(states[n], c);
            && (forall v :: v in k ==> VotedFor(s, v, s.nodes[c].authEpoch, c))
            && (s.nodes[c].authCount == |k| <==> Stale(s, c) == 0)
  {
    ElectionInvariant(states, steps, n);
    assert CandidateOk(states[n], c);
  }
}
