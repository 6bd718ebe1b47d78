/**
 The exact price of late acks: an ack that arrives after a candidate gave up its
 attempt, and before it starts the next one, is counted for the next epoch. For
 every set of voters there is a run in which two replicas win one epoch with
 just as many late acks as the safety theorem does not allow.

 In these runs all masters are up, and two replicas of one of them are told to
 take over by force.
 */
module ClusterStaleVotes {
  import opened Basics
  import opened ClusterEpochs
  import opened ClusterElection

  function ZeroEpochs(ids: set<Id>): map<Id, nat> {
    map i | i in ids :: 0
  }

  /** What a voter sees: the master is known and up, the takeover is forced, and the slots claimed have epoch 0. */
  function Forced(): VoteView {
    VoteView(true, false, true, false, true, false, {0})
  }

  /** The failover cron of a replica that is told to take over, at its retry time or in time for the election. */
  function Cron(me: Id, retry: bool, size: nat, all: set<Id>, master: Id): Step {
    FailoverCron(me, FailoverView(true, retry, true, false, size), all, master)
  }

  function Request(v: Id, c: Id, e: nat): Envelope {
    Envelope(v, AuthRequest(Header(c, e, 0)))
  }

  function Ack(c: Id, v: Id, e: nat): Envelope {
    Envelope(c, AuthAck(Header(v, e, 0)))
  }

  function Requests(c: Id, e: nat, all: set<Id>): multiset<Envelope> {
    Broadcast(all, AuthRequest(Header(c, e, 0)))
  }

  // ----- runs -----

  /** What the step says of the world is one and the same throughout: masters vote, replicas are told to take over. */
  predicate Consistent(t: Step, voters: set<Id>) {
    match t
    case DeliverRequest(env, view, _) => env.to in voters && view == Forced()
    case DeliverAck(env, senderVotes) => env.msg.hdr.sender in voters && senderVotes
    case FailoverCron(node, v, _, master) => node !in voters && master in voters && v.eligible && v.size == |voters|
    case _ => false
  }

  ghost predicate Leads(s: State, t: Step, r: State, voters: set<Id>) {
    Enabled(s, t) && StepRespects(s, t, voters) && Consistent(t, voters) && r == Apply(s, t)
  }

  ghost predicate Path(states: seq<State>, steps: seq<Step>, voters: set<Id>) {
    && |states| == |steps| + 1
    && forall i :: 0 <= i < |steps| ==> Leads(states[i], steps[i], states[i + 1], voters)
  }

  ghost predicate Reaches(s: State, r: State, voters: set<Id>) {
    exists states, steps :: Path(states, steps, voters) && states[0] == s && states[|steps|] == r
  }

  lemma ReachesSelf(s: State, voters: set<Id>)
    ensures Reaches(s, s, voters)
  {
    assert Path([s], [], voters);
  }

  lemma ReachesNext(s: State, t: Step, r: State, voters: set<Id>)
    requires Leads(s, t, r, voters)
    ensures Reaches(s, r, voters)
  {
    assert Path([s, r], [t], voters);
  }

  lemma ReachesOn(s: State, r: State, q: State, voters: set<Id>)
    requires Reaches(s, r, voters) && Reaches(r, q, voters)
    ensures Reaches(s, q, voters)
  {
    hide Leads;
    var s1, t1 :| Path(s1, t1, voters) && s1[0] == s && s1[|t1|] == r;
    var s2, t2 :| Path(s2, t2, voters) && s2[0] == r && s2[|t2|] == q;
    var states, steps := s1 + s2[1..], t1 + t2;
    forall i | 0 <= i < |steps| ensures Leads(states[i], steps[i], states[i + 1], voters) {
      if i >= |t1| {
        assert Leads(s2[i - |t1|], t2[i - |t1|], s2[i - |t1| + 1], voters);
      }
    }
    assert Path(states, steps, voters);
  }

  // ----- single steps -----

  lemma SameEpochs(ids: set<Id>, i: Id)
    requires i in ids
    ensures ZeroEpochs(ids)[i := 0] == ZeroEpochs(ids)
  {
  }

  lemma Starts(s: State, me: Id, all: set<Id>, master: Id, ids: set<Id>, voters: set<Id>) returns (r: State)
    requires me in s.nodes && me !in voters && master in voters && master in ids && s.net == multiset{}
    requires s.nodes[me].epochs == ZeroEpochs(ids) && !s.nodes[me].authSent
    ensures Leads(s, Cron(me, false, |voters|, all, master), r, voters)
    ensures var e := s.nodes[me].currentEpoch + 1;
            r == s.(nodes := s.nodes[me := s.nodes[me].(currentEpoch := e, authEpoch := e, authSent := true)],
                    net := Requests(me, e, all))
  {
    hide Broadcast;
    var t := Cron(me, false, |voters|, all, master);
    r := Apply(s, t);
    assert s.net - multiset{} + r.net == r.net;
  }

  lemma GivesUp(s: State, me: Id, master: Id, ids: set<Id>, voters: set<Id>) returns (r: State)
    requires me in s.nodes && me !in voters && master in voters && master in ids && s.nodes[me].epochs == ZeroEpochs(ids)
    ensures Leads(s, Cron(me, true, |voters|, {}, master), r, voters)
    ensures r == s.(nodes := s.nodes[me := s.nodes[me].(authCount := 0, authSent := false)],
                    counted := s.counted[me := {}], stale := s.stale[me := 0])
  {
    r := Apply(s, Cron(me, true, |voters|, {}, master));
    assert s.net - multiset{} + multiset{} == s.net;
  }

  lemma Wins(s: State, me: Id, master: Id, ids: set<Id>, voters: set<Id>) returns (r: State)
    requires me in s.nodes && me !in voters && master in voters && master in ids && s.nodes[me].epochs == ZeroEpochs(ids)
    requires s.nodes[me].authSent && s.nodes[me].authCount >= Quorum(|voters|)
    ensures Leads(s, Cron(me, false, |voters|, {}, master), r, voters)
    ensures r.nodes.Keys == s.nodes.Keys && (forall i :: i in s.nodes && i != me ==> r.nodes[i] == s.nodes[i])
    ensures r.net == s.net && r.counted == s.counted && r.stale == s.stale
    ensures r.wins == s.wins + {Victory(me, s.nodes[me].authEpoch, Counted(s, me), Stale(s, me))}
  {
    r := Apply(s, Cron(me, false, |voters|, {}, master));
    assert s.net - multiset{} + multiset{} == s.net;
  }

  /** A voter that is behind epoch e gives its vote to c. */
  lemma Votes(s: State, c: Id, e: nat, v: Id, todo: set<Id>, ids: set<Id>, voters: set<Id>) returns (r: State)
    requires PollReady(s, c, e, todo, ids) && v in todo && v in voters
    ensures Leads(s, DeliverRequest(Request(v, c, e), Forced(), v), r, voters)
    ensures r == s.(nodes := s.nodes[v := s.nodes[v].(currentEpoch := e, lastVoteEpoch := e)],
                    net := Requests(c, e, todo - {v}) + multiset{Ack(c, v, e)}, votes := s.votes[(v, e) := c])
  {
    var t, n := DeliverRequest(Request(v, c, e), Forced(), v), s.nodes[v];
    SameEpochs(ids, c);
    TakeRequest(c, e, todo, v);
    assert NewNode(n, t) == n.(currentEpoch := e, lastVoteEpoch := e);
    r := Apply(s, t);
    hide NewNode, Requests;
    assert Sent(n, n.(currentEpoch := e, lastVoteEpoch := e), t) == multiset{Ack(c, v, e)};
  }

  lemma TakeRequest(c: Id, e: nat, todo: set<Id>, v: Id)
    requires v in todo
    ensures Request(v, c, e) in Requests(c, e, todo)
    ensures Requests(c, e, todo) - multiset{Request(v, c, e)} == Requests(c, e, todo - {v})
  {
  }

  /** Its ack is counted, as a vote if the election has begun, else as a late one. */
  lemma Counts(s: State, c: Id, e: nat, v: Id, ids: set<Id>, voters: set<Id>, rest: multiset<Envelope>) returns (r: State)
    requires c in s.nodes && v in voters && v in ids && s.net == rest + multiset{Ack(c, v, e)}
    requires s.nodes[c].epochs == ZeroEpochs(ids) && s.nodes[c].currentEpoch == s.nodes[c].authEpoch == e
    ensures Leads(s, DeliverAck(Ack(c, v, e), true), r, voters)
    ensures var q := s.(nodes := s.nodes[c := s.nodes[c].(authCount := s.nodes[c].authCount + 1)], net := rest);
            r == if s.nodes[c].authSent then q.(counted := s.counted[c := Counted(s, c) + {v}])
                 else q.(stale := s.stale[c := Stale(s, c) + 1])
  {
    var t, n := DeliverAck(Ack(c, v, e), true), s.nodes[c];
    SameEpochs(ids, v);
    assert NewNode(n, t) == n.(authCount := n.authCount + 1);
    r := Apply(s, t);
    assert NewVotes(s, n, NewNode(n, t), t) == s.votes && NewWins(s, n, t) == s.wins;
    assert Sent(n, NewNode(n, t), t) == multiset{};
    hide NewNode, NewVotes, NewWins, Sent, ZeroEpochs, Counted, Stale;
    assert rest + multiset{Ack(c, v, e)} - multiset{Ack(c, v, e)} + multiset{} == rest;
  }

  // ----- a poll -----

  ghost predicate Behind(s: State, e: nat, todo: set<Id>, ids: set<Id>) {
    forall v :: v in todo ==>
      v in s.nodes && s.nodes[v].epochs == ZeroEpochs(ids) && s.nodes[v].currentEpoch <= e && s.nodes[v].lastVoteEpoch < e
  }

  /** The requests of c for epoch e are on their way to the voters `todo`, which are all behind that epoch. */
  ghost predicate PollReady(s: State, c: Id, e: nat, todo: set<Id>, ids: set<Id>) {
    && c in s.nodes && c in ids && c !in todo && todo <= ids && Behind(s, e, todo, ids)
    && s.nodes[c].epochs == ZeroEpochs(ids) && s.nodes[c].currentEpoch == s.nodes[c].authEpoch == e
    && s.net == Requests(c, e, todo)
  }

  /** What became of all servers but c: those of `done` voted in epoch e, and the others did nothing. */
  ghost predicate Elsewhere(s: State, r: State, c: Id, e: nat, done: set<Id>) {
    && r.nodes.Keys == s.nodes.Keys
    && (forall i :: i in s.nodes && i != c ==>
          r.nodes[i] == if i in done then s.nodes[i].(currentEpoch := e, lastVoteEpoch := e) else s.nodes[i])
    && (forall i :: i != c ==> Counted(r, i) == Counted(s, i) && Stale(r, i) == Stale(s, i))
  }

  lemma ElsewhereOn(s: State, r: State, q: State, c: Id, e: nat, a: set<Id>, b: set<Id>)
    requires Elsewhere(s, r, c, e, a) && Elsewhere(r, q, c, e, b)
    ensures Elsewhere(s, q, c, e, a + b)
  {
    hide Counted, Stale;
  }

  /** c counted the votes of `done`: as votes if its election has begun, else as late ones. */
  ghost predicate Tally(s: State, r: State, c: Id, done: set<Id>) {
    && c in s.nodes && c in r.nodes && r.wins == s.wins
    && r.nodes[c] == s.nodes[c].(authCount := s.nodes[c].authCount + |done|)
    && Counted(r, c) == Counted(s, c) + (if s.nodes[c].authSent then done else {})
    && Stale(r, c) == Stale(s, c) + (if s.nodes[c].authSent then 0 else |done|)
  }

  lemma TallyOn(s: State, r: State, q: State, c: Id, v: Id, rest: set<Id>)
    requires Tally(s, r, c, {v}) && Tally(r, q, c, rest) && v !in rest
    ensures Tally(s, q, c, {v} + rest)
  {
    hide Counted, Stale;
    assert |{v} + rest| == 1 + |rest|;
  }

  lemma VoteTold(s: State, q: State, c: Id, e: nat, v: Id, todo: set<Id>, ids: set<Id>)
    requires PollReady(s, c, e, todo, ids) && v in todo
    requires q == s.(nodes := s.nodes[v := s.nodes[v].(currentEpoch := e, lastVoteEpoch := e)], net := q.net, votes := q.votes)
    ensures Elsewhere(s, q, c, e, {v}) && Behind(q, e, todo - {v}, ids)
    ensures q.nodes.Keys == s.nodes.Keys && q.nodes[c] == s.nodes[c]
    ensures q.wins == s.wins && Counted(q, c) == Counted(s, c) && Stale(q, c) == Stale(s, c)
  {
    hide Requests;
  }

  lemma CountTold(q: State, r: State, c: Id, e: nat, v: Id, todo: set<Id>, ids: set<Id>)
    requires c in q.nodes && c !in todo && Behind(q, e, todo, ids)
    requires var p := q.(nodes := q.nodes[c := q.nodes[c].(authCount := q.nodes[c].authCount + 1)], net := r.net);
             r == if q.nodes[c].authSent then p.(counted := q.counted[c := Counted(q, c) + {v}])
                  else p.(stale := q.stale[c := Stale(q, c) + 1])
    ensures Elsewhere(q, r, c, e, {}) && Tally(q, r, c, {v}) && Behind(r, e, todo, ids)
    ensures r.nodes.Keys == q.nodes.Keys && r.nodes[c] == q.nodes[c].(authCount := q.nodes[c].authCount + 1)
  {
    assert |{v}| == 1;
  }

  lemma StillReady(s: State, q: State, r: State, c: Id, e: nat, v: Id, todo: set<Id>, ids: set<Id>)
    requires PollReady(s, c, e, todo, ids) && v in todo && c in q.nodes && Tally(q, r, c, {v}) && Behind(r, e, todo - {v}, ids)
    requires q.nodes[c] == s.nodes[c] && q.wins == s.wins && Counted(q, c) == Counted(s, c) && Stale(q, c) == Stale(s, c)
    requires r.net == Requests(c, e, todo - {v})
    ensures PollReady(r, c, e, todo - {v}, ids) && Tally(s, r, c, {v})
  {
    hide Requests, Behind, ZeroEpochs, Counted, Stale;
  }

  lemma PollOne(s: State, c: Id, e: nat, v: Id, todo: set<Id>, ids: set<Id>, voters: set<Id>) returns (r: State)
    requires PollReady(s, c, e, todo, ids) && v in todo && todo <= voters
    ensures Reaches(s, r, voters) && PollReady(r, c, e, todo - {v}, ids)
    ensures Elsewhere(s, r, c, e, {v}) && Tally(s, r, c, {v})
  {
    hide Leads, Reaches, Requests, Elsewhere, Behind, ZeroEpochs, Ack, Counted, Stale;
    var q := Votes(s, c, e, v, todo, ids, voters);
    VoteTold(s, q, c, e, v, todo, ids);
    r := Counts(q, c, e, v, ids, voters, Requests(c, e, todo - {v}));
    CountTold(q, r, c, e, v, todo - {v}, ids);
    StillReady(s, q, r, c, e, v, todo, ids);
    hide *;
    ReachesNext(s, DeliverRequest(Request(v, c, e), Forced(), v), q, voters);
    ReachesNext(q, DeliverAck(Ack(c, v, e), true), r, voters);
    ReachesOn(s, q, r, voters);
    ElsewhereOn(s, q, r, c, e, {v}, {});
    assert {v} + {} == {v};
  }

  lemma NoPoll(s: State, c: Id, e: nat, ids: set<Id>)
    requires PollReady(s, c, e, {}, ids)
    ensures Elsewhere(s, s, c, e, {}) && Tally(s, s, c, {}) && s.net == multiset{}
  {
    hide Behind;
  }

  /** By induction over the voters: all of them vote, and all their acks are counted. */
  lemma {:induction false} Poll(s: State, c: Id, e: nat, todo: set<Id>, ids: set<Id>, voters: set<Id>) returns (r: State)
    requires PollReady(s, c, e, todo, ids) && todo <= voters
    ensures Reaches(s, r, voters) && r.net == multiset{}
    ensures Elsewhere(s, r, c, e, todo) && Tally(s, r, c, todo)
    decreases |todo|
  {
    hide *;
    if todo == {} {
      r := s;
      NoPoll(s, c, e, ids);
      ReachesSelf(s, voters);
    } else {
      var v :| v in todo;
      var q := PollOne(s, c, e, v, todo, ids, voters);
      r := Poll(q, c, e, todo - {v}, ids, voters);
      ElsewhereOn(s, q, r, c, e, {v}, todo - {v});
      TallyOn(s, q, r, c, v, todo - {v});
      assert {v} + (todo - {v}) == todo;
      ReachesOn(s, q, r, voters);
    }
  }

  // ----- a candidate -----

  /** Where a replica stands that never voted: its election epoch, whether that election began, and its count. */
  ghost predicate Stands(s: State, me: Id, e: nat, sent: bool, counted: set<Id>, stale: nat, ids: set<Id>) {
    && me in s.nodes && s.nodes[me] == Node(e, 0, e, |counted| + stale, sent, ZeroEpochs(ids))
    && Counted(s, me) == counted && Stale(s, me) == stale
  }

  /** A replica of `voters` is about to act, and no message is in flight. */
  ghost predicate Calm(s: State, me: Id, master: Id, ids: set<Id>, voters: set<Id>) {
    s.net == multiset{} && s.nodes.Keys == ids && voters <= ids && me in ids && me !in voters && master in voters
  }

  /** A replica that did nothing but move its own election fields is ready for the answers. */
  lemma ReadyToPoll(s: State, q: State, me: Id, e: nat, asked: set<Id>, ids: set<Id>)
    requires s.nodes.Keys == ids && me in ids && me !in asked && asked <= ids && Behind(s, e, asked, ids)
    requires me in q.nodes && q.nodes == s.nodes[me := q.nodes[me]] && q.net == Requests(me, e, asked)
    requires q.nodes[me].epochs == ZeroEpochs(ids) && q.nodes[me].currentEpoch == q.nodes[me].authEpoch == e
    requires forall i :: i != me ==> Counted(q, i) == Counted(s, i) && Stale(q, i) == Stale(s, i)
    ensures Elsewhere(s, q, me, e, {}) && PollReady(q, me, e, asked, ids)
  {
    hide Requests, ZeroEpochs, Counted, Stale;
  }

  lemma StandsAfterPoll(q: State, r: State, me: Id, e: nat, sent: bool, stale: nat, done: set<Id>, ids: set<Id>)
    requires Stands(q, me, e, sent, {}, stale, ids) && Tally(q, r, me, done)
    ensures Stands(r, me, e, sent, if sent then done else {}, if sent then stale else stale + |done|, ids)
  {
    hide ZeroEpochs, Counted, Stale;
    assert {} + done == done;
  }

  /** The answers to an election of `me` come in, and nothing else happens. */
  lemma Answers(s: State, q: State, me: Id, e: nat, sent: bool, stale: nat, asked: set<Id>, master: Id, ids: set<Id>, voters: set<Id>)
    returns (r: State)
    requires Reaches(s, q, voters) && PollReady(q, me, e, asked, ids) && Elsewhere(s, q, me, e, {})
    requires Calm(s, me, master, ids, voters) && asked <= voters && Stands(q, me, e, sent, {}, stale, ids)
    ensures Reaches(s, r, voters) && Calm(r, me, master, ids, voters) && Elsewhere(s, r, me, e, asked) && r.wins == q.wins
    ensures Stands(r, me, e, sent, if sent then asked else {}, if sent then stale else stale + |asked|, ids)
  {
    hide Leads, Reaches, PollReady, Stands;
    r := Poll(q, me, e, asked, ids, voters);
    assert r.nodes.Keys == ids && r.wins == q.wins;
    StandsAfterPoll(q, r, me, e, sent, stale, asked, ids);
    hide Elsewhere, Tally;
    ElsewhereOn(s, q, r, me, e, {}, asked);
    assert {} + asked == asked;
    ReachesOn(s, q, r, voters);
  }

  /** It starts an election, whose requests reach `asked` alone, and all of these vote for it. */
  lemma StartAndPoll(s: State, me: Id, e: nat, stale: nat, asked: set<Id>, master: Id, ids: set<Id>, voters: set<Id>)
    returns (r: State)
    requires Calm(s, me, master, ids, voters) && Stands(s, me, e, false, {}, stale, ids)
    requires asked <= voters && Behind(s, e + 1, asked, ids)
    ensures Reaches(s, r, voters) && Calm(r, me, master, ids, voters) && Elsewhere(s, r, me, e + 1, asked)
    ensures Stands(r, me, e + 1, true, asked, stale, ids) && r.wins == s.wins
  {
    hide Leads, Reaches, Requests, Cron, ZeroEpochs, Behind, Elsewhere, PollReady;
    var q := Starts(s, me, asked, master, ids, voters);
    ReachesNext(s, Cron(me, false, |voters|, asked, master), q, voters);
    ReadyToPoll(s, q, me, e + 1, asked, ids);
    assert Stands(q, me, e + 1, true, {}, stale, ids);
    hide *;
    r := Answers(s, q, me, e + 1, true, stale, asked, master, ids, voters);
  }

  /** It starts an election and gives it up, and the acks of `late` are counted only then. */
  lemma StartInVain(s: State, me: Id, late: set<Id>, master: Id, ids: set<Id>, voters: set<Id>) returns (r: State)
    requires Calm(s, me, master, ids, voters) && Stands(s, me, 0, false, {}, 0, ids)
    requires late <= voters && Behind(s, 1, late, ids)
    ensures Reaches(s, r, voters) && Calm(r, me, master, ids, voters) && Elsewhere(s, r, me, 1, late)
    ensures Stands(r, me, 1, false, {}, |late|, ids) && r.wins == s.wins
  {
    hide Leads, Reaches, Requests, Cron, ZeroEpochs, Behind, Elsewhere, PollReady;
    var p := Starts(s, me, late, master, ids, voters);
    ReachesNext(s, Cron(me, false, |voters|, late, master), p, voters);
    var q := GivesUp(p, me, master, ids, voters);
    ReachesNext(p, Cron(me, true, |voters|, {}, master), q, voters);
    ReadyToPoll(s, q, me, 1, late, ids);
    assert Stands(q, me, 1, false, {}, 0, ids);
    hide *;
    ReachesOn(s, p, q, voters);
    r := Answers(s, q, me, 1, false, 0, late, master, ids, voters);
  }

  /**
   A candidate that counts the acks of `late` after giving up epoch 1 and those
   of `voting` in epoch 2 wins epoch 2 if they are a quorum together.
   */
  lemma Campaign(s: State, me: Id, late: set<Id>, voting: set<Id>, master: Id, ids: set<Id>, voters: set<Id>)
    returns (q: State, r: State)
    requires Calm(s, me, master, ids, voters) && Stands(s, me, 0, false, {}, 0, ids)
    requires late <= voters && voting <= voters && |late| + |voting| >= Quorum(|voters|)
    requires Behind(s, 1, late, ids) && Behind(s, 2, voting, ids)
    ensures Reaches(s, r, voters) && r.net == multiset{} && r.nodes.Keys == ids
    ensures r.wins == s.wins + {Victory(me, 2, voting, |late|)}
    ensures Elsewhere(s, q, me, 1, late) && Elsewhere(q, r, me, 2, voting)
  {
    assert me !in voters;
    hide *;
    q := StartInVain(s, me, late, master, ids, voters);
    StillBehind(s, q, me, late, voting, ids, voters);
    var p := StartAndPoll(q, me, 1, |late|, voting, master, ids, voters);
    r := TakesOver(p, me, 2, |late|, voting, master, ids, voters);
    ReachesOn(s, q, p, voters);
    ReachesOn(s, p, r, voters);
    ElsewhereOn(q, p, r, me, 2, voting, {});
    assert voting + {} == voting;
  }

  /** It has a quorum, and wins. */
  lemma TakesOver(p: State, me: Id, e: nat, stale: nat, voting: set<Id>, master: Id, ids: set<Id>, voters: set<Id>)
    returns (r: State)
    requires Calm(p, me, master, ids, voters) && Stands(p, me, e, true, voting, stale, ids)
    requires stale + |voting| >= Quorum(|voters|)
    ensures Reaches(p, r, voters) && r.net == multiset{} && r.nodes.Keys == ids && Elsewhere(p, r, me, e, {})
    ensures r.wins == p.wins + {Victory(me, e, voting, stale)}
  {
    hide Reaches, Leads, Cron, ZeroEpochs, Counted, Stale;
    r := Wins(p, me, master, ids, voters);
    SameCounts(p, r);
    ReachesNext(p, Cron(me, false, |voters|, {}, master), r, voters);
  }

  lemma SameCounts(p: State, r: State)
    requires r.counted == p.counted && r.stale == p.stale
    ensures forall i :: Counted(r, i) == Counted(p, i) && Stale(r, i) == Stale(p, i)
  {
  }

  lemma StillBehind(s: State, q: State, me: Id, late: set<Id>, voting: set<Id>, ids: set<Id>, voters: set<Id>)
    requires Elsewhere(s, q, me, 1, late) && Behind(s, 2, voting, ids) && me !in voting
    ensures Behind(q, 2, voting, ids)
  {
  }

  // ----- two winners -----

  /** Masters `voters` and two replicas of them, all without an epoch. */
  function Fresh(ids: set<Id>): State {
    State(map i | i in ids :: Node(0, 0, 0, 0, false, ZeroEpochs(ids)), multiset{}, map[], map[], map[], {})
  }

  lemma FreshIsInitial(ids: set<Id>)
    ensures Initial(Fresh(ids))
  {
  }

  lemma PathIsRun(states: seq<State>, steps: seq<Step>, voters: set<Id>)
    requires Path(states, steps, voters) && Initial(states[0])
    ensures Run(states, steps) && VotersFixed(states, steps, voters)
  {
    hide Apply, Enabled, StepRespects, Consistent, Initial;
    forall i | 0 <= i < |steps|
      ensures Enabled(states[i], steps[i]) && states[i + 1] == Apply(states[i], steps[i]) && StepRespects(states[i], steps[i], voters)
    {
      assert Leads(states[i], steps[i], states[i + 1], voters);
    }
  }

  lemma {:induction false} SubsetOfSize(s: set<Id>, k: nat) returns (t: set<Id>)
    requires k <= |s|
    ensures t <= s && |t| == k
    decreases k
  {
    if k == 0 {
      t := {};
    } else {
      var x :| x in s;
      var rest := SubsetOfSize(s - {x}, k - 1);
      t := rest + {x};
    }
  }

  /** The second candidate finds things as the first one did, but for the voters that voted in epoch 2. */
  lemma AfterFirst(s: State, q: State, r: State, c: Id, d: Id, late: set<Id>, a: set<Id>, b: set<Id>, ids: set<Id>, voters: set<Id>)
    requires Elsewhere(s, q, c, 1, late) && Elsewhere(q, r, c, 2, a)
    requires c != d && d !in voters && late <= voters && a <= voters && c !in voters && b <= voters && a !! b
    requires Stands(s, d, 0, false, {}, 0, ids) && Behind(s, 1, voters, ids)
    ensures Stands(r, d, 0, false, {}, 0, ids) && Behind(r, 2, b, ids)
  {
  }

  lemma TwoCampaigns(c: Id, d: Id, late: set<Id>, a: set<Id>, b: set<Id>, master: Id, voters: set<Id>) returns (r: State)
    requires c != d && c !in voters && d !in voters && master in voters
    requires late <= voters && a <= voters && b <= voters && a !! b
    requires |late| + |a| >= Quorum(|voters|) && |b| >= Quorum(|voters|)
    ensures Reaches(Fresh(voters + {c, d}), r, voters) && r.wins == {Victory(c, 2, a, |late|), Victory(d, 2, b, 0)}
  {
    var ids := voters + {c, d};
    var s := Fresh(ids);
    hide *;
    FreshIsCalm(c, d, late, a, master, ids, voters);
    var p, q := Campaign(s, c, late, a, master, ids, voters);
    AfterFirst(s, p, q, c, d, late, a, b, ids, voters);
    CalmAgain(q, d, master, ids, voters);
    r := SecondCampaign(q, d, b, master, ids, voters);
    ReachesOn(s, q, r, voters);
  }

  lemma SecondCampaign(s: State, me: Id, voting: set<Id>, master: Id, ids: set<Id>, voters: set<Id>) returns (r: State)
    requires Calm(s, me, master, ids, voters) && Stands(s, me, 0, false, {}, 0, ids)
    requires voting <= voters && |voting| >= Quorum(|voters|) && Behind(s, 2, voting, ids)
    ensures Reaches(s, r, voters) && r.wins == s.wins + {Victory(me, 2, voting, 0)}
  {
    NoneBehind(s, ids);
    hide *;
    var q;
    q, r := Campaign(s, me, {}, voting, master, ids, voters);
  }

  lemma FreshIsCalm(c: Id, d: Id, late: set<Id>, a: set<Id>, master: Id, ids: set<Id>, voters: set<Id>)
    requires c !in voters && master in voters && ids == voters + {c, d} && late <= voters && a <= voters
    ensures var s := Fresh(ids);
            && Calm(s, c, master, ids, voters) && Behind(s, 1, voters, ids) && Behind(s, 1, late, ids) && Behind(s, 2, a, ids)
            && Stands(s, c, 0, false, {}, 0, ids) && Stands(s, d, 0, false, {}, 0, ids) && s.wins == {}
  {
    hide ZeroEpochs;
  }

  lemma CalmAgain(s: State, me: Id, master: Id, ids: set<Id>, voters: set<Id>)
    requires s.net == multiset{} && s.nodes.Keys == ids && voters <= ids && me in ids && me !in voters && master in voters
    ensures Calm(s, me, master, ids, voters)
  {
  }

  lemma NoneBehind(s: State, ids: set<Id>)
    ensures Behind(s, 1, {}, ids)
  {
  }

  /** Two replicas won one epoch. */
  ghost predicate ElectedTwo(s: State, w: Victory, u: Victory) {
    w in s.wins && u in s.wins && w.epoch == u.epoch && w.winner != u.winner
  }

  /** For any voters and any two replicas there is a run in which both win one epoch, with late acks at the budget. */
  lemma LateAcksElectTwo(voters: set<Id>, c: Id, d: Id) returns (states: seq<State>, steps: seq<Step>, w: Victory, u: Victory)
    requires voters != {} && c !in voters && d !in voters && c != d
    ensures Path(states, steps, voters) && Run(states, steps) && VotersFixed(states, steps, voters)
    ensures |states| == |steps| + 1 && ElectedTwo(states[|steps|], w, u) && w.winner == c && u.winner == d
    ensures w.stale + u.stale == Budget(|voters|)
  {
    var n := |voters|;
    var master :| master in voters;
    var late := SubsetOfSize(voters, Budget(n));
    var a := SubsetOfSize(voters, Quorum(n) - Budget(n));
    var b := voters - a;
    var r := TwoCampaigns(c, d, late, a, b, master, voters);
    var s := Fresh(voters + {c, d});
    FreshIsInitial(voters + {c, d});
    states, steps :| Path(states, steps, voters) && states[0] == s && states[|steps|] == r;
    hide Path, Fresh, Initial;
    PathIsRun(states, steps, voters);
    w, u := Victory(c, 2, a, |late|), Victory(d, 2, b, 0);
  }

  /** No run elects two replicas in one epoch with as few late acks between them. */
  ghost predicate SafeUpTo(late: nat, voters: set<Id>) {
    forall states, steps, n: nat, w, u ::
      Run(states, steps) && VotersFixed(states, steps, voters) && n < |states| && ElectedTwo(states[n], w, u)
      ==> w.stale + u.stale > late
  }

  /** Election safety holds exactly below the budget. */
  lemma SafeExactlyBelowBudget(late: nat, voters: set<Id>)
    requires voters != {}
    ensures SafeUpTo(late, voters) <==> late < Budget(|voters|)
  {
    hide Run, VotersFixed, Path;
    if late < Budget(|voters|) {
      forall states, steps, n: nat, w, u
        | Run(states, steps) && VotersFixed(states, steps, voters) && n < |states| && ElectedTwo(states[n], w, u)
        ensures w.stale + u.stale > late
      {
        if w.stale + u.stale <= late {
          ElectionSafety(states, steps, voters, n, w, u);
          assert false;
        }
      }
    } else {
      var c, d := NotIn(voters);
      var states, steps, w, u := LateAcksElectTwo(voters, c, d);
      assert !SafeUpTo(late, voters);
    }
  }

  lemma NotIn(voters: set<Id>) returns (c: Id, d: Id)
    ensures c !in voters && d !in voters && c != d
  {
    c := AllBelow(voters);
    d := c + 1;
  }

  lemma {:induction false} AllBelow(s: set<Id>) returns (m: Id)
    ensures forall i :: i in s ==> i < m
    decreases |s|
  {
    m := 0;
    if s != {} {
      var x :| x in s;
      var k := AllBelow(s - {x});
      m := if x < k then k else x + 1;
      assert s == (s - {x}) + {x};
    }
  }
}
