/**
 The epoch state of one cluster server and the handlers of cluster.c that
 update it in place, each held to the transition of the step system.
 */
module ClusterHandlers {
  import opened ClusterEpochs
  import Slots = ClusterSlots

  /** The configuration epochs of the present owners of the first n slots, as far as they are claimed. */
  ghost function ClaimedEpochs(t: Slots.Table, epochs: map<Id, nat>, claimed: Slots.Bitmap, n: nat): set<nat>
    requires n <= Slots.SLOTS
  {
    set j | 0 <= j < n && Slots.TestBit(claimed, j) && t[j].Served? && t[j].id in epochs :: epochs[t[j].id]
  }

  lemma NextClaimed(t: Slots.Table, epochs: map<Id, nat>, claimed: Slots.Bitmap, n: nat, e: nat)
    requires n < Slots.SLOTS && e in ClaimedEpochs(t, epochs, claimed, n + 1)
    ensures e in ClaimedEpochs(t, epochs, claimed, n)
      || (Slots.TestBit(claimed, n) && t[n].Served? && t[n].id in epochs && e == epochs[t[n].id])
  {
    hide Slots.TestBit;
  }

  class Server {
    const me: Id
    var currentEpoch: nat
    var lastVoteEpoch: nat
    var authEpoch: nat
    var authCount: nat
    var authSent: bool
    var epochs: map<Id, nat>

    function Model(): Node
      reads this
    {
      Node(currentEpoch, lastVoteEpoch, authEpoch, authCount, authSent, epochs)
    }

    constructor (me: Id)
      ensures IsFresh(me, Model()) && this.me == me
    {
      this.me := me;
      currentEpoch, lastVoteEpoch, authEpoch, authCount, authSent := 0, 0, 0, 0, false;
      epochs := map[me := 0];
    }

    /** Whatever else a packet does, its header has lifted the epochs that it names, which nothing lowers. */
    predicate HeaderSeen(h: Header, before: nat, known: map<Id, nat>)
      reads this
    {
      && currentEpoch >= before && currentEpoch >= h.currentEpoch && epochs.Keys == known.Keys
      && (h.sender in epochs ==> epochs[h.sender] >= h.configEpoch)
      && forall i :: i in known ==> epochs[i] >= known[i]
    }

    /** The epoch part of clusterProcessPacket. */
    method ProcessHeader(h: Header) returns (known: bool)
      modifies this
      ensures known == (h.sender in old(epochs)) && Model() == SeeHeader(old(Model()), h)
      ensures currentEpoch == if known && h.currentEpoch > old(currentEpoch) then h.currentEpoch else old(currentEpoch)
      ensures epochs == if known && h.configEpoch > old(epochs)[h.sender] then old(epochs)[h.sender := h.configEpoch] else old(epochs)
      ensures lastVoteEpoch == old(lastVoteEpoch) && authEpoch == old(authEpoch)
      ensures authCount == old(authCount) && authSent == old(authSent)
    {
      if h.sender !in epochs {
        return false;
      }
      if h.currentEpoch > currentEpoch {
        currentEpoch := h.currentEpoch;
      }
      if h.configEpoch > epochs[h.sender] {
        epochs := epochs[h.sender := h.configEpoch];
      } else {
        assert epochs == epochs[h.sender := epochs[h.sender]];
      }
      return true;
    }

    /** clusterHandleConfigEpochCollision between masters. */
    method ResolveCollision(sender: Id)
      requires me in epochs && sender in epochs
      modifies this
      ensures Model() == HandleCollision(me, old(Model()), sender)
      ensures if me < sender && old(epochs)[me] == old(epochs)[sender]
              then currentEpoch == old(currentEpoch) + 1 && epochs == old(epochs)[me := currentEpoch]
              else Model() == old(Model())
    {
      if epochs[sender] != epochs[me] || sender <= me {
        return;
      }
      currentEpoch := currentEpoch + 1;
      epochs := epochs[me := currentEpoch];
    }

    method ProcessPing(h: Header, bothMasters: bool)
      requires me in epochs
      modifies this
      ensures Model() == OnPing(me, old(Model()), h, bothMasters)
      ensures h.sender !in old(epochs) ==> Model() == old(Model())
      ensures h.sender in old(epochs) ==>
        var seen, current := old(epochs)[h.sender := Max(old(epochs)[h.sender], h.configEpoch)], Max(old(currentEpoch), h.currentEpoch);
        if bothMasters && me < h.sender && h.configEpoch == seen[me] == seen[h.sender]
        then currentEpoch == current + 1 && epochs == seen[me := current + 1]
        else currentEpoch == current && epochs == seen
    {
      var known := ProcessHeader(h);
      if known && bothMasters && h.configEpoch == epochs[me] {
        ResolveCollision(h.sender);
      }
    }

    method ProcessUpdate(h: Header, about: Id, reported: nat)
      modifies this
      ensures Model() == OnUpdate(old(Model()), h, about, reported)
      ensures h.sender in old(epochs) && about in old(epochs) ==>
        epochs[about] == Max(if about == h.sender then Max(old(epochs)[about], h.configEpoch) else old(epochs)[about], reported)
      ensures h.sender !in old(epochs) ==> Model() == old(Model())
      ensures h.sender in old(epochs) ==> HeaderSeen(h, old(currentEpoch), old(epochs))
    {
      var known := ProcessHeader(h);
      if !known || about !in epochs || epochs[about] >= reported {
        return;
      }
      epochs := epochs[about := reported];
    }

    /**
     clusterSendFailoverAuthIfNeeded, after the header was seen: the tests in
     the order of the source, and the loop over the claimed slots.
     */
    method VoteIfNeeded(h: Header, v: VoteView, t: Slots.Table, claimed: Slots.Bitmap) returns (granted: bool)
      requires h.sender in epochs && (forall j :: 0 <= j < Slots.SLOTS && t[j].Served? ==> t[j].id in epochs)
      requires v.claimedEpochs == ClaimedEpochs(t, epochs, claimed, Slots.SLOTS)
      modifies this`lastVoteEpoch
      ensures granted == Grants(old(Model()), h, v)
      ensures granted <==>
        && v.iCanVote && !v.senderIsMaster && v.masterKnown && (v.masterFailed || v.forceAck) && !v.votedRecently
        && h.currentEpoch >= currentEpoch && old(lastVoteEpoch) != currentEpoch
        && forall j :: 0 <= j < Slots.SLOTS && Slots.TestBit(claimed, j) && t[j].Served? ==> epochs[t[j].id] <= h.configEpoch
      ensures lastVoteEpoch == if granted then currentEpoch else old(lastVoteEpoch)
    {
      if !v.iCanVote || h.currentEpoch < currentEpoch || lastVoteEpoch == currentEpoch {
        return false;
      }
      if v.senderIsMaster || !v.masterKnown || (!v.masterFailed && !v.forceAck) || v.votedRecently {
        return false;
      }
      var j := 0;
      while j < Slots.SLOTS
        invariant 0 <= j <= Slots.SLOTS && lastVoteEpoch == old(lastVoteEpoch)
        invariant forall e :: e in ClaimedEpochs(t, epochs, claimed, j) ==> e <= h.configEpoch
        invariant forall i :: 0 <= i < j && Slots.TestBit(claimed, i) && t[i].Served? ==> epochs[t[i].id] <= h.configEpoch
      {
        if Slots.TestBit(claimed, j) && t[j].Served? && epochs[t[j].id] > h.configEpoch {
          assert epochs[t[j].id] in v.claimedEpochs;
          return false;
        }
        ghost var next := ClaimedEpochs(t, epochs, claimed, j + 1);
        forall e | e in next ensures e <= h.configEpoch {
          NextClaimed(t, epochs, claimed, j, e);
        }
        j := j + 1;
      }
      lastVoteEpoch := currentEpoch;
      return true;
    }

    method ProcessAuthRequest(h: Header, v: VoteView, t: Slots.Table, claimed: Slots.Bitmap) returns (granted: bool)
      requires forall j :: 0 <= j < Slots.SLOTS && t[j].Served? ==> t[j].id in epochs
      requires v.claimedEpochs == ClaimedEpochs(t, SeeHeader(Model(), h).epochs, claimed, Slots.SLOTS)
      modifies this
      ensures granted == VoteGranted(old(Model()), h, v) && Model() == OnAuthRequest(old(Model()), h, v)
      ensures granted <==>
        && h.sender in epochs && h.currentEpoch == currentEpoch && old(lastVoteEpoch) != currentEpoch
        && v.iCanVote && !v.senderIsMaster && v.masterKnown && (v.masterFailed || v.forceAck) && !v.votedRecently
        && forall j :: 0 <= j < Slots.SLOTS && Slots.TestBit(claimed, j) && t[j].Served? ==> epochs[t[j].id] <= h.configEpoch
      ensures lastVoteEpoch == if granted then currentEpoch else old(lastVoteEpoch)
      ensures h.sender in old(epochs) ==> HeaderSeen(h, old(currentEpoch), old(epochs))
    {
      hide ClaimedEpochs;
      var known := ProcessHeader(h);
      if !known {
        return false;
      }
      granted := VoteIfNeeded(h, v, t, claimed);
    }

    method ProcessAuthAck(h: Header, senderVotes: bool)
      modifies this
      ensures Model() == OnAuthAck(old(Model()), h, senderVotes)
      ensures authCount == old(authCount)
        + if h.sender in old(epochs) && senderVotes && h.currentEpoch >= authEpoch then 1 else 0
      ensures h.sender in old(epochs) ==> HeaderSeen(h, old(currentEpoch), old(epochs))
    {
      var known := ProcessHeader(h);
      if known && senderVotes && h.currentEpoch >= authEpoch {
        authCount := authCount + 1;
      }
    }

    /** clusterHandleSlaveFailover: which branch was taken, and what it did to the epochs. */
    method HandleSlaveFailover(v: FailoverView) returns (did: Attempt)
      requires me in epochs
      modifies this
      ensures did == Decide(old(Model()), v) && Model() == OnFailoverCron(me, old(Model()), v)
      ensures did.Reset? <==> v.eligible && v.retryElapsed
      ensures did.Start? <==> v.eligible && !v.retryElapsed && v.delayElapsed && !v.expired && !old(authSent)
      ensures did.Win? <==> v.eligible && !v.retryElapsed && v.delayElapsed && !v.expired && old(authSent) && 2 * old(authCount) > v.size
      ensures did.Idle? ==> Model() == old(Model())
      ensures did.Reset? ==> Model() == old(Model()).(authCount := 0, authSent := false)
      ensures did.Start? ==> authSent && authEpoch == currentEpoch == old(currentEpoch) + 1 && epochs == old(epochs)
      ensures did.Win? ==> epochs == old(epochs)[me := Max(old(epochs)[me], authEpoch)] && currentEpoch == old(currentEpoch)
    {
      if !v.eligible {
        return Idle;
      }
      if v.retryElapsed {
        authCount, authSent := 0, false;
        return Reset;
      }
      if !v.delayElapsed || v.expired {
        return Idle;
      }
      if !authSent {
        currentEpoch := currentEpoch + 1;
        authEpoch := currentEpoch;
        authSent := true;
        return Start;
      }
      if authCount < v.size / 2 + 1 {
        return Idle;
      }
      if epochs[me] < authEpoch {
        epochs := epochs[me := authEpoch];
      }
      return Win;
    }

    /** clusterBumpConfigEpochWithoutConsensus. */
    method BumpWithoutConsensus() returns (bumped: bool, ghost maxEpoch: nat)
      requires me in epochs
      modifies this
      ensures IsMaxEpoch(old(Model()), maxEpoch) && Model() == Bump(me, old(Model()), maxEpoch)
      ensures bumped <==> old(epochs)[me] == 0 || old(epochs)[me] != maxEpoch
      ensures if bumped then currentEpoch == old(currentEpoch) + 1 && epochs == old(epochs)[me := currentEpoch]
              else Model() == old(Model())
    {
      var max := GetMaxEpoch(Model());
      maxEpoch := max;
      if epochs[me] != 0 && epochs[me] == max {
        return false, max;
      }
      currentEpoch := currentEpoch + 1;
      epochs := epochs[me := currentEpoch];
      return true, max;
    }

    /** CLUSTER SET-CONFIG-EPOCH. */
    method AssignConfigEpoch(e: nat) returns (ok: bool)
      requires me in epochs
      modifies this
      ensures ok == (old(epochs) == map[me := 0]) && Model() == SetConfigEpoch(me, old(Model()), e)
      ensures if ok then epochs == map[me := e] && currentEpoch == Max(old(currentEpoch), e) else Model() == old(Model())
    {
      if |epochs| > 1 || epochs[me] != 0 {
        return false;
      }
      OnlyOne(epochs, me);
      epochs := epochs[me := e];
      assert epochs == map[me := e];
      if currentEpoch < e {
        currentEpoch := e;
      }
      return true;
    }
  }

  lemma OnlyOne(m: map<Id, nat>, k: Id)
    requires k in m && |m| <= 1
    ensures m == map[k := m[k]]
  {
    assert |m.Keys - {k}| == |m.Keys| - 1;
    assert m.Keys - {k} == {};
    assert m.Keys == {k};
  }
}
