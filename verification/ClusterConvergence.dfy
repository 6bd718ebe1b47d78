/**
 How the slot tables of cluster nodes converge: when every node makes one fixed
 claim under an epoch of its own, a node's table depends only on the set of
 claims it took in, not on their order, repetitions or way of arrival.
 */
module ClusterConvergence {
  import opened Basics
  import opened ClusterSlots

  datatype Claim = Claim(id: Id, epoch: nat, slots: Bitmap)

  /** What a node knows about slot owners and about the epochs of the nodes it knows. */
  datatype View = View(table: Table, epochs: map<Id, nat>)

  /**
   A message as it concerns claims: a PING or PONG of the claimer, an UPDATE
   about it sent by another node, or any other message of the claimer, of which
   only the header counts.
   */
  datatype Event = HeaderOnly(claim: Claim) | Ping(claim: Claim) | Update(claim: Claim)

  /** Updates the sender's epoch from a header that publishes a newer one. */
  function SawHeader(v: View, c: Claim): View
    requires c.id in v.epochs
  {
    if c.epoch > v.epochs[c.id] then v.(epochs := v.epochs[c.id := c.epoch]) else v
  }

  /** The table gives the claimer exactly the slots it claims: the bitmaps compare equal. */
  ghost predicate Matches(t: Table, c: Claim) {
    forall j :: 0 <= j < SLOTS ==> (TestBit(c.slots, j) <==> t[j] == Served(c.id))
  }

  /** clusterUpdateSlotsConfigWith when no slot is being imported. */
  function Bind(v: View, me: Id, c: Claim): View {
    if c.id == me then v else v.(table := Rebound(v.table, v.epochs, {}, c.id, c.epoch, c.slots, SLOTS))
  }

  ghost function Handle(v: View, me: Id, e: Event): View {
    var c := e.claim;
    if c.id !in v.epochs then v
    else
      match e
      case HeaderOnly(_) => SawHeader(v, c)
      case Ping(_) => if Matches(v.table, c) then SawHeader(v, c) else Bind(SawHeader(v, c), me, c)
      case Update(_) => if v.epochs[c.id] >= c.epoch then v
                        else Bind(v.(epochs := v.epochs[c.id := c.epoch]), me, c)
  }

  ghost function HandleAll(v: View, me: Id, run: seq<Event>): View {
    if run == [] then v else Handle(HandleAll(v, me, run[..|run| - 1]), me, run[|run| - 1])
  }

  // ----- the handlers -----

  lemma ByteByBits(x: Byte, y: Byte)
    requires forall i :: 0 <= i < 8 ==> HasBit(x, i) == HasBit(y, i)
    ensures x == y
  {
    assert HasBit(x, 0) == HasBit(y, 0) && HasBit(x, 1) == HasBit(y, 1) && HasBit(x, 2) == HasBit(y, 2) && HasBit(x, 3) == HasBit(y, 3);
    assert HasBit(x, 4) == HasBit(y, 4) && HasBit(x, 5) == HasBit(y, 5) && HasBit(x, 6) == HasBit(y, 6) && HasBit(x, 7) == HasBit(y, 7);
  }

  lemma BitmapByBits(a: Bitmap, b: Bitmap)
    requires forall j :: 0 <= j < SLOTS ==> TestBit(a, j) == TestBit(b, j)
    ensures a == b
  {
    hide HasBit;
    forall k | 0 <= k < SLOTS / 8 ensures a[k] == b[k] {
      forall i | 0 <= i < 8 ensures HasBit(a[k], i) == HasBit(b[k], i) {
        assert TestBit(a, 8 * k + i) == TestBit(b, 8 * k + i);
      }
      ByteByBits(a[k], b[k]);
    }
  }

  /** Comparing a node's bitmap with a claim is comparing the table with it. */
  lemma EqualBitmapsMatch(t: Table, nodes: map<Id, NodeSlots>, c: Claim)
    requires Agree(t, nodes) && c.id in nodes
    ensures nodes[c.id].bitmap == c.slots <==> Matches(t, c)
  {
    hide TestBit;
    assert NodeAgrees(t, c.id, nodes[c.id]);
    if Matches(t, c) {
      BitmapByBits(nodes[c.id].bitmap, c.slots);
    }
  }

  ghost function ViewOf(s: SlotState): View
    requires s.Valid()
    reads s, s.slots
  {
    View(s.slots[..], s.epochs)
  }

  /** What a node does with a claim its claimer sent in a PING or PONG. */
  method ReceivePing(s: SlotState, c: Claim, curmaster: Owner, keys: set<nat>)
    requires s.Valid() && s.importing == {}
    modifies s`epochs, s`nodes, s.slots
    ensures s.Valid() && ViewOf(s) == Handle(old(ViewOf(s)), s.me, Ping(c))
  {
    hide Agree, Rebound, Matches;
    if c.id !in s.nodes {
      return;
    }
    EqualBitmapsMatch(s.slots[..], s.nodes, c);
    if c.epoch > s.epochs[c.id] {
      s.epochs := s.epochs[c.id := c.epoch];
    }
    if s.nodes[c.id].bitmap != c.slots {
      var _, _ := s.UpdateSlotsConfigWith(c.id, c.epoch, c.slots, curmaster, keys);
    }
  }

  /** What a node does with a claim that another node reports in an UPDATE. */
  method ReceiveUpdate(s: SlotState, c: Claim, curmaster: Owner, keys: set<nat>)
    requires s.Valid() && s.importing == {}
    modifies s`epochs, s`nodes, s.slots
    ensures s.Valid() && ViewOf(s) == Handle(old(ViewOf(s)), s.me, Update(c))
  {
    hide Agree, Rebound;
    if c.id !in s.nodes || s.epochs[c.id] >= c.epoch {
      return;
    }
    s.epochs := s.epochs[c.id := c.epoch];
    var _, _ := s.UpdateSlotsConfigWith(c.id, c.epoch, c.slots, curmaster, keys);
  }

  // ----- the greatest claim -----

  /** One claim per node and one node per epoch. */
  ghost predicate Fixed(claims: set<Claim>) {
    forall c, d :: c in claims && d in claims && (c.id == d.id || c.epoch == d.epoch) ==> c == d
  }

  ghost predicate Claimed(S: set<Claim>, j: nat)
    requires j < SLOTS
  {
    exists c :: c in S && TestBit(c.slots, j)
  }

  /** c claims slot j under the greatest epoch of all claims to it. */
  ghost predicate Greatest(S: set<Claim>, j: nat, c: Claim)
    requires j < SLOTS
  {
    c in S && TestBit(c.slots, j) && forall d :: d in S && TestBit(d.slots, j) ==> d.epoch <= c.epoch
  }

  /** o is the owner of slot j that the claims S call for. */
  ghost predicate RightOwner(S: set<Claim>, j: nat, o: Owner)
    requires j < SLOTS
  {
    if Claimed(S, j) then exists c :: Greatest(S, j, c) && o == Served(c.id) else o == Unassigned
  }

  ghost predicate RightOwners(t: Table, S: set<Claim>) {
    forall j :: 0 <= j < SLOTS ==> RightOwner(S, j, t[j])
  }

  /** The claims leave no choice: there is at most one right table. */
  lemma RightTableIsUnique(t: Table, u: Table, S: set<Claim>)
    requires Fixed(S) && RightOwners(t, S) && RightOwners(u, S)
    ensures t == u
  {
    hide TestBit;
    forall j | 0 <= j < SLOTS ensures t[j] == u[j] {
      assert RightOwner(S, j, t[j]) && RightOwner(S, j, u[j]);
      if Claimed(S, j) {
        var c :| Greatest(S, j, c) && t[j] == Served(c.id);
        var d :| Greatest(S, j, d) && u[j] == Served(d.id);
      }
    }
  }

  /** Epochs of bound claims are known; no epoch is ahead of its node's claim. */
  ghost predicate EpochsFit(epochs: map<Id, nat>, claims: set<Claim>, S: set<Claim>) {
    && (forall c :: c in S ==> c.id in epochs && epochs[c.id] == c.epoch)
    && (forall c :: c in claims && c.id in epochs ==> epochs[c.id] == 0 || epochs[c.id] == c.epoch)
  }

  ghost predicate BoundBy(v: View, claims: set<Claim>, S: set<Claim>) {
    S <= claims && Fixed(claims) && EpochsFit(v.epochs, claims, S) && RightOwners(v.table, S)
  }

  lemma RightOwnerAfter(t: Table, epochs: map<Id, nat>, S: set<Claim>, c: Claim, j: nat)
    requires j < SLOTS && Fixed(S + {c}) && RightOwner(S, j, t[j])
    requires forall d :: d in S + {c} ==> d.id in epochs && epochs[d.id] == d.epoch
    ensures RightOwner(S + {c}, j, if Rebinds(t[j], j, epochs, {}, c.id, c.epoch, c.slots) then Served(c.id) else t[j])
  {
    hide TestBit;
    var S' := S + {c};
    var o := if Rebinds(t[j], j, epochs, {}, c.id, c.epoch, c.slots) then Served(c.id) else t[j];
    assert c in S';
    if Claimed(S, j) {
      var d :| Greatest(S, j, d) && t[j] == Served(d.id);
      assert d in S';
      if TestBit(c.slots, j) && d.epoch < c.epoch {
        assert Greatest(S', j, c) && o == Served(c.id);
      } else {
        assert Greatest(S', j, d) && o == Served(d.id);
      }
      assert Claimed(S', j);
    } else if TestBit(c.slots, j) {
      assert Greatest(S', j, c) && Claimed(S', j) && o == Served(c.id);
    } else {
      assert !Claimed(S', j);
    }
  }

  lemma BindKeepsRight(v: View, me: Id, claims: set<Claim>, S: set<Claim>, c: Claim)
    requires BoundBy(v, claims, S) && c in claims && c.id in v.epochs && v.epochs[c.id] == c.epoch
    requires c.id == me ==> c in S
    ensures BoundBy(Bind(v, me, c), claims, S + {c})
  {
    hide TestBit, RightOwner, Rebinds;
    if c.id == me {
      assert S + {c} == S;
    } else {
      forall j | 0 <= j < SLOTS ensures RightOwner(S + {c}, j, Bind(v, me, c).table[j]) {
        RightOwnerAfter(v.table, v.epochs, S, c, j);
      }
    }
  }

  /** Skipping the scan when the bitmaps are equal changes nothing. */
  lemma SkipChangesNothing(v: View, me: Id, c: Claim)
    requires Matches(v.table, c)
    ensures Bind(v, me, c) == v
  {
    hide TestBit;
  }

  // ----- runs -----

  /** The event at position i makes a node that knows the nodes `known` bind the claim it carries. */
  ghost predicate Binds(run: seq<Event>, known: set<Id>, i: nat)
    requires i < |run|
  {
    && run[i].claim.id in known
    && match run[i]
       case HeaderOnly(_) => false
       case Ping(_) => true
       case Update(c) => c.epoch > 0 && forall h :: 0 <= h < i ==> run[h].claim != c
  }

  /** The claims a run of messages makes a node bind. */
  ghost function Learned(run: seq<Event>, known: set<Id>): set<Claim> {
    set i | 0 <= i < |run| && Binds(run, known, i) :: run[i].claim
  }

  ghost predicate About(run: seq<Event>, claims: set<Claim>) {
    forall i :: 0 <= i < |run| ==> run[i].claim in claims
  }

  lemma LearnedStep(run: seq<Event>, known: set<Id>)
    requires run != []
    ensures var n := |run| - 1;
            Learned(run, known) == Learned(run[..n], known) + if Binds(run, known, n) then {run[n].claim} else {}
  {
    var n := |run| - 1;
    var init := run[..n];
    forall i | 0 <= i < n ensures Binds(run, known, i) == Binds(init, known, i) && init[i] == run[i] {
    }
    forall c | c in Learned(run, known) ensures c in Learned(init, known) + if Binds(run, known, n) then {run[n].claim} else {} {
      var i :| 0 <= i < |run| && Binds(run, known, i) && run[i].claim == c;
      if i < n {
        assert Binds(init, known, i) && init[i].claim == c;
      }
    }
    forall c | c in Learned(init, known) ensures c in Learned(run, known) {
      var i :| 0 <= i < |init| && Binds(init, known, i) && init[i].claim == c;
      assert Binds(run, known, i) && run[i].claim == c;
    }
    if Binds(run, known, n) {
      assert run[n].claim in Learned(run, known);
    }
  }

  /** A claim's epoch is known from the first message about it, and not before. */
  ghost predicate EpochKnownFrom(epochs: map<Id, nat>, known: set<Id>, own: set<Claim>, claims: set<Claim>, run: seq<Event>) {
    && epochs.Keys == known
    && forall c :: c in claims && c.id in known ==>
         (epochs[c.id] == c.epoch <==> c.epoch == 0 || c in own || exists i :: 0 <= i < |run| && run[i].claim == c)
  }

  /** The view of a node before any message: it holds its own claims, and knows of no other epoch. */
  ghost predicate Starts(v: View, me: Id, known: set<Id>, own: set<Claim>, claims: set<Claim>) {
    && BoundBy(v, claims, own) && EpochKnownFrom(v.epochs, known, own, claims, [])
    && (forall c :: c in claims && c.id == me ==> c in own)
  }

  lemma EpochStep(v: View, me: Id, known: set<Id>, own: set<Claim>, claims: set<Claim>, run: seq<Event>)
    requires run != [] && About(run, claims) && Fixed(claims)
    requires EpochKnownFrom(v.epochs, known, own, claims, run[..|run| - 1])
    requires EpochsFit(v.epochs, claims, {})
    ensures EpochKnownFrom(Handle(v, me, run[|run| - 1]).epochs, known, own, claims, run)
    ensures EpochsFit(Handle(v, me, run[|run| - 1]).epochs, claims, {})
  {
    hide Matches, Rebound;
    var n := |run| - 1;
    var e, init := run[n], run[..n];
    var w := Handle(v, me, e).epochs;
    assert w == if e.claim.id in known then v.epochs[e.claim.id := e.claim.epoch] else v.epochs by {
      assert e.claim in claims;
      assert e.claim.id in known ==> v.epochs[e.claim.id] == 0 || v.epochs[e.claim.id] == e.claim.epoch;
      assert e.claim.id in known && v.epochs[e.claim.id] == e.claim.epoch ==> v.epochs == v.epochs[e.claim.id := e.claim.epoch];
    }
    forall c | c in claims && c.id in known
      ensures w[c.id] == c.epoch <==> c.epoch == 0 || c in own || exists i :: 0 <= i < |run| && run[i].claim == c
    {
      if c == e.claim {
        assert run[n].claim == c;
      } else {
        assert w[c.id] == v.epochs[c.id];
        if i :| 0 <= i < |run| && run[i].claim == c {
          assert init[i].claim == c;
        }
        if i :| 0 <= i < |init| && init[i].claim == c {
          assert run[i].claim == c;
        }
      }
    }
  }

  lemma HandleBinds(v: View, me: Id, known: set<Id>, own: set<Claim>, claims: set<Claim>, run: seq<Event>, S: set<Claim>)
    requires run != [] && About(run, claims) && BoundBy(v, claims, S) && own <= S
    requires EpochKnownFrom(v.epochs, known, own, claims, run[..|run| - 1])
    requires forall c :: c in claims && c.id == me ==> c in own
    ensures BoundBy(Handle(v, me, run[|run| - 1]), claims, S + if Binds(run, known, |run| - 1) then {run[|run| - 1].claim} else {})
  {
    hide TestBit, RightOwners, Rebound, Matches;
    var n := |run| - 1;
    var e, c, init := run[n], run[n].claim, run[..n];
    assert c in claims;
    assert S + {} == S;
    if c.id in known {
      var w := v.(epochs := v.epochs[c.id := c.epoch]);
      assert v.epochs[c.id] == 0 || v.epochs[c.id] == c.epoch;
      assert v.epochs[c.id] == c.epoch ==> w == v;
      assert SawHeader(v, c) == w;
      assert BoundBy(w, claims, S);
      BindKeepsRight(w, me, claims, S, c);
      match e
      case HeaderOnly(_) =>
      case Ping(_) =>
        if Matches(v.table, c) {
          assert Bind(w, me, c) == w by { SkipChangesNothing(w, me, c); }
        }
      case Update(_) =>
        if v.epochs[c.id] >= c.epoch {
          assert w == v;
          if Binds(run, known, n) {
            assert forall i :: 0 <= i < |init| ==> init[i].claim == run[i].claim;
            assert c in own;
            assert S + {c} == S;
          }
        } else {
          assert c !in own && c.epoch > 0;
          forall h | 0 <= h < n ensures run[h].claim != c {
            assert init[h].claim != c;
          }
          assert Binds(run, known, n);
        }
    }
  }

  lemma {:induction false} RunBinds(v: View, me: Id, known: set<Id>, own: set<Claim>, claims: set<Claim>, run: seq<Event>)
    requires Starts(v, me, known, own, claims) && About(run, claims)
    ensures BoundBy(HandleAll(v, me, run), claims, own + Learned(run, known))
    ensures EpochKnownFrom(HandleAll(v, me, run).epochs, known, own, claims, run)
  {
    assert run == [] ==> Learned(run, known) == {};
    hide RightOwners, Handle, Learned, Binds, Fixed;
    if run == [] {
      assert own + {} == own;
    } else {
      var n := |run| - 1;
      var init := run[..n];
      RunBinds(v, me, known, own, claims, init);
      var w, S := HandleAll(v, me, init), own + Learned(init, known);
      HandleBinds(w, me, known, own, claims, run, S);
      EpochStep(w, me, known, own, claims, run);
      LearnedStep(run, known);
      assert own + Learned(run, known) == S + if Binds(run, known, n) then {run[n].claim} else {};
    }
  }

  /** After any run of messages every slot belongs to the greatest claim to it of those bound. */
  lemma GreatestClaimOwns(v: View, me: Id, known: set<Id>, own: set<Claim>, claims: set<Claim>, run: seq<Event>)
    requires Starts(v, me, known, own, claims) && About(run, claims)
    ensures RightOwners(HandleAll(v, me, run).table, own + Learned(run, known))
  {
    hide RightOwners;
    RunBinds(v, me, known, own, claims, run);
  }

  /** Two nodes that bound the same claims, in any order and any number of times, have the same table. */
  lemma Convergence(v1: View, me1: Id, known1: set<Id>, own1: set<Claim>, run1: seq<Event>,
                    v2: View, me2: Id, known2: set<Id>, own2: set<Claim>, run2: seq<Event>, claims: set<Claim>)
    requires Starts(v1, me1, known1, own1, claims) && About(run1, claims)
    requires Starts(v2, me2, known2, own2, claims) && About(run2, claims)
    requires own1 + Learned(run1, known1) == own2 + Learned(run2, known2)
    ensures HandleAll(v1, me1, run1).table == HandleAll(v2, me2, run2).table
  {
    hide RightOwners, Learned;
    RunBinds(v1, me1, known1, own1, claims, run1);
    RunBinds(v2, me2, known2, own2, claims, run2);
    RightTableIsUnique(HandleAll(v1, me1, run1).table, HandleAll(v2, me2, run2).table, own1 + Learned(run1, known1));
  }

  /** The very first message that concerned claim c was an UPDATE. */
  ghost predicate FirstIsUpdate(run: seq<Event>, c: Claim) {
    exists i :: 0 <= i < |run| && run[i] == Update(c) && forall h :: 0 <= h < i ==> run[h].claim != c
  }

  /** The node has made the claim itself, or knows the claimer and was told by it, or by others at first hearing. */
  ghost predicate Taught(run: seq<Event>, known: set<Id>, own: set<Claim>, c: Claim) {
    c in own || (c.id in known && (Ping(c) in run || (c.epoch > 0 && FirstIsUpdate(run, c))))
  }

  lemma LearnedIfTaught(run: seq<Event>, known: set<Id>, own: set<Claim>, c: Claim)
    ensures c in own + Learned(run, known) <==> Taught(run, known, own, c)
  {
    if c in Learned(run, known) {
      var i :| 0 <= i < |run| && Binds(run, known, i) && run[i].claim == c;
      assert run[i] == Ping(c) || run[i] == Update(c);
    }
    if Ping(c) in run && c.id in known {
      var i :| 0 <= i < |run| && run[i] == Ping(c);
      assert Binds(run, known, i) && run[i].claim == c;
    }
    if FirstIsUpdate(run, c) && c.id in known && c.epoch > 0 {
      var i :| 0 <= i < |run| && run[i] == Update(c) && forall h :: 0 <= h < i ==> run[h].claim != c;
      assert Binds(run, known, i) && run[i].claim == c;
    }
  }

  /**
   The slot table after any run, slot by slot: a node is given slot j exactly
   when its claim to it was taught and no claim taught to j has a later epoch;
   a slot has no owner exactly when no claim to it was taught.
   */
  lemma ServedExactly(v: View, me: Id, known: set<Id>, own: set<Claim>, claims: set<Claim>, run: seq<Event>, j: nat, c: Claim)
    requires Starts(v, me, known, own, claims) && About(run, claims) && j < SLOTS && c in claims
    ensures var o := HandleAll(v, me, run).table[j];
            && (o == Served(c.id) <==>
                  && Taught(run, known, own, c) && TestBit(c.slots, j)
                  && forall d :: d in claims && Taught(run, known, own, d) && TestBit(d.slots, j) ==> d.epoch <= c.epoch)
            && (o == Unassigned <==> forall d :: d in claims && TestBit(d.slots, j) ==> !Taught(run, known, own, d))
  {
    hide TestBit, Taught, Learned, HandleAll;
    var S := own + Learned(run, known);
    RunBinds(v, me, known, own, claims, run);
    forall d ensures d in S <==> Taught(run, known, own, d) {
      LearnedIfTaught(run, known, own, d);
    }
    var o := HandleAll(v, me, run).table[j];
    assert S <= claims && Fixed(claims) && RightOwner(S, j, o);
    if Claimed(S, j) {
      var d :| Greatest(S, j, d) && o == Served(d.id);
    }
  }

  /** Without header-only messages and without a claim under epoch 0, every message about a known node counts. */
  lemma {:induction false} AllDeliveredAreLearned(run: seq<Event>, known: set<Id>)
    requires forall i :: 0 <= i < |run| ==> !run[i].HeaderOnly? && run[i].claim.epoch > 0 && run[i].claim.id in known
    ensures Learned(run, known) == set e | e in run :: e.claim
  {
    if run == [] {
      assert Learned(run, known) == {};
    } else {
      var n := |run| - 1;
      var init := run[..n];
      assert forall i :: 0 <= i < n ==> init[i] == run[i];
      AllDeliveredAreLearned(init, known);
      LearnedStep(run, known);
      ClaimsSnoc(run);
      hide Learned;
      if !Binds(run, known, n) {
        var h :| 0 <= h < n && run[h].claim == run[n].claim;
        assert init[h] in init;
      }
    }
  }

  lemma ClaimsSnoc(run: seq<Event>)
    requires run != []
    ensures (set e | e in run :: e.claim) == (set e | e in run[..|run| - 1] :: e.claim) + {run[|run| - 1].claim}
  {
    var n := |run| - 1;
    assert run == run[..n] + [run[n]];
  }

  /**
   A header that arrives without slots makes a node deaf to the UPDATE that
   would have taught it the claim: the slot stays unassigned although its only
   claim was delivered.
   */
  lemma HeaderHidesUpdate(c: Claim, me: Id, j: nat)
    requires c.epoch > 0 && c.id != me && j < SLOTS && TestBit(c.slots, j)
    ensures var v := View(seq(SLOTS, _ => Unassigned), map[me := 0, c.id := 0]);
            && Starts(v, me, {me, c.id}, {}, {c})
            && HandleAll(v, me, [HeaderOnly(c), Update(c)]).table[j] == Unassigned
            && HandleAll(v, me, [Update(c), HeaderOnly(c)]).table[j] == Served(c.id)
  {
    hide TestBit;
    var v := View(seq(SLOTS, _ => Unassigned), map[me := 0, c.id := 0]);
    forall k | 0 <= k < SLOTS ensures RightOwner({}, k, v.table[k]) {
    }
    var r1, r2 := [HeaderOnly(c), Update(c)], [Update(c), HeaderOnly(c)];
    assert r1[..1] == [HeaderOnly(c)] && r1[..1][..0] == [] && r2[..1] == [Update(c)] && r2[..1][..0] == [];
    assert HandleAll(v, me, r1[..1]) == Handle(HandleAll(v, me, []), me, HeaderOnly(c));
    assert HandleAll(v, me, r2[..1]) == Handle(HandleAll(v, me, []), me, Update(c));
  }
}
