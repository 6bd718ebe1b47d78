/**
 The slot table of a cluster node: the owner of each of the 16384 hash slots,
 the bitmap and the slot count kept for every known node, and the operations of
 cluster.c that change them together.
 */
module ClusterSlots {

  import opened Basics

  type Id = nat

  const SLOTS: nat := 16384

  datatype Owner = Unassigned | Served(id: Id)

  // ----- bitmaps -----

  /** `1 << i` in a byte. */
  function Shifted(i: nat): Byte
    requires i < 8
  {
    match i
    case 0 => 1
    case 1 => 2
    case 2 => 4
    case 3 => 8
    case 4 => 16
    case 5 => 32
    case 6 => 64
    case _ => 128
  }

  lemma ShiftedIsShift(i: nat)
    requires i < 8
    ensures Shifted(i) == 1 << i
  {
  }

  predicate HasBit(x: Byte, i: nat)
    requires i < 8
  {
    x & Shifted(i) != 0
  }

  function SetIn(x: Byte, i: nat): Byte
    requires i < 8
  {
    x | Shifted(i)
  }

  function ClearIn(x: Byte, i: nat): Byte
    requires i < 8
  {
    x & !Shifted(i)
  }

  type Bitmap = b: seq<Byte> | |b| == SLOTS / 8 witness seq(SLOTS / 8, _ => 0)

  function TestBit(b: Bitmap, pos: nat): bool
    requires pos < SLOTS
  {
    HasBit(b[pos / 8], pos % 8)
  }

  function SetBit(b: Bitmap, pos: nat): Bitmap
    requires pos < SLOTS
  {
    b[pos / 8 := SetIn(b[pos / 8], pos % 8)]
  }

  function ClearBit(b: Bitmap, pos: nat): Bitmap
    requires pos < SLOTS
  {
    b[pos / 8 := ClearIn(b[pos / 8], pos % 8)]
  }

  lemma MasksDisjoint(i: nat, j: nat)
    requires i < 8 && j < 8
    ensures i != j ==> Shifted(i) & Shifted(j) == 0
    ensures Shifted(i) != 0
  {
  }

  lemma ByteFacts(x: Byte, a: Byte, b: Byte)
    ensures a & b == 0 ==> (x | a) & b == x & b && (x & !a) & b == x & b
    ensures a != 0 ==> (x | a) & a != 0 && (x & !a) & a == 0
  {
  }

  lemma InByte(x: Byte, i: nat, j: nat)
    requires i < 8 && j < 8
    ensures HasBit(SetIn(x, i), j) == (i == j || HasBit(x, j))
    ensures HasBit(ClearIn(x, i), j) == (i != j && HasBit(x, j))
  {
    hide Shifted;
    MasksDisjoint(i, j);
    ByteFacts(x, Shifted(i), Shifted(j));
  }

  /** Setting or clearing one bit leaves every other bit as it was. */
  lemma BitAfterUpdate(b: Bitmap, p: nat, k: nat)
    requires p < SLOTS && k < SLOTS
    ensures TestBit(SetBit(b, p), k) == (k == p || TestBit(b, k))
    ensures TestBit(ClearBit(b, p), k) == (k != p && TestBit(b, k))
  {
    hide HasBit, SetIn, ClearIn;
    InByte(b[p / 8], p % 8, k % 8);
  }

  // ----- agreement of table, bitmaps and counts -----

  type Table = t: seq<Owner> | |t| == SLOTS witness seq(SLOTS, _ => Unassigned)

  datatype NodeSlots = NodeSlots(bitmap: Bitmap, numslots: nat)

  /** clusterNodeSetSlotBit. */
  function WithBit(s: NodeSlots, j: nat): NodeSlots
    requires j < SLOTS
  {
    NodeSlots(SetBit(s.bitmap, j), if TestBit(s.bitmap, j) then s.numslots else s.numslots + 1)
  }

  /** clusterNodeClearSlotBit. */
  function WithoutBit(s: NodeSlots, j: nat): NodeSlots
    requires j < SLOTS && (TestBit(s.bitmap, j) ==> s.numslots > 0)
  {
    NodeSlots(ClearBit(s.bitmap, j), if TestBit(s.bitmap, j) then s.numslots - 1 else s.numslots)
  }

  /** The number of slots of t that node n serves. */
  function CountOf(t: seq<Owner>, n: Id): nat {
    if t == [] then 0 else CountOf(t[1..], n) + if t[0] == Served(n) then 1 else 0
  }

  lemma {:induction false} CountUpdate(t: seq<Owner>, j: nat, o: Owner, n: Id)
    requires j < |t|
    ensures CountOf(t[j := o], n) == CountOf(t, n) - (if t[j] == Served(n) then 1 else 0) + (if o == Served(n) then 1 else 0)
    ensures t[j] == Served(n) ==> CountOf(t, n) >= 1
  {
    if j == 0 {
      assert t[0 := o][1..] == t[1..];
    } else {
      assert t[j := o][1..] == t[1..][j - 1 := o];
      CountUpdate(t[1..], j - 1, o, n);
    }
  }

  ghost predicate NodeAgrees(t: Table, n: Id, s: NodeSlots) {
    && (forall j :: 0 <= j < SLOTS ==> (TestBit(s.bitmap, j) <==> t[j] == Served(n)))
    && s.numslots == CountOf(t, n)
  }

  /** slots[j] == n iff bit j of n is set; counts match; so each slot is in at most one bitmap. */
  ghost predicate Agree(t: Table, nodes: map<Id, NodeSlots>) {
    && (forall j :: 0 <= j < SLOTS && t[j].Served? ==> t[j].id in nodes)
    && (forall n :: n in nodes ==> NodeAgrees(t, n, nodes[n]))
  }

  lemma {:induction false} AssignAgrees(t: Table, nodes: map<Id, NodeSlots>, n: Id, j: nat, s: NodeSlots)
    requires Agree(t, nodes) && n in nodes && j < SLOTS && t[j] == Unassigned
    requires s == NodeSlots(SetBit(nodes[n].bitmap, j), nodes[n].numslots + 1)
    ensures Agree(t[j := Served(n)], nodes[n := s])
  {
    hide TestBit, SetBit, ClearBit;
    var u := t[j := Served(n)];
    assert NodeAgrees(t, n, nodes[n]);
    CountUpdate(t, j, Served(n), n);
    forall k | 0 <= k < SLOTS ensures TestBit(s.bitmap, k) <==> u[k] == Served(n) {
      BitAfterUpdate(nodes[n].bitmap, j, k);
    }
    forall m | m in nodes && m != n ensures NodeAgrees(u, m, nodes[m]) {
      assert NodeAgrees(t, m, nodes[m]);
      CountUpdate(t, j, Served(n), m);
    }
  }

  lemma {:induction false} ReleaseAgrees(t: Table, nodes: map<Id, NodeSlots>, j: nat, s: NodeSlots)
    requires Agree(t, nodes) && j < SLOTS && t[j].Served? && t[j].id in nodes && nodes[t[j].id].numslots > 0
    requires s == NodeSlots(ClearBit(nodes[t[j].id].bitmap, j), nodes[t[j].id].numslots - 1)
    ensures Agree(t[j := Unassigned], nodes[t[j].id := s])
  {
    hide TestBit, SetBit, ClearBit;
    var u, n := t[j := Unassigned], t[j].id;
    assert NodeAgrees(t, n, nodes[n]);
    CountUpdate(t, j, Unassigned, n);
    forall k | 0 <= k < SLOTS ensures TestBit(s.bitmap, k) <==> u[k] == Served(n) {
      BitAfterUpdate(nodes[n].bitmap, j, k);
    }
    forall m | m in nodes && m != n ensures NodeAgrees(u, m, nodes[m]) {
      assert NodeAgrees(t, m, nodes[m]);
      CountUpdate(t, j, Unassigned, m);
    }
  }

  /** The bit that clusterDelSlot asserts to have been set is set, and the count it decrements is positive. */
  lemma DelSlotAssertionHolds(t: Table, nodes: map<Id, NodeSlots>, j: nat)
    requires Agree(t, nodes) && j < SLOTS && t[j].Served?
    ensures t[j].id in nodes && TestBit(nodes[t[j].id].bitmap, j) && nodes[t[j].id].numslots > 0
  {
    hide TestBit;
    assert NodeAgrees(t, t[j].id, nodes[t[j].id]);
    CountUpdate(t, j, Unassigned, t[j].id);
  }

  // ----- what a configuration claims -----

  /** clusterUpdateSlotsConfigWith rebinds slot j, owned by o, to the sender. */
  predicate Rebinds(o: Owner, j: nat, epochs: map<Id, nat>, importing: set<nat>, sender: Id, epoch: nat, claimed: Bitmap)
    requires j < SLOTS
  {
    && TestBit(claimed, j) && o != Served(sender) && j !in importing
    && (o == Unassigned || (o.id in epochs && epochs[o.id] < epoch))
  }

  /** The table after the first n slots of a configuration of the sender were taken in. */
  function Rebound(t: Table, epochs: map<Id, nat>, importing: set<nat>, sender: Id, epoch: nat, claimed: Bitmap, n: nat): (r: Table)
    ensures forall j :: 0 <= j < SLOTS ==>
      r[j] == if j < n && Rebinds(t[j], j, epochs, importing, sender, epoch, claimed) then Served(sender) else t[j]
  {
    seq(SLOTS, j requires 0 <= j < SLOTS =>
      if j < n && Rebinds(t[j], j, epochs, importing, sender, epoch, claimed) then Served(sender) else t[j])
  }

  /** One of the first n slots was `owner`'s, which may be nobody, and is rebound. */
  predicate LosesSlot(t: Table, owner: Owner, epochs: map<Id, nat>, importing: set<nat>, sender: Id, epoch: nat,
                      claimed: Bitmap, n: nat)
    requires n <= SLOTS
  {
    exists j :: 0 <= j < n && t[j] == owner && Rebinds(t[j], j, epochs, importing, sender, epoch, claimed)
  }

  /** The slots that a node lost while it still held keys in them, in ascending order. */
  function DirtySlots(t: Table, me: Id, keys: set<nat>, epochs: map<Id, nat>, importing: set<nat>, sender: Id, epoch: nat,
                      claimed: Bitmap, n: nat): seq<nat>
    requires n <= SLOTS
  {
    if n == 0 then []
    else
      DirtySlots(t, me, keys, epochs, importing, sender, epoch, claimed, n - 1) +
      if t[n - 1] == Served(me) && n - 1 in keys && Rebinds(t[n - 1], n - 1, epochs, importing, sender, epoch, claimed)
      then [n - 1] else []
  }

  /** What follows for this node: nothing, it replicates the sender, or it drops the keys of the slots it lost. */
  datatype Outcome = Keep | Follow | DropKeys
    | Undefined // a replica whose master is unknown takes a free slot for its master's, and reads through NULL

  class SlotState {
    const me: Id
    var slots: array<Owner>
    var nodes: map<Id, NodeSlots>
    var epochs: map<Id, nat>
    var importing: set<nat>

    ghost predicate Valid()
      reads this, slots
    {
      slots.Length == SLOTS && Agree(slots[..], nodes) && epochs.Keys == nodes.Keys && me in nodes
    }

    constructor (me: Id)
      ensures Valid() && fresh(slots) && this.me == me && (forall j :: 0 <= j < SLOTS ==> slots[j] == Unassigned)
    {
      this.me := me;
      slots := new Owner[SLOTS](_ => Unassigned);
      nodes := map[me := NodeSlots(seq(SLOTS / 8, _ => 0), 0)];
      epochs := map[me := 0];
      importing := {};
      new;
      NothingServed(slots[..], me);
    }

    /** clusterAddSlot: fails if the slot is assigned. */
    method AddSlot(n: Id, j: nat) returns (ok: bool)
      requires Valid() && n in nodes && j < SLOTS
      modifies this`nodes, slots
      ensures Valid() && ok == (old(slots[j]) == Unassigned)
      ensures slots[..] == if ok then old(slots[..])[j := Served(n)] else old(slots[..])
      ensures nodes.Keys == old(nodes.Keys)
    {
      hide Agree;
      if slots[j] != Unassigned {
        return false;
      }
      BitIsClear(slots[..], nodes, n, j);
      var s := WithBit(nodes[n], j);
      AssignAgrees(slots[..], nodes, n, j, s);
      slots[j] := Served(n);
      nodes := nodes[n := s];
      assert slots[..] == old(slots[..])[j := Served(n)];
      return true;
    }

    /** clusterDelSlot: fails if the slot is unassigned; its assertion never fires. */
    method DelSlot(j: nat) returns (ok: bool)
      requires Valid() && j < SLOTS
      modifies this`nodes, slots
      ensures Valid() && ok == old(slots[j]).Served?
      ensures slots[..] == old(slots[..])[j := Unassigned]
      ensures nodes.Keys == old(nodes.Keys)
    {
      hide Agree;
      if slots[j] == Unassigned {
        assert slots[..] == slots[..][j := Unassigned];
        return false;
      }
      var n := slots[j].id;
      DelSlotAssertionHolds(slots[..], nodes, j);
      assert TestBit(nodes[n].bitmap, j);
      var s := WithoutBit(nodes[n], j);
      ReleaseAgrees(slots[..], nodes, j, s);
      slots[j] := Unassigned;
      nodes := nodes[n := s];
      assert slots[..] == old(slots[..])[j := Unassigned];
      return true;
    }

    /** Moves a slot, whoever has it, to node n: clusterDelSlot, then clusterAddSlot. */
    method MoveSlot(n: Id, j: nat)
      requires Valid() && n in nodes && j < SLOTS
      modifies this`nodes, slots
      ensures Valid() && slots[..] == old(slots[..])[j := Served(n)] && nodes.Keys == old(nodes.Keys)
    {
      hide Agree;
      var _ := DelSlot(j);
      var ok := AddSlot(n, j);
    }

    /** clusterDelNodeSlots: releases every slot whose bit is set in the node's bitmap. */
    method DelNodeSlots(n: Id)
      requires Valid() && n in nodes
      modifies this`nodes, slots
      ensures Valid() && nodes.Keys == old(nodes.Keys)
      ensures slots[..] == Replaced(old(slots[..]), Served(n), Unassigned, SLOTS)
      ensures forall j :: 0 <= j < SLOTS ==> slots[j] == if old(slots[j]) == Served(n) then Unassigned else old(slots[j])
    {
      hide Agree;
      ghost var t0 := slots[..];
      ReplacedNone(t0, Served(n), Unassigned);
      var j := 0;
      while j < SLOTS
        invariant 0 <= j <= SLOTS && Valid() && nodes.Keys == old(nodes.Keys)
        invariant slots[..] == Replaced(t0, Served(n), Unassigned, j)
      {
        BitMeansServed(slots[..], nodes, n, j);
        ReplacedStep(t0, Served(n), Unassigned, j);
        if TestBit(nodes[n].bitmap, j) {
          var _ := DelSlot(j);
        }
        j := j + 1;
      }
    }

    /** The loop of clusterFailoverReplaceYourMaster: all slots of the old master become mine. */
    method ReplaceMaster(oldmaster: Id)
      requires Valid() && oldmaster in nodes && oldmaster != me
      modifies this`nodes, slots
      ensures Valid() && nodes.Keys == old(nodes.Keys)
      ensures slots[..] == Replaced(old(slots[..]), Served(oldmaster), Served(me), SLOTS)
      ensures forall j :: 0 <= j < SLOTS ==> slots[j] == if old(slots[j]) == Served(oldmaster) then Served(me) else old(slots[j])
    {
      hide Agree;
      ghost var t0 := slots[..];
      ReplacedNone(t0, Served(oldmaster), Served(me));
      var j := 0;
      while j < SLOTS
        invariant 0 <= j <= SLOTS && Valid() && nodes.Keys == old(nodes.Keys)
        invariant slots[..] == Replaced(t0, Served(oldmaster), Served(me), j)
      {
        BitMeansServed(slots[..], nodes, oldmaster, j);
        ReplacedStep(t0, Served(oldmaster), Served(me), j);
        if TestBit(nodes[oldmaster].bitmap, j) {
          MoveSlot(me, j);
        }
        j := j + 1;
      }
    }

    /**
     clusterUpdateSlotsConfigWith: binds to the sender the claimed slots that
     are unassigned or served under an older epoch. `curmaster` is this node or
     the one it replicates, which a replica may not know: it is then NULL, as
     the owner of a free slot is. `keys` are the slots this node has keys in.
     */
    method UpdateSlotsConfigWith(sender: Id, epoch: nat, claimed: Bitmap, curmaster: Owner, keys: set<nat>)
      returns (outcome: Outcome, dirty: seq<nat>)
      requires Valid() && sender in nodes
      modifies this`nodes, slots
      ensures Valid() && nodes.Keys == old(nodes.Keys)
      ensures sender == me ==> slots[..] == old(slots[..]) && dirty == [] && outcome == Keep
      ensures sender != me ==>
        && slots[..] == Rebound(old(slots[..]), epochs, importing, sender, epoch, claimed, SLOTS)
        && dirty == DirtySlots(old(slots[..]), me, keys, epochs, importing, sender, epoch, claimed, SLOTS)
        && outcome == OutcomeFor(LosesSlot(old(slots[..]), curmaster, epochs, importing, sender, epoch, claimed, SLOTS),
                                 curmaster, slots[..], dirty)
      ensures forall j :: 0 <= j < SLOTS ==>
        slots[j] == if sender != me && TestBit(claimed, j) && j !in importing
                       && (old(slots[j]) == Unassigned || epochs[old(slots[j]).id] < epoch)
                    then Served(sender) else old(slots[j])
      ensures forall j :: j in dirty <==> 0 <= j < SLOTS && j in keys && old(slots[j]) == Served(me) && slots[j] != Served(me)
      ensures forall a, b :: 0 <= a < b < |dirty| ==> dirty[a] < dirty[b]
      ensures var loses := exists j :: 0 <= j < SLOTS && old(slots[j]) == curmaster && slots[j] != curmaster;
              && (outcome == Undefined <==> loses && curmaster == Unassigned)
              && (outcome == Follow <==> loses && curmaster != Unassigned && forall j :: 0 <= j < SLOTS ==> slots[j] != curmaster)
              && (outcome == DropKeys <==> outcome != Undefined && outcome != Follow && dirty != [])
    {
      hide Agree, Rebound, TestBit, LosesSlot, DirtySlots;
      dirty := [];
      if sender == me {
        return Keep, dirty;
      }
      ghost var t0 := slots[..];
      UpdateMeans(t0, nodes, me, keys, curmaster, epochs, importing, sender, epoch, claimed);
      var newmaster;
      newmaster, dirty := RebindClaimed(sender, epoch, claimed, curmaster, keys);
      assert slots[..] == Rebound(t0, epochs, importing, sender, epoch, claimed, SLOTS);
      hide Lists;
      if newmaster && curmaster == Unassigned {
        outcome := Undefined;
      } else if newmaster {
        LosesKnown(t0, old(nodes), curmaster, epochs, importing, sender, epoch, claimed, SLOTS);
        NoSlotsLeft(slots[..], nodes, curmaster.id);
        outcome := if nodes[curmaster.id].numslots == 0 then Follow else if dirty != [] then DropKeys else Keep;
      } else {
        outcome := if dirty != [] then DropKeys else Keep;
      }
    }

    /** The loop over the claimed slots. */
    method RebindClaimed(sender: Id, epoch: nat, claimed: Bitmap, curmaster: Owner, keys: set<nat>)
      returns (newmaster: bool, dirty: seq<nat>)
      requires Valid() && sender in nodes && sender != me
      modifies this`nodes, slots
      ensures Valid() && nodes.Keys == old(nodes.Keys)
      ensures slots[..] == Rebound(old(slots[..]), epochs, importing, sender, epoch, claimed, SLOTS)
      ensures dirty == DirtySlots(old(slots[..]), me, keys, epochs, importing, sender, epoch, claimed, SLOTS)
      ensures newmaster == LosesSlot(old(slots[..]), curmaster, epochs, importing, sender, epoch, claimed, SLOTS)
    {
      hide Agree, Rebound, TestBit, LosesSlot;
      newmaster, dirty := false, [];
      ghost var t0 := slots[..];
      ReboundNone(t0, epochs, importing, sender, epoch, claimed);
      LosesNone(t0, curmaster, epochs, importing, sender, epoch, claimed);
      var j := 0;
      while j < SLOTS
        invariant 0 <= j <= SLOTS && Valid() && nodes.Keys == old(nodes.Keys)
        invariant slots[..] == Rebound(t0, epochs, importing, sender, epoch, claimed, j)
        invariant dirty == DirtySlots(t0, me, keys, epochs, importing, sender, epoch, claimed, j)
        invariant newmaster == LosesSlot(t0, curmaster, epochs, importing, sender, epoch, claimed, j)
      {
        OwnersKnown(slots[..], nodes, j);
        ReboundStep(t0, epochs, importing, sender, epoch, claimed, j);
        if TestBit(claimed, j) && slots[j] != Served(sender) && j !in importing
           && (slots[j] == Unassigned || epochs[slots[j].id] < epoch) {
          if slots[j] == Served(me) && j in keys {
            dirty := dirty + [j];
          }
          if slots[j] == curmaster {
            newmaster := true;
          }
          MoveSlot(sender, j);
        }
        LosesStep(t0, curmaster, epochs, importing, sender, epoch, claimed, j);
        j := j + 1;
      }
    }
  }

  /** A master replicates the sender if it lost slots and has none left; else it drops the keys of the slots it lost. */
  ghost function OutcomeFor(loses: bool, curmaster: Owner, after: Table, dirty: seq<nat>): Outcome {
    if loses && curmaster == Unassigned then Undefined
    else if loses && curmaster !in after then Follow
    else if dirty != [] then DropKeys
    else Keep
  }

  /** d lists, in ascending order, the numbers below n that are in s. */
  ghost predicate Lists(d: seq<nat>, s: set<nat>, n: nat) {
    (forall j :: j in d <==> j < n && j in s) && forall a, b :: 0 <= a < b < |d| ==> d[a] < d[b]
  }

  lemma ListsNext(d: seq<nat>, s: set<nat>, n: nat)
    requires Lists(d, s, n)
    ensures Lists(if n in s then d + [n] else d, s, n + 1)
  {
    if n in s {
      assert forall a :: 0 <= a < |d| ==> d[a] in d;
    }
  }

  ghost function Lost(t: Table, me: Id, keys: set<nat>, epochs: map<Id, nat>, importing: set<nat>, sender: Id, epoch: nat,
                      claimed: Bitmap): set<nat> {
    set j | j in keys && j < SLOTS && t[j] == Served(me) && Rebinds(t[j], j, epochs, importing, sender, epoch, claimed)
  }

  lemma {:induction false} DirtyMeans(t: Table, me: Id, keys: set<nat>, epochs: map<Id, nat>, importing: set<nat>, sender: Id, epoch: nat,
                                     claimed: Bitmap, n: nat)
    requires n <= SLOTS
    ensures Lists(DirtySlots(t, me, keys, epochs, importing, sender, epoch, claimed, n),
                  Lost(t, me, keys, epochs, importing, sender, epoch, claimed), n)
  {
    hide Rebinds, Lists;
    if n > 0 {
      DirtyMeans(t, me, keys, epochs, importing, sender, epoch, claimed, n - 1);
      var d := DirtySlots(t, me, keys, epochs, importing, sender, epoch, claimed, n - 1);
      ListsNext(d, Lost(t, me, keys, epochs, importing, sender, epoch, claimed), n - 1);
      assert d + [] == d;
    } else {
      ListsNothing(Lost(t, me, keys, epochs, importing, sender, epoch, claimed));
    }
  }

  lemma ListsNothing(s: set<nat>)
    ensures Lists([], s, 0)
  {
  }

  /** What the update does, slot by slot, and which slots it reports. */
  lemma UpdateMeans(t: Table, nodes: map<Id, NodeSlots>, me: Id, keys: set<nat>, curmaster: Owner, epochs: map<Id, nat>,
                    importing: set<nat>, sender: Id, epoch: nat, claimed: Bitmap)
    requires Agree(t, nodes) && epochs.Keys == nodes.Keys && sender != me
    ensures var r := Rebound(t, epochs, importing, sender, epoch, claimed, SLOTS);
            && (forall j :: 0 <= j < SLOTS && t[j].Served? ==> t[j].id in epochs)
            && (forall j :: 0 <= j < SLOTS ==>
                  r[j] == if TestBit(claimed, j) && j !in importing && (t[j] == Unassigned || epochs[t[j].id] < epoch)
                          then Served(sender) else t[j])
            && (forall j :: j in DirtySlots(t, me, keys, epochs, importing, sender, epoch, claimed, SLOTS)
                            <==> 0 <= j < SLOTS && j in keys && t[j] == Served(me) && r[j] != Served(me))
            && (LosesSlot(t, curmaster, epochs, importing, sender, epoch, claimed, SLOTS)
                <==> exists j :: 0 <= j < SLOTS && t[j] == curmaster && r[j] != curmaster)
            && (var d := DirtySlots(t, me, keys, epochs, importing, sender, epoch, claimed, SLOTS);
                forall a, b :: 0 <= a < b < |d| ==> d[a] < d[b])
  {
    DirtyMeans(t, me, keys, epochs, importing, sender, epoch, claimed, SLOTS);
    forall j | 0 <= j < SLOTS ensures t[j].Served? ==> t[j].id in epochs {
      OwnersKnown(t, nodes, j);
    }
    hide TestBit, NodeAgrees, Agree, DirtySlots;
  }

  lemma LosesNone(t: Table, owner: Owner, epochs: map<Id, nat>, importing: set<nat>, sender: Id, epoch: nat, claimed: Bitmap)
    ensures !LosesSlot(t, owner, epochs, importing, sender, epoch, claimed, 0)
  {
  }

  lemma LosesStep(t: Table, owner: Owner, epochs: map<Id, nat>, importing: set<nat>, sender: Id, epoch: nat, claimed: Bitmap, n: nat)
    requires n < SLOTS
    ensures LosesSlot(t, owner, epochs, importing, sender, epoch, claimed, n + 1)
            <==> LosesSlot(t, owner, epochs, importing, sender, epoch, claimed, n)
                 || (t[n] == owner && Rebinds(t[n], n, epochs, importing, sender, epoch, claimed))
  {
    hide Rebinds;
  }

  lemma LosesKnown(t: Table, nodes: map<Id, NodeSlots>, owner: Owner, epochs: map<Id, nat>, importing: set<nat>, sender: Id,
                   epoch: nat, claimed: Bitmap, n: nat)
    requires n <= SLOTS && LosesSlot(t, owner, epochs, importing, sender, epoch, claimed, n)
    requires Agree(t, nodes) && owner.Served?
    ensures owner.id in nodes
  {
    hide Rebinds, NodeAgrees;
  }

  lemma {:induction false} CountedOnce(t: seq<Owner>, n: Id)
    ensures CountOf(t, n) == 0 <==> Served(n) !in t
  {
    if t != [] {
      CountedOnce(t[1..], n);
      assert t == [t[0]] + t[1..];
    }
  }

  lemma NoSlotsLeft(t: Table, nodes: map<Id, NodeSlots>, n: Id)
    requires Agree(t, nodes) && n in nodes
    ensures nodes[n].numslots == 0 <==> Served(n) !in t
  {
    assert NodeAgrees(t, n, nodes[n]);
    CountedOnce(t, n);
  }

  /** The first n slots of t with one owner replaced by another. */
  function Replaced(t: Table, a: Owner, b: Owner, n: nat): (r: Table)
    ensures forall j :: 0 <= j < SLOTS ==> r[j] == if j < n && t[j] == a then b else t[j]
  {
    seq(SLOTS, j requires 0 <= j < SLOTS => if j < n && t[j] == a then b else t[j])
  }

  lemma ReplacedNone(t: Table, a: Owner, b: Owner)
    ensures Replaced(t, a, b, 0) == t
  {
  }

  lemma ReplacedStep(t: Table, a: Owner, b: Owner, n: nat)
    requires n < SLOTS
    ensures Replaced(t, a, b, n)[n] == t[n]
    ensures Replaced(t, a, b, n + 1) == if t[n] == a then Replaced(t, a, b, n)[n := b] else Replaced(t, a, b, n)
  {
  }

  lemma {:induction false} NothingServed(t: seq<Owner>, n: Id)
    requires |t| == SLOTS && forall j :: 0 <= j < |t| ==> t[j] == Unassigned
    ensures NodeAgrees(t, n, NodeSlots(seq(SLOTS / 8, _ => 0), 0))
  {
    CountNone(t, n);
  }

  lemma {:induction false} CountNone(t: seq<Owner>, n: Id)
    requires forall j :: 0 <= j < |t| ==> t[j] == Unassigned
    ensures CountOf(t, n) == 0
  {
    if t != [] {
      CountNone(t[1..], n);
    }
  }

  lemma BitIsClear(t: Table, nodes: map<Id, NodeSlots>, n: Id, j: nat)
    requires Agree(t, nodes) && n in nodes && j < SLOTS && t[j] == Unassigned
    ensures !TestBit(nodes[n].bitmap, j)
  {
    hide TestBit;
    assert NodeAgrees(t, n, nodes[n]);
  }

  lemma BitMeansServed(t: Table, nodes: map<Id, NodeSlots>, n: Id, j: nat)
    requires Agree(t, nodes) && n in nodes && j < SLOTS
    ensures TestBit(nodes[n].bitmap, j) <==> t[j] == Served(n)
  {
    hide TestBit;
    assert NodeAgrees(t, n, nodes[n]);
  }

  lemma OwnersKnown(t: Table, nodes: map<Id, NodeSlots>, j: nat)
    requires Agree(t, nodes) && j < SLOTS
    ensures t[j].Served? ==> t[j].id in nodes
  {
  }

  lemma ReboundNone(t: Table, epochs: map<Id, nat>, importing: set<nat>, sender: Id, epoch: nat, claimed: Bitmap)
    ensures Rebound(t, epochs, importing, sender, epoch, claimed, 0) == t
  {
  }

  lemma ReboundStep(t: Table, epochs: map<Id, nat>, importing: set<nat>, sender: Id, epoch: nat, claimed: Bitmap, j: nat)
    requires j < SLOTS
    ensures var r, r' := Rebound(t, epochs, importing, sender, epoch, claimed, j),
                         Rebound(t, epochs, importing, sender, epoch, claimed, j + 1);
            && r[j] == t[j]
            && r' == if Rebinds(t[j], j, epochs, importing, sender, epoch, claimed) then r[j := Served(sender)] else r
  {
    hide Rebinds;
  }
}
