/**
 The slot protocol of the tun driver: any number of opens, closes and broadcast sends run
 concurrently over `used[]` and `ifaces[]`, each taking one atomic step at a time.

 A task is one flow of control. A session runs tun_open, is parked while its file stays open, and
 then runs opaque_free, which devfs calls exactly once. A sender runs new_udp_send, whose log keeps
 the calls it makes of the original pru_send. Interface addresses may be handed out again after
 if_free, so a slot can go P -> 0 -> P between a load and its compare-and-swap; `heap` numbers the
 interfaces that have lived at an address so that the two can be told apart. The code never sees
 those numbers. An interface's address list may change whenever nobody walks it under its mutex.
 */
module TunDriver {
  import opened Sends

  /** What opaque_free needs of `struct opaque`: its index, and its interface by address and number. */
  datatype Opaque = Opaque(idx: nat, addr: nat, gen: nat)

  /** One interface a broadcast walked: where, which, and its address list. */
  datatype Visit = Visit(slot: nat, addr: nat, gen: nat, list: seq<BroadAddr>)

  /** A call of new_udp_send: its request, the interfaces it walked, and what it sent. */
  datatype Sender = Sender(req: Send, visits: seq<Visit>, log: seq<Send>)

  datatype Pc =
    | Idle
    | OpenScan(i: nat)                // acquire_idx, about to CAS used[i]
    | OpenFailed                      // acquire_idx returned -1
    | OpenAlloc(i: nat)               // about to if_alloc and if_attach
    | OpenPublish(op: Opaque)         // about to release_iface(idx, op->iface)
    | OpenRegister(op: Opaque)        // about to devfs_set_cdevpriv
    | Parked(op: Opaque)              // the file is open
    | CloseLoad(op: Opaque)           // opaque_free in acquire_iface, about to load
    | CloseCas(op: Opaque, seen: nat) // about to CAS the loaded address
    | CloseClear(op: Opaque, got: bool) // acquire_iface returned; about to store 0
    | CloseDetach(op: Opaque)         // about to if_detach and if_free
    | CloseRelease(i: nat)            // about to release_idx
    | SendLoad(i: nat, b: Sender)
    | SendCas(i: nat, b: Sender, seen: nat)
    | SendHold(i: nat, b: Sender, addr: nat, gen: nat)         // about to lock the address list
    | SendWalk(i: nat, b: Sender, addr: nat, gen: nat, j: nat) // at entry j of the list
    | SendRelease(i: nat, b: Sender, addr: nat, gen: nat)      // about to release_iface(i, iface)
    | SendLast(b: Sender)                                      // about to make the original call
    | SendDone(b: Sender, rv: int)                             // about to return what it answered
  {
    /** The index this task owns, or -1. */
    function Index(): int {
      match this
      case OpenAlloc(i) => i
      case CloseRelease(i) => i
      case OpenPublish(op) => op.idx
      case OpenRegister(op) => op.idx
      case Parked(op) => op.idx
      case CloseLoad(op) => op.idx
      case CloseCas(op, _) => op.idx
      case CloseClear(op, _) => op.idx
      case CloseDetach(op) => op.idx
      case _ => -1
    }

    /** The slot this task holds, or -1. */
    function Held(): int {
      match this
      case CloseClear(op, got) => if got then op.idx else -1
      case SendHold(i, _, _, _) => i
      case SendWalk(i, _, _, _, _) => i
      case SendRelease(i, _, _, _) => i
      case _ => -1
    }

    predicate HasOpaque() {
      OpenPublish? || OpenRegister? || Parked? || CloseLoad? || CloseCas? || CloseClear? || CloseDetach?
    }

    /** The interface is published and its destructor has not claimed it. */
    predicate Shared() {
      OpenRegister? || Parked? || CloseLoad? || CloseCas?
    }

    /** A broadcast has this slot. */
    predicate Lent() {
      SendHold? || SendWalk? || SendRelease?
    }

    predicate Opening() {
      OpenScan? || OpenFailed? || OpenAlloc? || OpenPublish? || OpenRegister?
    }

    predicate Closing() {
      Parked? || CloseLoad? || CloseCas? || CloseClear? || CloseDetach? || CloseRelease?
    }

    predicate Sending() {
      SendLoad? || SendCas? || Lent() || SendLast? || SendDone?
    }
  }

  datatype State = State(
    used: seq<bool>,
    slots: seq<Slot<nat>>,             // interfaces by address
    heap: map<nat, nat>,               // live interface address -> its number
    lists: map<nat, seq<BroadAddr>>,   // interface number -> its address list
    nextGen: nat,
    tasks: map<int, Pc>)
  {
    function At(t: int): Pc {
      if t in tasks then tasks[t] else Idle
    }

    function GenOf(addr: nat): nat {
      if addr in heap then heap[addr] else 0
    }

    function ListOf(gen: nat): seq<BroadAddr> {
      if gen in lists then lists[gen] else []
    }

    function Goto(t: int, pc: Pc): State {
      this.(tasks := tasks[t := pc])
    }
  }

  ghost predicate Init(s: State) {
    && |s.used| == |s.slots|
    && (forall i :: 0 <= i < |s.used| ==> !s.used[i])
    && (forall i :: 0 <= i < |s.slots| ==> s.slots[i] == Empty)
    && s.heap == map[]
    && s.tasks == map[]
  }

  /** if_alloc: some address no live interface has. */
  ghost predicate Allocates(s: State, s': State, t: nat, i: nat, addr: nat) {
    && addr !in s.heap
    && s' == s.(heap := s.heap[addr := s.nextGen], nextGen := s.nextGen + 1)
              .Goto(t, OpenPublish(Opaque(i, addr, s.nextGen)))
  }

  /** new_udp_send is called with a request. */
  ghost predicate Begins(s: State, s': State, t: nat, req: Send) {
    var b := Sender(req, [], []);
    s' == s.Goto(t, if IsLimitedBroadcast(req) then SendLoad(0, b) else SendLast(b))
  }

  /** Somebody gives an interface another address list, which takes the mutex of the list. */
  ghost predicate Configures(s: State, s': State, gen: nat, list: seq<BroadAddr>) {
    s' == s.(lists := s.lists[gen := list]) && forall u: nat :: s.At(u).SendWalk? ==> s.At(u).gen != gen
  }

  /** The original pru_send is called with the caller's own request, and answers rv. */
  ghost predicate Answers(s: State, s': State, t: nat, b: Sender, rv: int) {
    s' == s.Goto(t, SendDone(b.(log := b.log + [b.req]), rv))
  }

  /** Task t takes one atomic step from s to s'. An index outside the arrays takes none. */
  ghost predicate Step(s: State, s': State, t: nat) {
    var pc := s.At(t);
    if pc.Opening() then OpenStep(s, s', t)
    else if pc.Closing() then CloseStep(s, s', t)
    else if pc.Sending() then SendStep(s, s', t)
    else StartStep(s, s', t)
  }

  ghost predicate StartStep(s: State, s': State, t: nat) {
    || s' == s.Goto(t, OpenScan(0))
    || (exists req: Send :: Begins(s, s', t, req))
    || (exists gen: nat, list: seq<BroadAddr> :: Configures(s, s', gen, list))
  }

  ghost predicate OpenStep(s: State, s': State, t: nat)
    requires s.At(t).Opening()
  {
    match s.At(t)
    case OpenScan(i) =>
      if i >= |s.used| then s' == s.Goto(t, OpenFailed)
      else if s.used[i] then s' == s.Goto(t, OpenScan(i + 1))
      else s' == s.(used := s.used[i := true]).Goto(t, OpenAlloc(i))
    case OpenFailed => s' == s.Goto(t, Idle)
    case OpenAlloc(i) => exists addr: nat :: Allocates(s, s', t, i, addr)
    case OpenPublish(op) =>
      op.idx < |s.slots| && s' == s.(slots := s.slots[op.idx := Iface(op.addr)]).Goto(t, OpenRegister(op))
    case OpenRegister(op) => s' == s.Goto(t, Parked(op))
  }

  ghost predicate CloseStep(s: State, s': State, t: nat)
    requires s.At(t).Closing()
  {
    match s.At(t)
    case Parked(op) => s' == s.Goto(t, CloseLoad(op))
    case CloseLoad(op) =>
      && op.idx < |s.slots|
      && (match s.slots[op.idx]
          case Empty => s' == s.Goto(t, CloseClear(op, false))
          case Acquired => s' == s
          case Iface(a) => s' == s.Goto(t, CloseCas(op, a)))
    case CloseCas(op, seen) =>
      && op.idx < |s.slots|
      && (if s.slots[op.idx] == Iface(seen)
          then s' == s.(slots := s.slots[op.idx := Acquired]).Goto(t, CloseClear(op, true))
          else s' == s.Goto(t, CloseLoad(op)))
    case CloseClear(op, _) =>
      op.idx < |s.slots| && s' == s.(slots := s.slots[op.idx := Empty]).Goto(t, CloseDetach(op))
    case CloseDetach(op) => s' == s.(heap := s.heap - {op.addr}).Goto(t, CloseRelease(op.idx))
    case CloseRelease(i) =>
      i < |s.used| && s' == s.(used := s.used[i := false]).Goto(t, Idle)
  }

  ghost predicate SendStep(s: State, s': State, t: nat)
    requires s.At(t).Sending()
  {
    match s.At(t)
    case SendLoad(i, b) =>
      if i >= |s.slots| then s' == s.Goto(t, SendLast(b))
      else (match s.slots[i]
            case Empty => s' == s.Goto(t, SendLoad(i + 1, b))
            case Acquired => s' == s
            case Iface(a) => s' == s.Goto(t, SendCas(i, b, a)))
    case SendCas(i, b, seen) =>
      && i < |s.slots|
      && (if s.slots[i] == Iface(seen)
          then s' == s.(slots := s.slots[i := Acquired]).Goto(t, SendHold(i, b, seen, s.GenOf(seen)))
          else s' == s.Goto(t, SendLoad(i, b)))
    case SendHold(i, b, a, g) => s' == s.Goto(t, SendWalk(i, b, a, g, 0))
    case SendWalk(i, b, a, g, j) =>
      var list := s.ListOf(g);
      if j < |list|
      then s' == s.Goto(t, SendWalk(i, b.(log := b.log + EntrySends(b.req, list[j])), a, g, j + 1))
      else s' == s.Goto(t, SendRelease(i, b.(visits := b.visits + [Visit(i, a, g, list)]), a, g))
    case SendRelease(i, b, a, _) =>
      i < |s.slots| && s' == s.(slots := s.slots[i := Iface(a)]).Goto(t, SendLoad(i + 1, b))
    case SendLast(b) => exists rv: int :: Answers(s, s', t, b, rv)
    case SendDone(_, _) => s' == s.Goto(t, Idle)
  }

  // ---- The invariant ----

  /** What a slot may read while its index is owned by a task at pc. */
  ghost predicate SlotFits(pc: Pc, slot: Slot<nat>) {
    if pc.Shared() then slot == Acquired || slot == Iface(pc.op.addr)
    else if pc.CloseClear? then pc.got
    else slot == Empty
  }

  /** own[i] names the task that owns index i, or is -1; an index is used exactly while owned. */
  ghost predicate Owners(s: State, own: seq<int>) {
    && |s.used| == |s.slots| == |own|
    && (forall t: nat :: s.At(t).Index() < |own|)
    && (forall t: nat :: s.At(t).Index() >= 0 ==> own[s.At(t).Index()] == t)
    && (forall i :: 0 <= i < |own| && own[i] >= 0 ==> s.At(own[i]).Index() == i)
    && (forall i :: 0 <= i < |own| ==> (s.used[i] <==> own[i] >= 0))
  }

  /** hold[i] names the task that holds slot i, or is -1; a slot reads ACQUIRED exactly while held. */
  ghost predicate Holders(s: State, hold: seq<int>) {
    && |s.slots| == |hold|
    && (forall t: nat :: s.At(t).Held() < |hold|)
    && (forall t: nat :: s.At(t).Held() >= 0 ==> hold[s.At(t).Held()] == t)
    && (forall i :: 0 <= i < |hold| && hold[i] >= 0 ==> s.At(hold[i]).Held() == i)
    && (forall i :: 0 <= i < |hold| ==> (s.slots[i] == Acquired <==> hold[i] >= 0))
  }

  ghost predicate SlotsFit(s: State, own: seq<int>) {
    |s.slots| == |own| && forall i :: 0 <= i < |own| ==> OwnedSlotFits(s, own[i], s.slots[i])
  }

  /** owner is the task that owns the index of the slot, or -1. */
  ghost predicate OwnedSlotFits(s: State, owner: int, slot: Slot<nat>) {
    if owner >= 0 then SlotFits(s.At(owner), slot) else slot == Empty
  }

  /** Every opaque's interface is live, and its own. */
  ghost predicate Interfaces(s: State) {
    && (forall t: nat :: s.At(t).HasOpaque() ==>
          s.At(t).op.addr in s.heap && s.heap[s.At(t).op.addr] == s.At(t).op.gen)
    && (forall t: nat, u: nat ::
          s.At(t).HasOpaque() && s.At(u).HasOpaque() && s.At(t).op.gen == s.At(u).op.gen ==> t == u)
    && (forall a :: a in s.heap ==> s.heap[a] < s.nextGen)
  }

  /** A broadcast holds the interface that the slot's owner published, while that owner waits. */
  ghost predicate Lending(s: State, own: seq<int>) {
    forall t: nat :: s.At(t).Lent() ==> LentBy(s, own, s.At(t))
  }

  ghost predicate LentBy(s: State, own: seq<int>, sender: Pc)
    requires sender.Lent()
  {
    sender.i < |own| && own[sender.i] >= 0 && Lends(s.At(own[sender.i]), sender)
  }

  ghost predicate Lends(owner: Pc, sender: Pc)
    requires sender.Lent()
  {
    owner.Shared() && owner.op.addr == sender.addr && owner.op.gen == sender.gen
  }

  ghost predicate Inv(s: State, own: seq<int>, hold: seq<int>) {
    Owners(s, own) && Holders(s, hold) && SlotsFit(s, own) && Interfaces(s) && Lending(s, own)
  }

  lemma InitInv(s: State) returns (own: seq<int>, hold: seq<int>)
    requires Init(s)
    ensures Inv(s, own, hold)
  {
    own := seq(|s.used|, _ => -1);
    hold := own;
  }

  /** The owners and holders after a step of task t. */
  ghost function OwnAfter(s: State, s': State, t: nat, own: seq<int>): seq<int>
    requires |own| == |s.used|
  {
    match s.At(t)
    case OpenScan(i) => if i < |s.used| && !s.used[i] then own[i := t] else own
    case CloseRelease(i) => if i < |s.used| then own[i := -1] else own
    case _ => own
  }

  ghost function HoldAfter(s: State, s': State, t: nat, hold: seq<int>): seq<int>
    requires |hold| == |s.slots|
  {
    match s.At(t)
    case CloseCas(op, seen) => if op.idx < |s.slots| && s.slots[op.idx] == Iface(seen) then hold[op.idx := t] else hold
    case SendCas(i, _, seen) => if i < |s.slots| && s.slots[i] == Iface(seen) then hold[i := t] else hold
    case CloseClear(op, _) => if op.idx < |s.slots| then hold[op.idx := -1] else hold
    case SendRelease(i, _, _, _) => if i < |s.slots| then hold[i := -1] else hold
    case _ => hold
  }

  lemma OpenOthers(s: State, s': State, t: nat)
    requires s.At(t).Opening() && OpenStep(s, s', t)
    ensures forall u: int :: u != t ==> s'.At(u) == s.At(u)
  {
  }

  lemma CloseOthers(s: State, s': State, t: nat)
    requires s.At(t).Closing() && CloseStep(s, s', t)
    ensures forall u: int :: u != t ==> s'.At(u) == s.At(u)
  {
  }

  /** A sender touches nothing but its own place and the slots. */
  lemma SendOthers(s: State, s': State, t: nat)
    requires s.At(t).Sending() && SendStep(s, s', t)
    ensures forall u: int :: u != t ==> s'.At(u) == s.At(u)
    ensures s'.used == s.used && |s'.slots| == |s.slots| && s'.heap == s.heap && s'.nextGen == s.nextGen
    ensures s'.lists == s.lists && (s'.At(t).Sending() || s'.At(t) == Idle)
  {
  }

  lemma StartOthers(s: State, s': State, t: nat)
    requires s.At(t) == Idle && StartStep(s, s', t)
    ensures forall u: int :: u != t ==> s'.At(u) == s.At(u)
    ensures s'.used == s.used && s'.slots == s.slots && s'.heap == s.heap && s'.nextGen == s.nextGen
    ensures s'.At(t) in {Idle, OpenScan(0)} || s'.At(t).SendLoad? || s'.At(t).SendLast?
  {
  }

  lemma Others(s: State, s': State, t: nat)
    requires Step(s, s', t)
    ensures forall u: int :: u != t ==> s'.At(u) == s.At(u)
  {
    if s.At(t).Opening() {
      OpenOthers(s, s', t);
    } else if s.At(t).Closing() {
      CloseOthers(s, s', t);
    } else if s.At(t).Sending() {
      SendOthers(s, s', t);
    } else {
      StartOthers(s, s', t);
    }
  }

  lemma OwnersKept(s: State, s': State, t: nat, own: seq<int>)
    requires Owners(s, own) && s'.used == s.used && |s'.slots| == |s.slots|
    requires forall u: int :: u != t ==> s'.At(u) == s.At(u)
    requires s'.At(t).Index() == s.At(t).Index()
    ensures Owners(s', own)
  {
  }

  lemma OwnerTakes(s: State, s': State, t: nat, own: seq<int>, i: nat)
    requires Owners(s, own) && i < |own| && own[i] < 0 && s'.used == s.used[i := true] && |s'.slots| == |s.slots|
    requires forall u: int :: u != t ==> s'.At(u) == s.At(u)
    requires s.At(t).Index() == -1 && s'.At(t).Index() == i
    ensures Owners(s', own[i := t])
  {
  }

  lemma OwnerLeaves(s: State, s': State, t: nat, own: seq<int>, i: nat)
    requires Owners(s, own) && i < |own| && s'.used == s.used[i := false] && |s'.slots| == |s.slots|
    requires forall u: int :: u != t ==> s'.At(u) == s.At(u)
    requires s.At(t).Index() == i && s'.At(t).Index() == -1
    ensures Owners(s', own[i := -1])
  {
  }

  lemma OpenOwners(s: State, s': State, t: nat, own: seq<int>)
    requires Owners(s, own) && s.At(t).Opening() && OpenStep(s, s', t)
    ensures Owners(s', OwnAfter(s, s', t, own))
  {
    OpenOthers(s, s', t);
    var pc := s.At(t);
    if pc.OpenScan? && pc.i < |s.used| && !s.used[pc.i] {
      OwnerTakes(s, s', t, own, pc.i);
    } else {
      OwnersKept(s, s', t, own);
    }
  }

  lemma CloseOwners(s: State, s': State, t: nat, own: seq<int>)
    requires Owners(s, own) && s.At(t).Closing() && CloseStep(s, s', t)
    ensures Owners(s', OwnAfter(s, s', t, own))
  {
    CloseOthers(s, s', t);
    if s.At(t).CloseRelease? {
      OwnerLeaves(s, s', t, own, s.At(t).i);
    } else {
      OwnersKept(s, s', t, own);
    }
  }

  lemma StepOwners(s: State, s': State, t: nat, own: seq<int>)
    requires Owners(s, own) && Step(s, s', t)
    ensures Owners(s', OwnAfter(s, s', t, own))
  {
    if s.At(t).Opening() {
      OpenOwners(s, s', t, own);
    } else if s.At(t).Closing() {
      CloseOwners(s, s', t, own);
    } else if s.At(t).Sending() {
      SendOthers(s, s', t);
      OwnersKept(s, s', t, own);
    } else {
      StartOthers(s, s', t);
      OwnersKept(s, s', t, own);
    }
  }

  lemma HoldersKept(s: State, s': State, t: nat, hold: seq<int>)
    requires Holders(s, hold) && |s'.slots| == |s.slots|
    requires forall i :: 0 <= i < |hold| ==> (s'.slots[i] == Acquired <==> s.slots[i] == Acquired)
    requires forall u: int :: u != t ==> s'.At(u) == s.At(u)
    requires s'.At(t).Held() == s.At(t).Held()
    ensures Holders(s', hold)
  {
  }

  lemma HolderTakes(s: State, s': State, t: nat, hold: seq<int>, i: nat)
    requires Holders(s, hold) && i < |hold| && s.slots[i] != Acquired && s'.slots == s.slots[i := Acquired]
    requires forall u: int :: u != t ==> s'.At(u) == s.At(u)
    requires s.At(t).Held() == -1 && s'.At(t).Held() == i
    ensures Holders(s', hold[i := t])
  {
  }

  lemma HolderLeaves(s: State, s': State, t: nat, hold: seq<int>, i: nat)
    requires Holders(s, hold) && i < |hold| == |s'.slots|
    requires s'.slots[i] != Acquired && s'.slots == s.slots[i := s'.slots[i]]
    requires forall u: int :: u != t ==> s'.At(u) == s.At(u)
    requires s.At(t).Held() == i && s'.At(t).Held() == -1
    ensures Holders(s', hold[i := -1])
  {
  }

  lemma CloseHolders(s: State, s': State, t: nat, own: seq<int>, hold: seq<int>)
    requires Owners(s, own) && Holders(s, hold) && SlotsFit(s, own)
    requires s.At(t).Closing() && CloseStep(s, s', t) && forall u: int :: u != t ==> s'.At(u) == s.At(u)
    ensures Holders(s', HoldAfter(s, s', t, hold))
  {
    var pc := s.At(t);
    assert own[pc.Index()] == t && OwnedSlotFits(s, t, s.slots[pc.Index()]);
    if pc.CloseCas? && s.slots[pc.op.idx] == Iface(pc.seen) {
      HolderTakes(s, s', t, hold, pc.op.idx);
    } else if pc.CloseClear? {
      HolderLeaves(s, s', t, hold, pc.op.idx);
    } else {
      HoldersKept(s, s', t, hold);
    }
  }

  lemma SendHolders(s: State, s': State, t: nat, hold: seq<int>)
    requires Holders(s, hold)
    requires s.At(t).Sending() && SendStep(s, s', t) && forall u: int :: u != t ==> s'.At(u) == s.At(u)
    ensures Holders(s', HoldAfter(s, s', t, hold))
  {
    var pc := s.At(t);
    if pc.SendCas? && s.slots[pc.i] == Iface(pc.seen) {
      HolderTakes(s, s', t, hold, pc.i);
    } else if pc.SendRelease? {
      HolderLeaves(s, s', t, hold, pc.i);
    } else {
      SendKeepsSlots(s, s', t);
      HoldersKept(s, s', t, hold);
    }
  }

  lemma SendKeepsSlots(s: State, s': State, t: nat)
    requires s.At(t).Sending() && SendStep(s, s', t) && !s.At(t).SendRelease?
    requires s.At(t).SendCas? ==> s.slots[s.At(t).i] != Iface(s.At(t).seen)
    ensures s'.slots == s.slots && s'.At(t).Held() == s.At(t).Held()
  {
  }

  lemma StepHolders(s: State, s': State, t: nat, own: seq<int>, hold: seq<int>)
    requires Owners(s, own) && Holders(s, hold) && SlotsFit(s, own) && Step(s, s', t)
    ensures Holders(s', HoldAfter(s, s', t, hold))
  {
    Others(s, s', t);
    var pc := s.At(t);
    if pc.Closing() {
      CloseHolders(s, s', t, own, hold);
    } else if pc.Sending() {
      SendHolders(s, s', t, hold);
    } else {
      if pc.OpenPublish? {
        assert own[pc.op.idx] == t && OwnedSlotFits(s, t, s.slots[pc.op.idx]);
      }
      HoldersKept(s, s', t, hold);
    }
  }

  /** A step that gives the owner of slot i, or the slot, something else that fits it. */
  lemma SlotsFitBut(s: State, s': State, t: nat, own: seq<int>, own': seq<int>, i: nat)
    requires Owners(s, own) && SlotsFit(s, own) && |s'.slots| == |own'| == |own| && i < |own|
    requires forall u: int :: u != t ==> s'.At(u) == s.At(u)
    requires (s.At(t).Index() == -1 || s.At(t).Index() == i)
    requires forall k :: 0 <= k < |own| && k != i ==> own'[k] == own[k] && s'.slots[k] == s.slots[k]
    requires OwnedSlotFits(s', own'[i], s'.slots[i])
    ensures SlotsFit(s', own')
  {
    forall k | 0 <= k < |own|
      ensures OwnedSlotFits(s', own'[k], s'.slots[k])
    {
      assert k != i ==> OwnedSlotFits(s, own[k], s.slots[k]);
    }
  }

  /** A step of a task that owns nothing and changes no slot. */
  lemma SlotsFitStill(s: State, s': State, t: nat, own: seq<int>)
    requires Owners(s, own) && SlotsFit(s, own) && s'.slots == s.slots
    requires forall u: int :: u != t ==> s'.At(u) == s.At(u)
    requires s.At(t).Index() == -1
    ensures SlotsFit(s', own)
  {
    forall k | 0 <= k < |own|
      ensures OwnedSlotFits(s', own[k], s'.slots[k])
    {
      assert OwnedSlotFits(s, own[k], s.slots[k]);
    }
  }

  lemma OpenSlots(s: State, s': State, t: nat, own: seq<int>)
    requires Owners(s, own) && SlotsFit(s, own)
    requires s.At(t).Opening() && OpenStep(s, s', t) && forall u: int :: u != t ==> s'.At(u) == s.At(u)
    ensures SlotsFit(s', OwnAfter(s, s', t, own))
  {
    var pc := s.At(t);
    if pc.OpenScan? && pc.i < |s.used| && !s.used[pc.i] {
      assert OwnedSlotFits(s, own[pc.i], s.slots[pc.i]);
      SlotsFitBut(s, s', t, own, own[pc.i := t], pc.i);
    } else if pc.Index() >= 0 {
      assert own[pc.Index()] == t && OwnedSlotFits(s, t, s.slots[pc.Index()]);
      SlotsFitBut(s, s', t, own, own, pc.Index());
    } else {
      SlotsFitStill(s, s', t, own);
    }
  }

  lemma CloseSlots(s: State, s': State, t: nat, own: seq<int>)
    requires Owners(s, own) && SlotsFit(s, own)
    requires s.At(t).Closing() && CloseStep(s, s', t) && forall u: int :: u != t ==> s'.At(u) == s.At(u)
    ensures SlotsFit(s', OwnAfter(s, s', t, own))
  {
    var pc := s.At(t);
    assert own[pc.Index()] == t && OwnedSlotFits(s, t, s.slots[pc.Index()]);
    SlotsFitBut(s, s', t, own, OwnAfter(s, s', t, own), pc.Index());
  }

  lemma SendSlots(s: State, s': State, t: nat, own: seq<int>)
    requires Owners(s, own) && SlotsFit(s, own) && Lending(s, own)
    requires s.At(t).Sending() && SendStep(s, s', t) && forall u: int :: u != t ==> s'.At(u) == s.At(u)
    ensures SlotsFit(s', own)
  {
    var pc := s.At(t);
    if pc.SendCas? || pc.SendRelease? {
      assert pc.Lent() ==> LentBy(s, own, pc);
      assert OwnedSlotFits(s, own[pc.i], s.slots[pc.i]);
      SlotsFitBut(s, s', t, own, own, pc.i);
    } else {
      SlotsFitStill(s, s', t, own);
    }
  }

  lemma StepSlots(s: State, s': State, t: nat, own: seq<int>)
    requires Owners(s, own) && SlotsFit(s, own) && Lending(s, own) && Step(s, s', t)
    ensures SlotsFit(s', OwnAfter(s, s', t, own))
  {
    Others(s, s', t);
    if s.At(t).Opening() {
      OpenSlots(s, s', t, own);
    } else if s.At(t).Closing() {
      CloseSlots(s, s', t, own);
    } else if s.At(t).Sending() {
      SendSlots(s, s', t, own);
    } else {
      SlotsFitStill(s, s', t, own);
    }
  }

  lemma InterfacesKept(s: State, s': State, t: nat)
    requires Interfaces(s) && s'.heap == s.heap && s'.nextGen == s.nextGen
    requires forall u: int :: u != t ==> s'.At(u) == s.At(u)
    requires s'.At(t).HasOpaque() ==> s.At(t).HasOpaque() && s'.At(t).op == s.At(t).op
    ensures Interfaces(s')
  {
  }

  lemma InterfaceAdded(s: State, s': State, t: nat, i: nat, addr: nat)
    requires Interfaces(s) && s.At(t) == OpenAlloc(i) && Allocates(s, s', t, i, addr)
    ensures Interfaces(s')
  {
    assert forall u: int :: u != t ==> s'.At(u) == s.At(u);
  }

  lemma InterfaceGone(s: State, s': State, t: nat)
    requires Interfaces(s) && s.At(t).CloseDetach? && CloseStep(s, s', t)
    ensures Interfaces(s')
  {
    CloseOthers(s, s', t);
  }

  lemma StepInterfaces(s: State, s': State, t: nat)
    requires Interfaces(s) && Step(s, s', t)
    ensures Interfaces(s')
  {
    Others(s, s', t);
    if s.At(t).OpenAlloc? {
      var addr: nat :| Allocates(s, s', t, s.At(t).i, addr);
      InterfaceAdded(s, s', t, s.At(t).i, addr);
    } else if s.At(t).CloseDetach? {
      InterfaceGone(s, s', t);
    } else if s.At(t).Opening() || s.At(t).Closing() {
      InterfacesKept(s, s', t);
    } else if s.At(t).Sending() {
      SendOthers(s, s', t);
      InterfacesKept(s, s', t);
    } else {
      StartOthers(s, s', t);
      InterfacesKept(s, s', t);
    }
  }

  /** Loans survive a step that leaves the lenders of all of them waiting. */
  lemma LendingKept(s: State, s': State, t: nat, own: seq<int>, own': seq<int>)
    requires Lending(s, own) && |own'| == |own| && forall u: int :: u != t ==> s'.At(u) == s.At(u)
    requires s'.At(t).Lent() ==> LentBy(s', own', s'.At(t))
    requires forall u: nat :: u != t && s.At(u).Lent() ==>
               own'[s.At(u).i] == own[s.At(u).i] && Lends(s'.At(own[s.At(u).i]), s.At(u))
    ensures Lending(s', own')
  {
    forall u: nat | s'.At(u).Lent()
      ensures LentBy(s', own', s'.At(u))
    {
      if u != t {
        assert LentBy(s, own, s.At(u));
      }
    }
  }

  /** Loans of slots other than i survive a step of the owner of i. */
  lemma LendingElsewhere(s: State, s': State, t: nat, own: seq<int>, own': seq<int>, hold: seq<int>, i: nat)
    requires Owners(s, own) && Holders(s, hold) && Lending(s, own) && i < |own| == |own'|
    requires forall u: int :: u != t ==> s'.At(u) == s.At(u)
    requires !s'.At(t).Lent() && (s.At(t).Index() == -1 || s.At(t).Index() == i)
    requires forall k :: 0 <= k < |own| && k != i ==> own'[k] == own[k]
    requires s.slots[i] != Acquired || hold[i] == t
    ensures Lending(s', own')
  {
    forall u: nat | u != t && s.At(u).Lent()
      ensures own'[s.At(u).i] == own[s.At(u).i] && Lends(s'.At(own[s.At(u).i]), s.At(u))
    {
      assert s.At(u).Held() == s.At(u).i && hold[s.At(u).i] == u;
      assert LentBy(s, own, s.At(u));
    }
    LendingKept(s, s', t, own, own');
  }

  lemma OpenLending(s: State, s': State, t: nat, own: seq<int>, hold: seq<int>)
    requires Owners(s, own) && Holders(s, hold) && SlotsFit(s, own) && Lending(s, own)
    requires s.At(t).Opening() && OpenStep(s, s', t) && forall u: int :: u != t ==> s'.At(u) == s.At(u)
    ensures Lending(s', OwnAfter(s, s', t, own))
  {
    var pc := s.At(t);
    var own' := OwnAfter(s, s', t, own);
    if pc.OpenRegister? {
      StillShared(s, s', t, own);
    } else if pc.OpenScan? && pc.i < |own| {
      assert OwnedSlotFits(s, own[pc.i], s.slots[pc.i]);
      if own' == own {
        StillShared(s, s', t, own);
      } else {
        LendingElsewhere(s, s', t, own, own', hold, pc.i);
      }
    } else if pc.Index() >= 0 {
      assert own[pc.Index()] == t && OwnedSlotFits(s, t, s.slots[pc.Index()]);
      LendingElsewhere(s, s', t, own, own, hold, pc.Index());
    } else {
      StillShared(s, s', t, own);
    }
  }

  /** Loans survive a step that leaves the task what it shared. */
  lemma StillShared(s: State, s': State, t: nat, own: seq<int>)
    requires Lending(s, own) && forall u: int :: u != t ==> s'.At(u) == s.At(u)
    requires s.At(t).Shared() ==> s'.At(t).Shared() && s'.At(t).op == s.At(t).op
    requires s'.At(t).Lent() ==> LentBy(s', own, s'.At(t))
    ensures Lending(s', own)
  {
    forall u: nat | u != t && s.At(u).Lent()
      ensures Lends(s'.At(own[s.At(u).i]), s.At(u))
    {
      assert LentBy(s, own, s.At(u));
    }
    LendingKept(s, s', t, own, own);
  }

  lemma CloseLending(s: State, s': State, t: nat, own: seq<int>, hold: seq<int>)
    requires Owners(s, own) && Holders(s, hold) && SlotsFit(s, own) && Lending(s, own)
    requires s.At(t).Closing() && CloseStep(s, s', t) && forall u: int :: u != t ==> s'.At(u) == s.At(u)
    ensures Lending(s', OwnAfter(s, s', t, own))
  {
    var pc := s.At(t);
    if s'.At(t).Shared() {
      StillShared(s, s', t, own);
    } else {
      assert own[pc.Index()] == t && OwnedSlotFits(s, t, s.slots[pc.Index()]);
      LendingElsewhere(s, s', t, own, OwnAfter(s, s', t, own), hold, pc.Index());
    }
  }

  /** A slot just acquired still read the address that its owner had published. */
  lemma JustLent(s: State, own: seq<int>, hold: seq<int>, i: nat, b: Sender, seen: nat)
    requires Owners(s, own) && Holders(s, hold) && SlotsFit(s, own) && Interfaces(s)
    requires i < |s.slots| && s.slots[i] == Iface(seen)
    ensures LentBy(s, own, SendHold(i, b, seen, s.GenOf(seen)))
  {
    assert OwnedSlotFits(s, own[i], s.slots[i]);
    var o: nat := own[i];
    assert s.At(o).Index() == i && s.At(o).Held() == -1;
  }

  lemma SendLending(s: State, s': State, t: nat, own: seq<int>, hold: seq<int>)
    requires Owners(s, own) && Holders(s, hold) && SlotsFit(s, own) && Interfaces(s) && Lending(s, own)
    requires s.At(t).Sending() && SendStep(s, s', t)
    ensures Lending(s', own)
  {
    SendOthers(s, s', t);
    var pc := s.At(t);
    if pc.SendCas? && s.slots[pc.i] == Iface(pc.seen) {
      JustLent(s, own, hold, pc.i, pc.b, pc.seen);
      assert own[pc.i] != t;
    } else if pc.Lent() {
      assert LentBy(s, own, pc);
      assert own[pc.i] != t;
    }
    StillShared(s, s', t, own);
  }

  lemma StepLending(s: State, s': State, t: nat, own: seq<int>, hold: seq<int>)
    requires Inv(s, own, hold) && Step(s, s', t)
    ensures Lending(s', OwnAfter(s, s', t, own))
  {
    Others(s, s', t);
    if s.At(t).Opening() {
      OpenLending(s, s', t, own, hold);
    } else if s.At(t).Closing() {
      CloseLending(s, s', t, own, hold);
    } else if s.At(t).Sending() {
      SendLending(s, s', t, own, hold);
    } else {
      StillShared(s, s', t, own);
    }
  }

  lemma StepInv(s: State, s': State, t: nat, own: seq<int>, hold: seq<int>)
    requires Inv(s, own, hold) && Step(s, s', t)
    ensures Inv(s', OwnAfter(s, s', t, own), HoldAfter(s, s', t, hold))
  {
    StepOwners(s, s', t, own);
    StepHolders(s, s', t, own, hold);
    StepSlots(s, s', t, own);
    StepInterfaces(s, s', t);
    StepLending(s, s', t, own, hold);
  }

  // ---- Whole runs: any number of tasks, in any interleaving ----

  ghost predicate Path(p: seq<State>, who: seq<nat>) {
    |p| == |who| + 1 && forall k {:trigger who[k]} :: 0 <= k < |who| ==> Step(p[k], p[k + 1], who[k])
  }

  ghost predicate IsRun(run: seq<State>, who: seq<nat>) {
    Path(run, who) && Init(run[0])
  }

  lemma {:induction false} RunInv(run: seq<State>, who: seq<nat>, k: nat) returns (own: seq<int>, hold: seq<int>)
    requires IsRun(run, who) && k < |run|
    ensures Inv(run[k], own, hold)
    ensures |run[k].used| == |run[0].used| && |run[k].slots| == |run[0].slots|
    decreases k
  {
    if k == 0 {
      own, hold := InitInv(run[0]);
    } else {
      own, hold := RunInv(run, who, k - 1);
      assert Step(run[k - 1], run[k], who[k - 1]);
      StepInv(run[k - 1], run[k], who[k - 1], own, hold);
      own, hold := OwnAfter(run[k - 1], run[k], who[k - 1], own), HoldAfter(run[k - 1], run[k], who[k - 1], hold);
    }
  }

  /** A slot reads ACQUIRED exactly when some task holds it, and two tasks never hold the same slot. */
  lemma AcquiredMeansOneHolder(run: seq<State>, who: seq<nat>, k: nat)
    requires IsRun(run, who) && k < |run|
    ensures forall i :: 0 <= i < |run[k].slots| ==>
              (run[k].slots[i] == Acquired <==> exists t: nat :: run[k].At(t).Held() == i)
    ensures forall t: nat, u: nat :: run[k].At(t).Held() >= 0 && run[k].At(t).Held() == run[k].At(u).Held() ==> t == u
  {
    var own, hold := RunInv(run, who, k);
    forall i | 0 <= i < |run[k].slots| && run[k].slots[i] == Acquired
      ensures exists t: nat :: run[k].At(t).Held() == i
    {
      var t: nat := hold[i];
      assert run[k].At(t).Held() == i;
    }
  }

  /** An index is marked used exactly when a live session has it, and never two have the same. */
  lemma UsedMeansOneOwner(run: seq<State>, who: seq<nat>, k: nat)
    requires IsRun(run, who) && k < |run|
    ensures forall i :: 0 <= i < |run[k].used| ==>
              (run[k].used[i] <==> exists t: nat :: run[k].At(t).Index() == i)
    ensures forall t: nat, u: nat ::
              run[k].At(t).Index() >= 0 && run[k].At(t).Index() == run[k].At(u).Index() ==> t == u
  {
    var own, hold := RunInv(run, who, k);
    forall i | 0 <= i < |run[k].used| && run[k].used[i]
      ensures exists t: nat :: run[k].At(t).Index() == i
    {
      var t: nat := own[i];
      assert run[k].At(t).Index() == i;
    }
  }

  /** What a broadcast holds is a live interface, the very one that was there when it acquired the
      slot; so no opaque_free is past its claim on that interface, whatever the address was before. */
  lemma HeldInterfaceIsLive(run: seq<State>, who: seq<nat>, k: nat, sender: nat)
    requires IsRun(run, who) && k < |run|
    requires run[k].At(sender).SendHold? || run[k].At(sender).SendWalk? || run[k].At(sender).SendRelease?
    ensures var s, b := run[k], run[k].At(sender);
            && b.addr in s.heap && s.heap[b.addr] == b.gen
            && forall c: nat :: s.At(c).HasOpaque() && s.At(c).op.addr == b.addr ==>
                 s.At(c).OpenRegister? || s.At(c).Parked? || s.At(c).CloseLoad? || s.At(c).CloseCas?
  {
    var own, hold := RunInv(run, who, k);
    var s, b := run[k], run[k].At(sender);
    var o: nat := own[b.i];
    assert LentBy(s, own, b);
    forall c: nat | s.At(c).HasOpaque() && s.At(c).op.addr == b.addr
      ensures s.At(c).Shared()
    {
      assert s.At(c).op.gen == s.At(o).op.gen;
    }
  }

  /** Once opaque_free is about to detach and free its interface, the slot reads 0 and nobody holds
      the slot or the interface. */
  lemma NobodyHoldsWhatIsDetached(run: seq<State>, who: seq<nat>, k: nat, closer: nat)
    requires IsRun(run, who) && k < |run| && run[k].At(closer).CloseDetach?
    ensures var s, op := run[k], run[k].At(closer).op;
            && op.idx < |s.slots| && s.slots[op.idx] == Empty && op.addr in s.heap && s.heap[op.addr] == op.gen
            && forall t: nat :: && s.At(t).Held() != op.idx
                                && (s.At(t).SendHold? || s.At(t).SendWalk? || s.At(t).SendRelease? ==>
                                      s.At(t).addr != op.addr)
  {
    var own, hold := RunInv(run, who, k);
    var s, op := run[k], run[k].At(closer).op;
    assert own[op.idx] == closer;
    forall t: nat | s.At(t).Lent()
      ensures s.At(t).addr != op.addr
    {
      HeldInterfaceIsLive(run, who, k, t);
    }
  }

  /** opaque_alloc publishes over a 0; opaque_free never gives up its slot without having it; and
      release_idx finds its flag set, so its compare-and-swap always succeeds. */
  lemma SessionStepsFindTheirSlot(run: seq<State>, who: seq<nat>, k: nat, t: nat)
    requires IsRun(run, who) && k < |run|
    ensures var s, pc := run[k], run[k].At(t);
            && (pc.OpenPublish? ==> pc.op.idx < |s.slots| && s.slots[pc.op.idx] == Empty)
            && (pc.CloseLoad? || pc.CloseCas? ==> pc.op.idx < |s.slots| && s.slots[pc.op.idx] != Empty)
            && (pc.CloseClear? ==> pc.op.idx < |s.slots| && pc.got && s.slots[pc.op.idx] == Acquired)
            && (pc.CloseRelease? ==> pc.i < |s.used| && s.used[pc.i])
  {
    var own, hold := RunInv(run, who, k);
    var s, pc := run[k], run[k].At(t);
    if pc.Index() >= 0 {
      assert own[pc.Index()] == t;
      assert SlotFits(pc, s.slots[pc.Index()]);
    }
  }

  lemma RunLengths(run: seq<State>, who: seq<nat>, k: nat)
    requires IsRun(run, who) && k < |run|
    ensures |run[k].used| == |run[0].used| == |run[k].slots| == |run[0].slots|
  {
    var _, _ := RunInv(run, who, k);
  }

  // ---- What one scan saw ----

  ghost predicate SawUsed(run: seq<State>, t: nat, a: nat, b: nat, i: nat) {
    exists k :: a <= k < b && k < |run| && i < |run[k].used| && run[k].used[i] && run[k].At(t) == OpenScan(i)
  }

  lemma {:induction false} ScanSaw(run: seq<State>, who: seq<nat>, t: nat, a: nat, b: nat)
    requires IsRun(run, who) && a <= b < |run| && run[a].At(t) == OpenScan(0)
    requires forall k :: a <= k <= b ==> run[k].At(t).OpenScan?
    ensures run[b].At(t).i <= |run[0].used|
    ensures forall i: nat :: i < run[b].At(t).i ==> SawUsed(run, t, a, b, i)
    decreases b
  {
    if a < b {
      ScanSaw(run, who, t, a, b - 1);
      RunLengths(run, who, b - 1);
      Others(run[b - 1], run[b], who[b - 1]);
      forall i: nat | i < run[b].At(t).i
        ensures SawUsed(run, t, a, b, i)
      {
        if i < run[b - 1].At(t).i {
          assert SawUsed(run, t, a, b - 1, i);
        } else {
          assert run[b - 1].At(t) == OpenScan(i);
        }
      }
    }
  }

  /** acquire_idx returns -1 only if its own scan found each index taken when it looked at it. */
  lemma OpenFailsOnlyIfAllSeenUsed(run: seq<State>, who: seq<nat>, t: nat, a: nat, b: nat)
    requires IsRun(run, who) && a < b < |run|
    requires run[a].At(t) == OpenScan(0) && run[b].At(t) == OpenFailed
    requires forall k :: a <= k < b ==> run[k].At(t).OpenScan?
    ensures forall i: nat :: i < |run[0].used| ==> SawUsed(run, t, a, b, i)
  {
    ScanSaw(run, who, t, a, b - 1);
    RunLengths(run, who, b - 1);
    Others(run[b - 1], run[b], who[b - 1]);
    forall i: nat | i < |run[0].used|
      ensures SawUsed(run, t, a, b, i)
    {
      assert SawUsed(run, t, a, b - 1, i);
    }
  }

  // ---- What a sender sends ----

  /** The copies that the walked lists call for, one list after the other. */
  function Copies(req: Send, visits: seq<Visit>): seq<Send> {
    if visits == [] then []
    else Copies(req, visits[..|visits| - 1]) + AddrSends(req, visits[|visits| - 1].list)
  }

  /** The log of a sender holds its copies so far, and once it is done its own request behind them. */
  ghost predicate LogFits(s: State, pc: Pc) {
    match pc
    case SendLoad(_, b) => CopiesOnly(b)
    case SendCas(_, b, _) => CopiesOnly(b)
    case SendHold(_, b, _, _) => CopiesOnly(b)
    case SendWalk(_, b, _, g, j) =>
      && IsLimitedBroadcast(b.req) && j <= |s.ListOf(g)|
      && b.log == Copies(b.req, b.visits) + AddrSends(b.req, s.ListOf(g)[..j])
    case SendRelease(_, b, _, _) => CopiesOnly(b)
    case SendLast(b) => (IsLimitedBroadcast(b.req) || b.visits == []) && b.log == Copies(b.req, b.visits)
    case SendDone(b, _) =>
      (IsLimitedBroadcast(b.req) || b.visits == []) && b.log == Copies(b.req, b.visits) + [b.req]
    case _ => true
  }

  ghost predicate CopiesOnly(b: Sender) {
    IsLimitedBroadcast(b.req) && b.log == Copies(b.req, b.visits)
  }

  lemma WalkLog(s: State, s': State, t: nat)
    requires s.At(t).SendWalk? && SendStep(s, s', t) && LogFits(s, s.At(t))
    ensures LogFits(s', s'.At(t))
  {
    var pc := s.At(t);
    var b, list := pc.b, s.ListOf(pc.gen);
    if pc.j < |list| {
      assert list[..pc.j + 1][..pc.j] == list[..pc.j];
    } else {
      var v := Visit(pc.i, pc.addr, pc.gen, list);
      assert list[..pc.j] == list && (b.visits + [v])[..|b.visits|] == b.visits;
    }
  }

  lemma SenderLog(s: State, s': State, t: nat)
    requires s.At(t).Sending() && SendStep(s, s', t) && LogFits(s, s.At(t))
    ensures LogFits(s', s'.At(t))
  {
    var pc := s.At(t);
    if pc.SendWalk? {
      WalkLog(s, s', t);
    } else if pc.SendHold? {
      assert s.ListOf(pc.gen)[..0] == [];
    }
  }

  lemma OwnLog(s: State, s': State, t: nat)
    requires Step(s, s', t) && LogFits(s, s.At(t))
    ensures LogFits(s', s'.At(t))
  {
    if s.At(t).Sending() {
      SenderLog(s, s', t);
    } else if s.At(t) == Idle {
      StartLog(s, s', t);
    } else {
      assert !s'.At(t).Sending();
    }
  }

  lemma StartLog(s: State, s': State, t: nat)
    requires s.At(t) == Idle && StartStep(s, s', t)
    ensures LogFits(s', s'.At(t))
  {
  }

  /** Nobody changes a list that is being walked. */
  lemma ListsStay(s: State, s': State, t: nat, u: nat)
    requires Step(s, s', t) && u != t && s.At(u).SendWalk?
    ensures s'.ListOf(s.At(u).gen) == s.ListOf(s.At(u).gen)
  {
  }

  lemma {:induction false} RunLogs(run: seq<State>, who: seq<nat>, k: nat, t: nat)
    requires IsRun(run, who) && k < |run|
    ensures LogFits(run[k], run[k].At(t))
    decreases k
  {
    if k > 0 {
      RunLogs(run, who, k - 1, t);
      var s, s', u := run[k - 1], run[k], who[k - 1];
      if u == t {
        OwnLog(s, s', t);
      } else {
        Others(s, s', u);
        if s.At(t).SendWalk? {
          ListsStay(s, s', u, t);
        }
      }
    }
  }

  /** At some step between a and b, task t itself looked at slot i and found it empty. */
  ghost predicate SawEmpty(run: seq<State>, t: nat, a: nat, b: nat, i: nat) {
    exists k :: a <= k < b && k < |run| && EmptyAt(run[k], t, i)
  }

  ghost predicate EmptyAt(s: State, t: nat, i: nat) {
    i < |s.slots| && s.slots[i] == Empty && s.At(t).SendLoad? && s.At(t).i == i
  }

  /** The visits are to different slots below a bound, in slot order. */
  ghost predicate Ascending(v: seq<Visit>, below: nat) {
    && (forall m, n :: 0 <= m < n < |v| ==> v[m].slot < v[n].slot)
    && (forall m :: 0 <= m < |v| ==> v[m].slot < below)
  }

  ghost predicate Visited(v: seq<Visit>, i: nat) {
    exists m :: 0 <= m < |v| && v[m].slot == i
  }

  /** At some step between a and b, task t had the slot of this visit, and had reached the end of the
      address list of its interface, which was the list of the visit. */
  ghost predicate Walked(run: seq<State>, t: nat, a: nat, b: nat, v: Visit) {
    exists k :: a <= k < b && k < |run| && WalkedAt(run[k], t, v)
  }

  ghost predicate WalkedAt(s: State, t: nat, v: Visit) {
    var pc := s.At(t);
    && pc.SendWalk? && pc.i == v.slot && pc.addr == v.addr && pc.gen == v.gen
    && s.ListOf(v.gen) == v.list && pc.j == |v.list|
  }

  /** Task t is broadcasting req, from state a to state b. */
  ghost predicate Broadcasts(run: seq<State>, t: nat, req: Send, a: nat, b: nat) {
    && a <= b < |run| && run[a].At(t) == SendLoad(0, Sender(req, [], []))
    && forall k :: a <= k <= b ==> run[k].At(t).Sending() && !run[k].At(t).SendDone?
  }

  /** How many of the n slots a broadcast at pc is through with. */
  function Past(pc: Pc, n: nat): nat
    requires pc.Sending()
  {
    match pc
    case SendRelease(i, _, _, _) => i + 1
    case SendLast(_) => n
    case SendDone(_, _) => n
    case _ => pc.i
  }

  predicate InRange(pc: Pc, n: nat)
    requires pc.Sending()
  {
    Past(pc, n) <= n && (pc.SendCas? || pc.Lent() ==> pc.i < n)
  }

  /** A broadcast visits slots in order. */
  lemma VisitsAscend(s: State, s': State, t: nat, n: nat)
    requires s.At(t).Sending() && s'.At(t).Sending() && SendStep(s, s', t) && |s.slots| == n
    requires InRange(s.At(t), n) && Ascending(s.At(t).b.visits, Past(s.At(t), n))
    ensures InRange(s'.At(t), n) && Ascending(s'.At(t).b.visits, Past(s'.At(t), n))
    ensures s'.At(t).b.req == s.At(t).b.req && Past(s.At(t), n) <= Past(s'.At(t), n)
  {
  }

  lemma {:induction false} SendOrder(run: seq<State>, who: seq<nat>, t: nat, req: Send, a: nat, b: nat)
    requires IsRun(run, who) && Broadcasts(run, t, req, a, b)
    ensures var pc, n := run[b].At(t), |run[0].slots|;
            pc.b.req == req && InRange(pc, n) && Ascending(pc.b.visits, Past(pc, n))
    decreases b
  {
    if a < b {
      SendOrder(run, who, t, req, a, b - 1);
      RunLengths(run, who, b - 1);
      Others(run[b - 1], run[b], who[b - 1]);
      if who[b - 1] == t {
        VisitsAscend(run[b - 1], run[b], t, |run[0].slots|);
      }
    }
  }

  /** One step of a broadcast adds at most one visit, that of the walk it ends. */
  lemma VisitAdded(s: State, s': State, t: nat)
    requires s.At(t).Sending() && s'.At(t).Sending() && SendStep(s, s', t)
    requires s.At(t).SendWalk? ==> s.At(t).j <= |s.ListOf(s.At(t).gen)|
    ensures s'.At(t).b.visits == s.At(t).b.visits
            || (s.At(t).SendWalk? && s'.At(t).SendRelease?
                && exists v :: WalkedAt(s, t, v) && v.slot == s.At(t).i && s'.At(t).b.visits == s.At(t).b.visits + [v])
  {
    var pc := s.At(t);
    if pc.SendWalk? && s'.At(t).SendRelease? {
      assert WalkedAt(s, t, Visit(pc.i, pc.addr, pc.gen, s.ListOf(pc.gen)));
    }
  }

  lemma {:induction false} VisitsWalked(run: seq<State>, who: seq<nat>, t: nat, req: Send, a: nat, b: nat)
    requires IsRun(run, who) && Broadcasts(run, t, req, a, b)
    ensures forall v :: v in run[b].At(t).b.visits ==> Walked(run, t, a, b, v)
    decreases b
  {
    if a < b {
      VisitsWalked(run, who, t, req, a, b - 1);
      var s, s' := run[b - 1], run[b];
      Others(s, s', who[b - 1]);
      RunLogs(run, who, b - 1, t);
      if who[b - 1] == t {
        VisitAdded(s, s', t);
      }
      forall v | v in s'.At(t).b.visits
        ensures Walked(run, t, a, b, v)
      {
        if v in s.At(t).b.visits {
          assert Walked(run, t, a, b - 1, v);
        } else {
          assert WalkedAt(run[b - 1], t, v);
        }
      }
    }
  }

  /** A broadcast is through with one slot more only if it walked its interface, or saw it empty. */
  lemma SlotPassed(s: State, s': State, t: nat, n: nat, i: nat)
    requires s.At(t).Sending() && s'.At(t).Sending() && SendStep(s, s', t) && |s.slots| == n
    requires Past(s.At(t), n) <= i < Past(s'.At(t), n) && i < n
    ensures Visited(s'.At(t).b.visits, i) || EmptyAt(s, t, i)
  {
    var pc := s.At(t);
    if pc.SendWalk? {
      assert s'.At(t).b.visits[|pc.b.visits|].slot == i;
    }
  }

  lemma VisitedStays(s: State, s': State, t: nat, i: nat)
    requires s.At(t).Sending() && s'.At(t).Sending() && SendStep(s, s', t) && Visited(s.At(t).b.visits, i)
    ensures Visited(s'.At(t).b.visits, i)
  {
    var m :| 0 <= m < |s.At(t).b.visits| && s.At(t).b.visits[m].slot == i;
    assert s'.At(t).b.visits[m].slot == i;
  }

  lemma {:induction false} SendSaw(run: seq<State>, who: seq<nat>, t: nat, req: Send, a: nat, b: nat, i: nat)
    requires IsRun(run, who) && Broadcasts(run, t, req, a, b)
    requires i < |run[0].slots| && i < Past(run[b].At(t), |run[0].slots|)
    ensures Visited(run[b].At(t).b.visits, i) || SawEmpty(run, t, a, b, i)
    decreases b
  {
    var n := |run[0].slots|;
    if a < b {
      var s, s' := run[b - 1], run[b];
      Others(s, s', who[b - 1]);
      RunLengths(run, who, b - 1);
      if i < Past(s.At(t), n) {
        SendSaw(run, who, t, req, a, b - 1, i);
        if Visited(s.At(t).b.visits, i) {
          if who[b - 1] == t {
            VisitedStays(s, s', t, i);
          }
        } else {
          assert SawEmpty(run, t, a, b - 1, i);
        }
      } else {
        SlotPassed(s, s', t, n, i);
      }
    }
  }

  /** The visit is to this slot and this interface. */
  predicate VisitOf(v: Visit, slot: nat, addr: nat, gen: nat) {
    v.slot == slot && v.addr == addr && v.gen == gen
  }

  /** A broadcast at pc has this interface and is not through with its list, or has visited it. */
  ghost predicate Noted(pc: Pc, slot: nat, addr: nat, gen: nat)
    requires pc.Sending()
  {
    || ((pc.SendHold? || pc.SendWalk?) && pc.i == slot && pc.addr == addr && pc.gen == gen)
    || exists v :: v in pc.b.visits && VisitOf(v, slot, addr, gen)
  }

  lemma NotedStays(s: State, s': State, t: nat, slot: nat, addr: nat, gen: nat)
    requires s.At(t).Sending() && s'.At(t).Sending() && SendStep(s, s', t) && Noted(s.At(t), slot, addr, gen)
    ensures Noted(s'.At(t), slot, addr, gen)
  {
    var pc, pc' := s.At(t), s'.At(t);
    if v :| v in pc.b.visits && VisitOf(v, slot, addr, gen) {
      assert v in pc'.b.visits;
    } else if pc'.SendRelease? {
      var v := Visit(slot, addr, gen, s.ListOf(gen));
      assert v in pc'.b.visits && VisitOf(v, slot, addr, gen);
    }
  }

  /** What a step newly holds, or goes on holding, is noted if what it held was. */
  lemma HeldNoted(s: State, s': State, t: nat)
    requires s.At(t).Sending() && s'.At(t).Sending() && SendStep(s, s', t) && s'.At(t).Lent()
    requires s.At(t).Lent() ==> Noted(s.At(t), s.At(t).i, s.At(t).addr, s.At(t).gen)
    ensures Noted(s'.At(t), s'.At(t).i, s'.At(t).addr, s'.At(t).gen)
  {
    if s.At(t).Lent() {
      NotedStays(s, s', t, s.At(t).i, s.At(t).addr, s.At(t).gen);
    }
  }

  lemma {:induction false} HeldIsNoted(run: seq<State>, who: seq<nat>, t: nat, req: Send, a: nat, b: nat)
    requires IsRun(run, who) && Broadcasts(run, t, req, a, b) && run[b].At(t).Lent()
    ensures Noted(run[b].At(t), run[b].At(t).i, run[b].At(t).addr, run[b].At(t).gen)
    decreases b
  {
    Others(run[b - 1], run[b], who[b - 1]);
    if run[b - 1].At(t).Lent() {
      HeldIsNoted(run, who, t, req, a, b - 1);
    }
    if who[b - 1] == t {
      HeldNoted(run[b - 1], run[b], t);
    }
  }

  /** What a broadcast held at step k it has noted ever after. */
  lemma {:induction false} HeldStaysNoted(run: seq<State>, who: seq<nat>, t: nat, req: Send, a: nat, b: nat, k: nat)
    requires IsRun(run, who) && Broadcasts(run, t, req, a, b) && a <= k <= b && run[k].At(t).Lent()
    ensures Noted(run[b].At(t), run[k].At(t).i, run[k].At(t).addr, run[k].At(t).gen)
    decreases b
  {
    if k == b {
      HeldIsNoted(run, who, t, req, a, b);
    } else {
      HeldStaysNoted(run, who, t, req, a, b - 1, k);
      Others(run[b - 1], run[b], who[b - 1]);
      if who[b - 1] == t {
        NotedStays(run[b - 1], run[b], t, run[k].At(t).i, run[k].At(t).addr, run[k].At(t).gen);
      }
    }
  }

  /** The interface that a sender holds is among the visits. */
  ghost predicate HeldVisited(pc: Pc, visits: seq<Visit>)
    requires pc.Lent()
  {
    exists v :: v in visits && VisitOf(v, pc.i, pc.addr, pc.gen)
  }

  /** What a broadcast has done when it is done, from its first load on. */
  lemma FinishedBroadcast(run: seq<State>, who: seq<nat>, t: nat, req: Send, a: nat, b: nat)
    requires IsRun(run, who) && Broadcasts(run, t, req, a, b) && b + 1 < |run| && run[b + 1].At(t).SendDone?
    ensures var done := run[b + 1].At(t).b;
            && done.req == req && done.log == Copies(req, done.visits) + [req]
            && Ascending(done.visits, |run[0].slots|)
            && (forall v :: v in done.visits ==> Walked(run, t, a, b, v))
            && (forall k :: a <= k <= b && run[k].At(t).Lent() ==> HeldVisited(run[k].At(t), done.visits))
            && (forall i: nat :: i < |run[0].slots| ==> Visited(done.visits, i) || SawEmpty(run, t, a, b, i))
  {
    var s, s' := run[b], run[b + 1];
    Others(s, s', who[b]);
    RunLogs(run, who, b + 1, t);
    SendOrder(run, who, t, req, a, b);
    VisitsWalked(run, who, t, req, a, b);
    assert s.At(t).SendLast? && s'.At(t).b.visits == s.At(t).b.visits && s'.At(t).b.req == s.At(t).b.req;
    forall i: nat | i < |run[0].slots|
      ensures Visited(s'.At(t).b.visits, i) || SawEmpty(run, t, a, b, i)
    {
      SendSaw(run, who, t, req, a, b, i);
    }
    forall k | a <= k <= b && run[k].At(t).Lent()
      ensures HeldVisited(run[k].At(t), s'.At(t).b.visits)
    {
      HeldStaysNoted(run, who, t, req, a, b, k);
    }
  }

  /** The lists of the visits. */
  function VisitLists(visits: seq<Visit>): seq<seq<BroadAddr>> {
    seq(|visits|, m requires 0 <= m < |visits| => visits[m].list)
  }

  lemma {:induction false} CopiesOfVisits(req: Send, visits: seq<Visit>) returns (spots: seq<Spot>)
    ensures CopiesAre(Copies(req, visits), req, VisitLists(visits), spots)
  {
    if visits == [] {
      spots := [];
    } else {
      var n := |visits| - 1;
      spots := CopiesOfVisits(req, visits[..n]);
      spots := OneListMore(Copies(req, visits[..n]), req, VisitLists(visits[..n]), visits[n].list, spots);
      assert VisitLists(visits[..n]) + [visits[n].list] == VisitLists(visits);
    }
  }

  /** Task t calls new_udp_send in state a, makes its original send in state b, and is not back before. */
  ghost predicate Calls(run: seq<State>, who: seq<nat>, t: nat, req: Send, a: nat, b: nat) {
    && a < b < |who| && |run| == |who| + 1
    && run[a].At(t) == Idle && who[a] == t && Begins(run[a], run[a + 1], t, req)
    && (forall k :: a < k <= b ==> run[k].At(t).Sending() && !run[k].At(t).SendDone?)
    && run[b + 1].At(t).SendDone?
  }

  /** In every run, whatever the others do meanwhile: a finished limited broadcast has sent, interface by
      interface in slot order and entry by entry in list order, one copy of its request to each usable
      address of every interface it held, and then exactly the request itself, whose answer it
      returns. All it held is among its visits, each was walked while it was held, no slot was visited
      twice, and each slot left out is one that it looked at itself and found empty. */
  lemma BroadcastSends(run: seq<State>, who: seq<nat>, t: nat, req: Send, a: nat, b: nat) returns (spots: seq<Spot>)
    requires IsRun(run, who) && Calls(run, who, t, req, a, b)
    requires req.to.SockAddr? && req.to.family == 2 && req.to.addr == 0xffff_ffff
    ensures var done := run[b + 1].At(t).b;
            && |done.log| == |spots| + 1 && done.log[|spots|] == req
            && CopiesAre(done.log[..|spots|], req, VisitLists(done.visits), spots)
            && Ascending(done.visits, |run[0].slots|)
            && (forall v :: v in done.visits ==> Walked(run, t, a, b, v))
            && (forall k :: a <= k <= b && run[k].At(t).Lent() ==> HeldVisited(run[k].At(t), done.visits))
            && (forall i: nat :: i < |run[0].slots| ==> Visited(done.visits, i) || SawEmpty(run, t, a, b, i))
  {
    assert Broadcasts(run, t, req, a + 1, b);
    FinishedBroadcast(run, who, t, req, a + 1, b);
    var done := run[b + 1].At(t).b;
    spots := CopiesOfVisits(req, done.visits);
    assert done.log[..|spots|] == Copies(req, done.visits);
    forall v | v in done.visits
      ensures Walked(run, t, a, b, v)
    {
      assert Walked(run, t, a + 1, b, v);
    }
    forall i: nat | i < |run[0].slots|
      ensures Visited(done.visits, i) || SawEmpty(run, t, a, b, i)
    {
      assert SawEmpty(run, t, a + 1, b, i) ==> SawEmpty(run, t, a, b, i);
    }
  }

  lemma {:induction false} StillAtLast(run: seq<State>, who: seq<nat>, t: nat, req: Send, a: nat, b: nat)
    requires IsRun(run, who) && a < b < |run| && run[a + 1].At(t) == SendLast(Sender(req, [], []))
    requires forall k :: a < k <= b ==> run[k].At(t).Sending() && !run[k].At(t).SendDone?
    ensures run[b].At(t) == SendLast(Sender(req, [], []))
    decreases b
  {
    if a + 1 < b {
      StillAtLast(run, who, t, req, a, b - 1);
      Others(run[b - 1], run[b], who[b - 1]);
    }
  }

  /** Every other request is sent alone. */
  lemma OtherSendsGoAlone(run: seq<State>, who: seq<nat>, t: nat, req: Send, a: nat, b: nat)
    requires IsRun(run, who) && Calls(run, who, t, req, a, b)
    requires !(req.to.SockAddr? && req.to.family == 2 && req.to.addr == 0xffff_ffff)
    ensures run[b + 1].At(t).b.log == [req]
  {
    StillAtLast(run, who, t, req, a, b);
    Others(run[b], run[b + 1], who[b]);
  }

  // ---- ABA ----

  /** A broadcast that has done nothing yet. */
  const LONE := Sender(Send(0, 0, [], SockAddr(AF_INET, 0, INADDR_BROADCAST), [], 0), [], [])

  lemma Extend(p: seq<State>, who: seq<nat>, s: State, t: nat) returns (q: seq<State>, w: seq<nat>)
    requires Path(p, who) && Step(p[|who|], s, t)
    ensures q == p + [s] && w == who + [t] && Path(q, w)
  {
    q, w := p + [s], who + [t];
  }

  /** Session t opens the only slot with a fresh interface at addr, up to and including the publish. */
  lemma OpensSlot(p: seq<State>, who: seq<nat>, t: nat, addr: nat) returns (q: seq<State>, w: seq<nat>)
    requires Path(p, who) && addr !in p[|who|].heap
    requires var s := p[|who|]; s.At(t) == Idle && s.used == [false] && s.slots == [Empty]
    ensures Path(q, w) && |w| == |who| + 4 && p <= q
    ensures var s, s' := p[|who|], q[|w|];
            && s'.used == [true] && s'.slots == [Iface(addr)]
            && s'.heap == s.heap[addr := s.nextGen] && s'.nextGen == s.nextGen + 1
            && s'.At(t) == OpenRegister(Opaque(0, addr, s.nextGen))
            && forall u: int :: u != t ==> s'.At(u) == s.At(u)
  {
    var s := p[|who|];
    var op := Opaque(0, addr, s.nextGen);
    var s1 := s.Goto(t, OpenScan(0));
    var s2 := s1.(used := s1.used[0 := true]).Goto(t, OpenAlloc(0));
    var s3 := s2.(heap := s2.heap[addr := s2.nextGen], nextGen := s2.nextGen + 1).Goto(t, OpenPublish(op));
    var s4 := s3.(slots := s3.slots[0 := Iface(addr)]).Goto(t, OpenRegister(op));
    assert Allocates(s2, s3, t, 0, addr);
    q, w := Extend(p, who, s1, t);
    q, w := Extend(q, w, s2, t);
    q, w := Extend(q, w, s3, t);
    q, w := Extend(q, w, s4, t);
  }

  /** Session t starts to close, up to and including the acquire. */
  lemma ClaimsSlot(p: seq<State>, who: seq<nat>, t: nat, op: Opaque) returns (q: seq<State>, w: seq<nat>)
    requires Path(p, who) && op.idx == 0
    requires var s := p[|who|]; s.At(t) == OpenRegister(op) && s.used == [true] && s.slots == [Iface(op.addr)]
    ensures Path(q, w) && |w| == |who| + 4 && p <= q
    ensures q[|w|] == p[|who|].(slots := [Acquired], tasks := p[|who|].tasks[t := CloseClear(op, true)])
  {
    var s := p[|who|];
    var s1 := s.Goto(t, Parked(op));
    var s2 := s1.Goto(t, CloseLoad(op));
    var s3 := s2.Goto(t, CloseCas(op, op.addr));
    q, w := Extend(p, who, s1, t);
    q, w := Extend(q, w, s2, t);
    q, w := Extend(q, w, s3, t);
    q, w := Extend(q, w, s3.(slots := s3.slots[0 := Acquired]).Goto(t, CloseClear(op, true)), t);
    assert q[|w|].tasks == s.tasks[t := CloseClear(op, true)];
  }

  /** Session t goes on to close: the slot is cleared, the interface freed and the index given back. */
  lemma LeavesSlot(p: seq<State>, who: seq<nat>, t: nat, op: Opaque) returns (q: seq<State>, w: seq<nat>)
    requires Path(p, who) && op.idx == 0
    requires var s := p[|who|]; s.At(t) == CloseClear(op, true) && s.used == [true] && s.slots == [Acquired]
    ensures Path(q, w) && |w| == |who| + 3 && p <= q
    ensures var s := p[|who|];
            q[|w|] == s.(used := [false], slots := [Empty], heap := s.heap - {op.addr}, tasks := s.tasks[t := Idle])
  {
    var s := p[|who|];
    var s1 := s.(slots := s.slots[0 := Empty]).Goto(t, CloseDetach(op));
    var s2 := s1.(heap := s1.heap - {op.addr}).Goto(t, CloseRelease(0));
    q, w := Extend(p, who, s1, t);
    q, w := Extend(q, w, s2, t);
    q, w := Extend(q, w, s2.(used := s2.used[0 := false]).Goto(t, Idle), t);
    assert q[|w|].tasks == s.tasks[t := Idle];
  }

  /** A broadcast of task t loads the address from the only slot. */
  lemma LoadsSlot(p: seq<State>, who: seq<nat>, t: nat, addr: nat) returns (q: seq<State>, w: seq<nat>)
    requires Path(p, who) && p[|who|].At(t) == Idle && p[|who|].slots == [Iface(addr)]
    ensures Path(q, w) && |w| == |who| + 2 && p <= q && q[|who| + 1].At(t) == SendLoad(0, LONE)
    ensures q[|who| + 1].heap == p[|who|].heap
    ensures q[|w|] == p[|who|].(tasks := p[|who|].tasks[t := SendCas(0, LONE, addr)])
  {
    var s := p[|who|];
    var s1 := s.Goto(t, SendLoad(0, LONE));
    assert Begins(s, s1, t, LONE.req);
    q, w := Extend(p, who, s1, t);
    q, w := Extend(q, w, s1.Goto(t, SendCas(0, LONE, addr)), t);
    assert q[|w|].tasks == s.tasks[t := SendCas(0, LONE, addr)];
  }

  lemma SwapsSlot(p: seq<State>, who: seq<nat>, t: nat, addr: nat) returns (q: seq<State>, w: seq<nat>)
    requires Path(p, who) && p[|who|].At(t) == SendCas(0, LONE, addr) && p[|who|].slots == [Iface(addr)]
    ensures Path(q, w) && |w| == |who| + 1 && p <= q
    ensures q[|w|].At(t) == SendHold(0, LONE, addr, p[|who|].GenOf(addr))
  {
    var s := p[|who|];
    q, w := Extend(p, who, s.(slots := [Acquired]).Goto(t, SendHold(0, LONE, addr, s.GenOf(addr))), t);
  }

  /** The first half of the run below: a broadcast loads an address, and the interface there goes. */
  lemma LoadedAndGone() returns (run: seq<State>, who: seq<nat>, a: nat)
    ensures IsRun(run, who) && a + 1 < |who|
    ensures run[a].At(2) == SendLoad(0, LONE) && run[a].heap == map[7 := 0] && run[a + 1].At(2) == SendCas(0, LONE, 7)
    ensures var s := run[|who|];
            && s.At(1) == Idle && s.At(2) == SendCas(0, LONE, 7)
            && s.used == [false] && s.slots == [Empty] && s.heap == map[] && s.nextGen == 1
  {
    var s := State([false], [Empty], map[], map[], 0, map[]);
    var r1, w1 := OpensSlot([s], [], 1, 7);
    var r2, w2 := LoadsSlot(r1, w1, 2, 7);
    var r3, w3 := ClaimsSlot(r2, w2, 1, Opaque(0, 7, 0));
    run, who := LeavesSlot(r3, w3, 1, Opaque(0, 7, 0));
    a := |w1| + 1;
    assert run[0] == s && run[a] == r2[a] && run[a + 1] == r2[a + 1];
  }

  /** The compare-and-swap really does meet ABA: a broadcast loads an address, the slot is cleared,
      its interface freed and the address handed out again, and the swap succeeds on the new one.
      What it then holds is numbered as the new interface. */
  lemma AbaHappens() returns (run: seq<State>, who: seq<nat>, a: nat, c: nat, b: nat)
    ensures IsRun(run, who) && a < c < b && b + 1 < |run|
    ensures run[a].At(2) == SendLoad(0, LONE) && run[a + 1].At(2) == SendCas(0, LONE, 7) == run[b].At(2)
    ensures run[a].heap == map[7 := 0] && run[c].heap == map[] && run[c].slots == [Empty] && run[b].heap == map[7 := 1]
    ensures run[b + 1].At(2) == SendHold(0, LONE, 7, 1)
  {
    var r1, w1, loaded := LoadedAndGone();
    var r2, w2 := OpensSlot(r1, w1, 1, 7);
    run, who := SwapsSlot(r2, w2, 2, 7);
    a, c, b := loaded, |w1|, |w2|;
    assert run[0] == r1[0] && run[a] == r1[a] && run[a + 1] == r1[a + 1] && run[c] == r1[c] && run[b] == r2[b];
  }
}
