/**
 The resource tracker: an intrusive list whose back pointers point at the field that points to the
 node. Resources are created, moved by realloc, freed one by one, or all collected at once; the
 destructor of each must run exactly once.
 */
module Resources {

  // ---- What a run does to the resources, each known by the order it was created in ----

  /** The live resources from the newest to the oldest, and those destroyed in the order of their
      destructor calls. */
  datatype Ledger = Ledger(live: seq<nat>, destroyed: seq<nat>, issued: nat)

  /** An operation on the live resource at a position counted from the newest. */
  datatype Op = Alloc | Realloc(i: nat) | Free(i: nat) | Collect

  datatype Outcome = Done(ledger: Ledger) | Crash

  predicate Meant(l: Ledger, op: Op) {
    (op.Realloc? || op.Free?) ==> op.i < |l.live|
  }

  /** free and realloc write through `next` without looking: on the oldest resource they crash. */
  function Apply(l: Ledger, op: Op): Outcome
    requires Meant(l, op)
  {
    match op
    case Alloc => Done(Ledger([l.issued] + l.live, l.destroyed, l.issued + 1))
    case Realloc(i) => if i == |l.live| - 1 then Crash else Done(l)
    case Free(i) =>
      if i == |l.live| - 1 then Crash
      else Done(Ledger(l.live[..i] + l.live[i + 1..], l.destroyed + [l.live[i]], l.issued))
    case Collect => Done(Ledger([], l.destroyed + l.live, l.issued))
  }

  const EMPTY := Ledger([], [], 0)

  /** Freeing, or moving, the only resource there is already crashes. */
  lemma OnlyOneCrashes()
    ensures Apply(EMPTY, Alloc).Done?
    ensures var l := Apply(EMPTY, Alloc).ledger;
            Meant(l, Free(0)) && Apply(l, Free(0)) == Apply(l, Realloc(0)) == Crash
  {
  }

  /** The ledgers of a run that did not crash. */
  ghost predicate IsRun(run: seq<Ledger>, ops: seq<Op>) {
    && |run| == |ops| + 1 && run[0] == EMPTY
    && forall k {:trigger ops[k]} :: 0 <= k < |ops| ==>
         Meant(run[k], ops[k]) && Apply(run[k], ops[k]) == Done(run[k + 1])
  }

  /** Every resource ever created is either live, or its destructor ran; never both, never twice. */
  ghost predicate OnceEach(l: Ledger) {
    forall id: nat :: multiset(l.live)[id] + multiset(l.destroyed)[id] == if id < l.issued then 1 else 0
  }

  lemma ApplyOnce(l: Ledger, op: Op)
    requires OnceEach(l) && Meant(l, op) && Apply(l, op).Done?
    ensures OnceEach(Apply(l, op).ledger)
  {
    match op
    case Alloc =>
    case Realloc(i) =>
    case Free(i) => assert l.live == l.live[..i] + [l.live[i]] + l.live[i + 1..];
    case Collect =>
  }

  lemma {:induction false} RunOnce(run: seq<Ledger>, ops: seq<Op>, k: nat)
    requires IsRun(run, ops) && k < |run|
    ensures OnceEach(run[k])
    decreases k
  {
    if k > 0 {
      RunOnce(run, ops, k - 1);
      var op := ops[k - 1];
      ApplyOnce(run[k - 1], op);
    }
  }

  /** After a run that ends by collecting, every resource ever created was destroyed exactly once, and
      nothing is left. */
  lemma CollectEndsAll(run: seq<Ledger>, ops: seq<Op>)
    requires IsRun(run, ops) && ops != [] && ops[|ops| - 1] == Collect
    ensures var l := run[|ops|];
            l.live == [] && forall id: nat :: multiset(l.destroyed)[id] == if id < l.issued then 1 else 0
  {
    RunOnce(run, ops, |ops|);
    assert Meant(run[|ops| - 1], ops[|ops| - 1]);
  }

  /** The live resources are listed from the newest to the oldest. */
  lemma {:induction false} NewestFirst(run: seq<Ledger>, ops: seq<Op>, k: nat)
    requires IsRun(run, ops) && k < |run|
    ensures forall i :: 0 <= i < |run[k].live| ==> run[k].live[i] < run[k].issued
    ensures forall i, j :: 0 <= i < j < |run[k].live| ==> run[k].live[i] > run[k].live[j]
    decreases k
  {
    if k > 0 {
      NewestFirst(run, ops, k - 1);
      var op := ops[k - 1];
      assert Apply(run[k - 1], op) == Done(run[k]);
    }
  }

  /** After any run, to free or move a live resource crashes exactly if it is the oldest; else a move
      changes nothing, and to free it destroys it and leaves the others. */
  lemma CrashesIff(run: seq<Ledger>, ops: seq<Op>, k: nat, i: nat)
    requires IsRun(run, ops) && k < |run| && i < |run[k].live|
    ensures var l := run[k];
            var oldest := forall j :: 0 <= j < |l.live| ==> l.live[i] <= l.live[j];
            && (Apply(l, Free(i)) == Crash <==> oldest) && (Apply(l, Realloc(i)) == Crash <==> oldest)
            && (!oldest ==> Apply(l, Realloc(i)) == Done(l))
            && (!oldest ==> && Apply(l, Free(i)).ledger.destroyed == l.destroyed + [l.live[i]]
                            && forall id :: id in Apply(l, Free(i)).ledger.live <==> id in l.live && id != l.live[i])
  {
    NewestFirst(run, ops, k);
    var l := run[k];
    assert i < |l.live| - 1 ==> l.live[i] > l.live[|l.live| - 1];
    if i < |l.live| - 1 {
      var rest := l.live[..i] + l.live[i + 1..];
      forall id
        ensures id in rest <==> id in l.live && id != l.live[i]
      {
        if id in l.live && id != l.live[i] {
          var j :| 0 <= j < |l.live| && l.live[j] == id;
          assert rest[if j < i then j else j - 1] == id;
        }
      }
    }
  }

  /** What was destroyed stays destroyed, in its order. */
  lemma {:induction false} DestroyedGrows(run: seq<Ledger>, ops: seq<Op>, j: nat, k: nat)
    requires IsRun(run, ops) && j <= k < |run|
    ensures run[j].destroyed <= run[k].destroyed && run[j].issued <= run[k].issued
    decreases k
  {
    if j < k {
      DestroyedGrows(run, ops, j, k - 1);
      var op := ops[k - 1];
      assert Apply(run[k - 1], op) == Done(run[k]);
    }
  }

  // ---- The list ----

  /** What a `struct Resource**` points at: the list head, or a node's next field. */
  datatype Link = Head | NextOf(node: Resource)

  class Resource {
    ghost const id: nat
    var next: Resource?
    var prev: Link

    constructor (ghost id: nat, next: Resource?, prev: Link)
      ensures this.id == id && this.next == next && this.prev == prev
    {
      this.id, this.next, this.prev := id, next, prev;
    }
  }

  ghost function Ids(nodes: seq<Resource>): seq<nat>
  {
    seq(|nodes|, i requires 0 <= i < |nodes| => nodes[i].id)
  }

  class Tracker {
    var list: Resource?
    ghost var live: seq<Resource>
    ghost var destroyed: seq<nat>
    ghost var issued: nat

    /** *node.prev == node for every node, and the nodes are exactly the live ones, in order. */
    ghost predicate Valid()
      reads this, live
    {
      && (forall i, j :: 0 <= i < j < |live| ==> live[i] != live[j])
      && list == (if live == [] then null else live[0])
      && (forall i {:trigger live[i].next} :: 0 <= i < |live| ==>
            live[i].next == if i + 1 < |live| then live[i + 1] else null)
      && (forall i {:trigger live[i].prev} :: 0 <= i < |live| ==>
            live[i].prev == if i == 0 then Head else NextOf(live[i - 1]))
    }

    ghost function State(): Ledger
      reads this
    {
      Ledger(Ids(live), destroyed, issued)
    }

    /** *link */
    ghost function Deref(link: Link): Resource?
      reads this, if link.NextOf? then {link.node} else {}
    {
      match link
      case Head => list
      case NextOf(node) => node.next
    }

    lemma PrevPointsBack(i: nat)
      requires Valid() && i < |live|
      ensures Deref(live[i].prev) == live[i]
    {
      if i > 0 {
        assert live[i - 1].next == live[i];
      }
    }

    constructor ()
      ensures Valid() && State() == EMPTY
    {
      list, live, destroyed, issued := null, [], [], 0;
    }

    /** *link = node */
    method StoreThrough(link: Link, node: Resource?)
      modifies if link.Head? then {this as object} else {link.node}
      ensures link.Head? ==> list == node && live == old(live) && destroyed == old(destroyed) && issued == old(issued)
      ensures link.NextOf? ==> link.node.next == node && link.node.prev == old(link.node.prev)
    {
      match link
      case Head => list := node;
      case NextOf(n) => n.next := node;
    }

    method ResourceAlloc() returns (buf: Resource)
      requires Valid()
      modifies this, live
      ensures Valid() && fresh(buf) && live == [buf] + old(live)
      ensures Done(State()) == Apply(old(State()), Alloc)
    {
      buf := new Resource(issued, list, Head);
      if list != null {
        list.prev := NextOf(buf);
      }
      list := buf;
      live := [buf] + live;
      issued := issued + 1;
      assert forall i :: 0 < i < |live| ==> live[i] == old(live)[i - 1];
    }

    /** The links of all nodes but the i-th after its neighbours' were set to r. */
    twostate predicate Replaced(new nodes: seq<Resource>, new i: nat, new r: Resource)
      reads this, nodes, r
    {
      && i + 1 < |nodes| && nodes == old(live) && live == nodes[i := r] && (r == nodes[i] || r !in nodes)
      && list == (if i == 0 then r else old(list)) && r.next == old(nodes[i].next) && r.prev == old(nodes[i].prev)
      && (forall k {:trigger nodes[k]} :: 0 <= k < |nodes| && k != i ==>
            && nodes[k].next == (if k + 1 == i then r else old(nodes[k].next))
            && nodes[k].prev == (if k == i + 1 then NextOf(r) else old(nodes[k].prev)))
    }

    twostate lemma ReplacedValid(new nodes: seq<Resource>, new i: nat, new r: Resource)
      requires old(Valid()) && Replaced(nodes, i, r)
      ensures Valid()
    {
    }

    /** The links of the other nodes after the i-th was bridged. */
    twostate predicate Bridged(new nodes: seq<Resource>, new i: nat)
      reads this, nodes
    {
      && i + 1 < |nodes| && nodes == old(live) && live == nodes[..i] + nodes[i + 1..]
      && list == (if i == 0 then old(nodes[i].next) else old(list))
      && (forall k {:trigger nodes[k]} :: 0 <= k < |nodes| && k != i ==>
            && nodes[k].next == (if k + 1 == i then old(nodes[i].next) else old(nodes[k].next))
            && nodes[k].prev == (if k == i + 1 then old(nodes[i].prev) else old(nodes[k].prev)))
    }

    twostate lemma BridgedValid(new nodes: seq<Resource>, new i: nat)
      requires old(Valid()) && Bridged(nodes, i)
      ensures Valid()
    {
      forall k | 0 <= k < |live|
        ensures live[k].next == if k + 1 < |live| then live[k + 1] else null
        ensures live[k].prev == if k == 0 then Head else NextOf(live[k - 1])
      {
        BridgedNext(nodes, i, k);
        BridgedPrev(nodes, i, k);
      }
    }

    twostate lemma BridgedNext(new nodes: seq<Resource>, new i: nat, new k: nat)
      requires old(Valid()) && Bridged(nodes, i) && k < |live|
      ensures live[k].next == if k + 1 < |live| then live[k + 1] else null
    {
      if k < i {
        assert live[k] == nodes[k];
        assert old(nodes[k].next) == nodes[k + 1] && old(nodes[i].next) == nodes[i + 1];
      } else {
        assert live[k] == nodes[k + 1];
        assert old(nodes[k + 1].next) == if k + 2 < |nodes| then nodes[k + 2] else null;
      }
    }

    twostate lemma BridgedPrev(new nodes: seq<Resource>, new i: nat, new k: nat)
      requires old(Valid()) && Bridged(nodes, i) && k < |live|
      ensures live[k].prev == if k == 0 then Head else NextOf(live[k - 1])
    {
      if k < i {
        assert live[k] == nodes[k];
        assert old(nodes[k].prev) == if k == 0 then Head else NextOf(nodes[k - 1]);
      } else {
        assert live[k] == nodes[k + 1];
        assert old(nodes[k + 1].prev) == NextOf(nodes[k]);
        assert old(nodes[i].prev) == if i == 0 then Head else NextOf(nodes[i - 1]);
      }
    }

    /** Makes the neighbours of the i-th node point to r, or crashes because it is the oldest. */
    method Relink(r: Resource, ghost i: nat)
      returns (ok: bool)
      requires Valid() && i < |live| && r.next == live[i].next && r.prev == live[i].prev
      requires r == live[i] || r !in live
      modifies this, live, r
      ensures destroyed == old(destroyed) && issued == old(issued) && (ok <==> i != |old(live)| - 1)
      ensures ok ==> Valid() && live == old(live)[i := r]
    {
      ghost var nodes := live;
      PrevPointsBack(i);
      assert nodes[i].prev == if i == 0 then Head else NextOf(nodes[i - 1]);
      assert nodes[i].next == if i + 1 < |nodes| then nodes[i + 1] else null;
      StoreThrough(r.prev, r);
      if r.next == null {
        return false;
      }
      r.next.prev := NextOf(r);
      live := live[i := r];
      ReplacedValid(nodes, i, r);
      ok := true;
    }

    /** Moves the i-th live resource, or leaves it where it is. A crash leaves the tracker locked. */
    method ResourceRealloc(cur: Resource, moved: bool, ghost i: nat) returns (ok: bool, r: Resource)
      requires Valid() && i < |live| && live[i] == cur
      modifies this, live
      ensures Apply(old(State()), Realloc(i)) == if ok then Done(State()) else Crash
      ensures ok ==> Valid() && live == old(live)[i := r] && (moved ==> fresh(r)) && (!moved ==> r == cur)
    {
      r := cur;
      if moved {
        r := new Resource(cur.id, cur.next, cur.prev);
      }
      ok := Relink(r, i);
      assert Ids(old(live)[i := r]) == Ids(old(live));
    }

    /** Takes the i-th node out of the list, or crashes because it is the oldest. */
    method Unlink(res: Resource, ghost i: nat) returns (ok: bool)
      requires Valid() && i < |live| && live[i] == res
      modifies this, live
      ensures destroyed == old(destroyed) && issued == old(issued) && (ok <==> i != |old(live)| - 1)
      ensures ok ==> Valid() && live == old(live[..i] + live[i + 1..])
    {
      PrevPointsBack(i);
      StoreThrough(res.prev, res.next);
      if res.next == null {
        return false;
      }
      res.next.prev := res.prev;
      ghost var nodes := live;
      live := nodes[..i] + nodes[i + 1..];
      BridgedValid(nodes, i);
      ok := true;
    }

    /** Destroys and unlinks the i-th live resource; does nothing on a null handle. */
    method ResourceFree(res: Resource?, ghost i: nat) returns (ok: bool)
      requires Valid() && (res != null ==> i < |live| && live[i] == res)
      modifies this, live
      ensures res == null ==> ok && Valid() && State() == old(State())
      ensures res != null ==> Apply(old(State()), Free(i)) == if ok then Done(State()) else Crash
      ensures res != null && ok ==> Valid() && live == old(live[..i] + live[i + 1..])
    {
      if res == null {
        return true;
      }
      destroyed := destroyed + [res.id];
      ghost var nodes := live;
      ok := Unlink(res, i);
      assert Ids(nodes[..i] + nodes[i + 1..]) == Ids(nodes)[..i] + Ids(nodes)[i + 1..];
    }

    /** Destroys everything, newest first; the back pointers go stale on the way, but nothing reads them. */
    method ResourceCollect()
      requires Valid()
      modifies this
      ensures Valid() && live == []
      ensures Done(State()) == Apply(old(State()), Collect)
    {
      ghost var k := 0;
      ghost var nodes := live;
      while list != null
        invariant 0 <= k <= |nodes| && nodes == old(live) && issued == old(issued)
        invariant list == if k < |nodes| then nodes[k] else null
        invariant live == nodes[k..] && destroyed == old(destroyed) + Ids(nodes[..k])
        invariant forall i {:trigger nodes[i].next} :: 0 <= i < |nodes| ==>
                    nodes[i].next == if i + 1 < |nodes| then nodes[i + 1] else null
        decreases |nodes| - k
      {
        var cur := list;
        destroyed := destroyed + [cur.id];
        list := cur.next;
        live := nodes[k + 1..];
        assert Ids(nodes[..k + 1]) == Ids(nodes[..k]) + [cur.id];
        k := k + 1;
      }
      assert nodes[..k] == nodes;
    }
  }
}
