/**
 new_udp_send as one caller runs it: a send to 255.255.255.255 is first repeated to the broadcast
 address of every interface address of every published interface, and then passed on as it came.
 Every other send is passed on alone.
 */
module UdpBroadcast {
  import opened Sends

  /** A slot with its interface given by its address list. */
  type Known = Slot<seq<BroadAddr>>

  type Settled = s: Known | s != Acquired witness Empty

  function OneSlotSends(req: Send, slot: Known): seq<Send> {
    if slot.Iface? then AddrSends(req, slot.iface) else []
  }

  function SlotSends(req: Send, slots: seq<Known>): seq<Send> {
    if slots == [] then []
    else
      var n := |slots| - 1;
      SlotSends(req, slots[..n]) + OneSlotSends(req, slots[n])
  }

  /** Where slot i, list entry j lands in the sends: after every usable entry before it. */
  function Rank(slots: seq<Known>, i: nat, j: nat): nat
    requires i < |slots| && slots[i].Iface? && j <= |slots[i].iface|
  {
    SlotCount(slots[..i]) + AddrCount(slots[i].iface[..j])
  }

  function SlotCount(slots: seq<Known>): nat {
    if slots == [] then 0
    else
      var s := slots[|slots| - 1];
      SlotCount(slots[..|slots| - 1]) + if s.Iface? then AddrCount(s.iface) else 0
  }

  lemma {:induction false} SlotSendsLength(req: Send, slots: seq<Known>)
    ensures |SlotSends(req, slots)| == SlotCount(slots)
  {
    if slots != [] {
      var last := slots[|slots| - 1];
      SlotSendsLength(req, slots[..|slots| - 1]);
      if last.Iface? {
        AddrSendsLength(req, last.iface);
      }
    }
  }

  /** One send per usable broadcast address of each published interface, in slot order and then in
      list order; and as there are just as many sends, no other. */
  lemma {:induction false} BroadcastSendAt(req: Send, slots: seq<Known>, i: nat, j: nat)
    requires i < |slots| && slots[i].Iface? && j < |slots[i].iface| && Usable(slots[i].iface[j])
    ensures |SlotSends(req, slots)| == SlotCount(slots) && Rank(slots, i, j) < SlotCount(slots)
    ensures IsCopy(SlotSends(req, slots)[Rank(slots, i, j)], req, slots[i].iface[j].addr)
  {
    var n := |slots| - 1;
    SlotSendsLength(req, slots);
    if i < n {
      assert slots[..n][..i] == slots[..i];
      BroadcastSendAt(req, slots[..n], i, j);
      assert SlotSends(req, slots[..n]) <= SlotSends(req, slots);
    } else {
      LastSlotSendAt(req, slots, j);
    }
  }

  lemma LastSlotSendAt(req: Send, slots: seq<Known>, j: nat)
    requires slots != [] && slots[|slots| - 1].Iface?
    requires j < |slots[|slots| - 1].iface| && Usable(slots[|slots| - 1].iface[j])
    ensures Rank(slots, |slots| - 1, j) < |SlotSends(req, slots)|
    ensures IsCopy(SlotSends(req, slots)[Rank(slots, |slots| - 1, j)], req, slots[|slots| - 1].iface[j].addr)
  {
    var n := |slots| - 1;
    SlotSendsLength(req, slots[..n]);
    AddrSendAt(req, slots[n].iface, j);
    assert SlotSends(req, slots) == SlotSends(req, slots[..n]) + AddrSends(req, slots[n].iface);
  }

  /** The address lists in the slots; a slot without an interface has none. */
  function ListsOf(slots: seq<Known>): seq<seq<BroadAddr>> {
    seq(|slots|, i requires 0 <= i < |slots| => if slots[i].Iface? then slots[i].iface else [])
  }

  /** The sends of a broadcast are the copies for all the lists in the slots. */
  lemma {:induction false} SlotSendsAre(req: Send, slots: seq<Known>) returns (spots: seq<Spot>)
    ensures CopiesAre(SlotSends(req, slots), req, ListsOf(slots), spots)
  {
    if slots == [] {
      spots := [];
    } else {
      var n := |slots| - 1;
      var list := ListsOf(slots)[n];
      spots := SlotSendsAre(req, slots[..n]);
      spots := OneListMore(SlotSends(req, slots[..n]), req, ListsOf(slots[..n]), list, spots);
      assert ListsOf(slots[..n]) + [list] == ListsOf(slots);
      assert OneSlotSends(req, slots[n]) == AddrSends(req, list);
    }
  }

  class UdpHook {
    const ifaces: array<Known>
    const left: nat -> Settled // what whoever holds slot i puts back into it
    const answers: nat -> int  // what the k-th call of the original pru_send returns
    var sent: seq<Send>        // the calls of the original pru_send so far

    constructor (n: nat, left: nat -> Settled, answers: nat -> int)
      ensures ifaces.Length == n && ifaces[..] == seq(n, _ => Empty) && sent == [] && fresh(ifaces)
    {
      ifaces := new Known[n](_ => Empty);
      this.left, this.answers := left, answers;
      sent := [];
    }

    /** Slot i once everybody else has let go of it. */
    function FreedSlot(i: nat, slot: Known): Settled {
      if slot == Acquired then left(i) else slot
    }

    function Freed(slots: seq<Known>): (r: seq<Known>)
      ensures |r| == |slots| && Acquired !in r
      ensures Acquired !in slots ==> r == slots
    {
      seq(|slots|, i requires 0 <= i < |slots| => FreedSlot(i, slots[i]))
    }

    method OldUdpSend(req: Send) returns (rv: int)
      modifies this`sent
      ensures sent == old(sent) + [req] && rv == answers(|old(sent)|)
    {
      rv := answers(|sent|);
      sent := sent + [req];
    }

    /** The spin loop: a slot that somebody holds is tried again once its holder has let go. */
    method AcquireIface(i: nat) returns (r: Known)
      requires i < ifaces.Length
      modifies ifaces
      ensures r == FreedSlot(i, old(ifaces[i]))
      ensures ifaces[..] == old(ifaces[..])[i := if r.Iface? then Acquired else r]
    {
      while true
        invariant ifaces[..] == old(ifaces[..]) || ifaces[..] == old(ifaces[..])[i := left(i)]
        invariant ifaces[i] == old(ifaces[i]) || old(ifaces[i]) == Acquired
        decreases ifaces[i] == Acquired
      {
        r := ifaces[i];
        if r == Empty {
          return;
        }
        if r != Acquired && ifaces[i] == r {
          ifaces[i] := Acquired;
          return;
        }
        HolderLetsGo(i);
      }
    }

    /** Not a step of this caller: whoever holds slot i releases it, or closes. */
    method HolderLetsGo(i: nat)
      requires i < ifaces.Length && ifaces[i] == Acquired
      modifies ifaces
      ensures ifaces[..] == old(ifaces[..])[i := left(i)]
    {
      ifaces[i] := left(i);
    }

    method ReleaseIface(i: nat, iface: Known)
      requires i < ifaces.Length
      modifies ifaces
      ensures ifaces[..] == old(ifaces[..])[i := iface]
    {
      ifaces[i] := iface;
    }

    /** The walk over the addresses of a held interface. */
    method SendToAddrs(req: Send, addrs: seq<BroadAddr>)
      modifies this`sent
      ensures sent == old(sent) + AddrSends(req, addrs)
    {
      for j := 0 to |addrs|
        invariant sent == old(sent) + AddrSends(req, addrs[..j])
      {
        assert addrs[..j + 1][..j] == addrs[..j];
        if Usable(addrs[j]) {
          var _ := OldUdpSend(Readdressed(req, addrs[j].addr));
        }
      }
      assert addrs[..|addrs|] == addrs;
    }

    /** One slot of a broadcast. */
    method VisitSlot(req: Send, i: nat)
      requires i < ifaces.Length
      modifies this`sent, ifaces
      ensures ifaces[..] == old(ifaces[..])[i := FreedSlot(i, old(ifaces[i]))]
      ensures sent == old(sent) + OneSlotSends(req, FreedSlot(i, old(ifaces[i])))
    {
      var iface := AcquireIface(i);
      if iface.Iface? {
        SendToAddrs(req, iface.iface);
        ReleaseIface(i, iface);
      }
    }

    /** The first i slots let go, the others as they were. */
    function FreedTo(slots: seq<Known>, i: nat): (r: seq<Known>)
      requires i <= |slots|
      ensures |r| == |slots| && (i == 0 ==> r == slots) && (i == |slots| ==> r == Freed(slots))
    {
      Freed(slots)[..i] + slots[i..]
    }

    lemma FreedNext(slots: seq<Known>, i: nat)
      requires i < |slots|
      ensures FreedTo(slots, i + 1) == FreedTo(slots, i)[i := FreedSlot(i, slots[i])]
      ensures FreedTo(slots, i)[i] == slots[i]
    {
    }

    lemma SendsNext(req: Send, slots: seq<Known>, i: nat)
      requires i < |slots|
      ensures SlotSends(req, Freed(slots)[..i + 1])
              == SlotSends(req, Freed(slots)[..i]) + OneSlotSends(req, FreedSlot(i, slots[i]))
    {
      assert Freed(slots)[..i + 1][..i] == Freed(slots)[..i];
    }

    /** What a broadcast has sent once it is through with the first i slots. */
    function SentTo(before: seq<Send>, req: Send, slots: seq<Known>, i: nat): seq<Send>
      requires i <= |slots|
    {
      before + SlotSends(req, Freed(slots)[..i])
    }

    lemma SentNext(before: seq<Send>, req: Send, slots: seq<Known>, i: nat)
      requires i < |slots|
      ensures SentTo(before, req, slots, i + 1)
              == SentTo(before, req, slots, i) + OneSlotSends(req, FreedSlot(i, slots[i]))
    {
      SendsNext(req, slots, i);
    }

    method CopyToSlots(req: Send)
      modifies this`sent, ifaces
      ensures ifaces[..] == Freed(old(ifaces[..])) && sent == old(sent) + SlotSends(req, Freed(old(ifaces[..])))
    {
      ghost var slots, before := ifaces[..], sent;
      for i := 0 to ifaces.Length
        invariant ifaces[..] == FreedTo(slots, i) && sent == SentTo(before, req, slots, i)
      {
        FreedNext(slots, i);
        SentNext(before, req, slots, i);
        VisitSlot(req, i);
      }
      assert Freed(slots)[..|slots|] == Freed(slots);
    }

    method NewUdpSend(req: Send) returns (rv: int, ghost spots: seq<Spot>)
      modifies this`sent, ifaces
      ensures ifaces[..] == if IsLimitedBroadcast(req) then Freed(old(ifaces[..])) else old(ifaces[..])
      ensures Acquired !in old(ifaces[..]) ==> ifaces[..] == old(ifaces[..])
      ensures sent == old(sent) + (if IsLimitedBroadcast(req) then SlotSends(req, ifaces[..]) else []) + [req]
      ensures rv == answers(|sent| - 1)
      ensures |sent| == |old(sent)| + |spots| + 1 && sent[..|old(sent)|] == old(sent) && sent[|sent| - 1] == req
      ensures if req.to.SockAddr? && req.to.family == 2 && req.to.addr == 0xffff_ffff
              then CopiesAre(sent[|old(sent)|..|sent| - 1], req, ListsOf(ifaces[..]), spots)
              else spots == []
    {
      spots := [];
      if IsLimitedBroadcast(req) {
        CopyToSlots(req);
        spots := SlotSendsAre(req, ifaces[..]);
        assert sent[|old(sent)|..] == SlotSends(req, ifaces[..]);
      }
      rv := OldUdpSend(req);
    }
  }
}
