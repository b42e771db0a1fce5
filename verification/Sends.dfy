/**
 What a send to a tun interface is made of: the request, the entries of an interface's address list,
 and the copies of the request that one list calls for.
 */
module Sends {

  const AF_INET: int := 2
  const INADDR_BROADCAST: int := 0xffff_ffff

  /** What ifaces[i] reads: 0, the mark of whoever acquired it, or an interface. */
  datatype Slot<T> = Empty | Acquired | Iface(iface: T)

  /** One entry of an interface's address list; `broad` is what ifa_broadaddr points at. */
  datatype BroadAddr = Missing | Present(family: int, addr: int)

  datatype SockAddr = NoAddress | SockAddr(family: int, port: int, addr: int)

  /** The arguments of one pru_send call; the mbuf chains by content. */
  datatype Send = Send(socket: int, flags: int, data: seq<int>, to: SockAddr, control: seq<int>, thread: int)

  predicate IsLimitedBroadcast(req: Send) {
    req.to.SockAddr? && req.to.family == AF_INET && req.to.addr == INADDR_BROADCAST
  }

  predicate Usable(a: BroadAddr) {
    a.Present? && a.family == AF_INET
  }

  /** The request readdressed: same socket, flags, payload, control data, port and thread. */
  function Readdressed(req: Send, addr: int): Send {
    match req.to
    case NoAddress => req
    case SockAddr(family, port, _) => req.(to := SockAddr(family, port, addr))
  }

  /** The copy that one entry calls for, if it is usable. */
  function EntrySends(req: Send, a: BroadAddr): seq<Send> {
    if Usable(a) then [Readdressed(req, a.addr)] else []
  }

  function AddrSends(req: Send, addrs: seq<BroadAddr>): seq<Send> {
    if addrs == [] then []
    else
      var n := |addrs| - 1;
      AddrSends(req, addrs[..n]) + EntrySends(req, addrs[n])
  }

  /** A copy goes to another address; its socket, flags, payload, port, control data and thread are those of
      the request. */
  predicate IsCopy(c: Send, req: Send, addr: int) {
    match req.to
    case NoAddress => c == req
    case SockAddr(family, port, _) =>
      c == Send(req.socket, req.flags, req.data, SockAddr(family, port, addr), req.control, req.thread)
  }

  function AddrCount(addrs: seq<BroadAddr>): nat {
    if addrs == [] then 0 else AddrCount(addrs[..|addrs| - 1]) + if Usable(addrs[|addrs| - 1]) then 1 else 0
  }

  lemma {:induction false} AddrSendsLength(req: Send, addrs: seq<BroadAddr>)
    ensures |AddrSends(req, addrs)| == AddrCount(addrs)
  {
    if addrs != [] {
      AddrSendsLength(req, addrs[..|addrs| - 1]);
    }
  }

  /** One copy per usable entry, in list order: that of entry j comes behind those of the usable entries
      before it. */
  lemma {:induction false} AddrSendAt(req: Send, addrs: seq<BroadAddr>, j: nat)
    requires j < |addrs| && Usable(addrs[j])
    ensures |AddrSends(req, addrs)| == AddrCount(addrs) && AddrCount(addrs[..j]) < AddrCount(addrs)
    ensures IsCopy(AddrSends(req, addrs)[AddrCount(addrs[..j])], req, addrs[j].addr)
  {
    var n := |addrs| - 1;
    AddrSendsLength(req, addrs);
    AddrSendsLength(req, addrs[..n]);
    if j < n {
      assert addrs[..n][..j] == addrs[..j];
      AddrSendAt(req, addrs[..n], j);
    }
  }

  // ---- The copies for several lists, one after the other ----

  /** An entry of one of several lists. */
  datatype Spot = Spot(list: nat, entry: nat)

  predicate Precedes(p: Spot, q: Spot) {
    p.list < q.list || (p.list == q.list && p.entry < q.entry)
  }

  /** The entry is there and has an AF_INET broadcast address. */
  predicate HasAddress(lists: seq<seq<BroadAddr>>, p: Spot) {
    p.list < |lists| && p.entry < |lists[p.list]| && lists[p.list][p.entry].Present?
    && lists[p.list][p.entry].family == 2
  }

  /** The copies are one for each entry with an address, in list order and then in entry order, and no
      other: copy k is that of spot k. */
  ghost predicate CopiesAre(copies: seq<Send>, req: Send, lists: seq<seq<BroadAddr>>, spots: seq<Spot>) {
    && |copies| == |spots|
    && (forall k, m :: 0 <= k < m < |spots| ==> Precedes(spots[k], spots[m]))
    && (forall k :: 0 <= k < |spots| ==> SpotCopied(copies[k], req, lists, spots[k]))
    && (forall p :: HasAddress(lists, p) ==> p in spots)
  }

  predicate SpotCopied(c: Send, req: Send, lists: seq<seq<BroadAddr>>, p: Spot) {
    HasAddress(lists, p) && IsCopy(c, req, lists[p.list][p.entry].addr)
  }

  lemma NoListMore(copies: seq<Send>, req: Send, lists: seq<seq<BroadAddr>>, spots: seq<Spot>)
    requires CopiesAre(copies, req, lists, spots)
    ensures CopiesAre(copies, req, lists + [[]], spots)
  {
    var more := lists + [[]];
    forall k | 0 <= k < |spots|
      ensures SpotCopied(copies[k], req, more, spots[k])
    {
      assert SpotCopied(copies[k], req, lists, spots[k]);
    }
    forall p | HasAddress(more, p)
      ensures p in spots
    {
      assert HasAddress(lists, p);
    }
  }

  /** One entry more in the last list. */
  lemma OneEntryMore(copies: seq<Send>, req: Send, lists: seq<seq<BroadAddr>>, list: seq<BroadAddr>, a: BroadAddr,
                     spots: seq<Spot>)
    returns (spots': seq<Spot>)
    requires CopiesAre(copies, req, lists + [list], spots)
    ensures CopiesAre(copies + EntrySends(req, a), req, lists + [list + [a]], spots')
  {
    var before, after := lists + [list], lists + [list + [a]];
    var copies' := copies + EntrySends(req, a);
    var last := Spot(|lists|, |list|);
    spots' := if Usable(a) then spots + [last] else spots;
    forall p
      ensures HasAddress(after, p) <==> HasAddress(before, p) || (p == last && Usable(a))
      ensures HasAddress(before, p) ==> Precedes(p, last) && after[p.list][p.entry] == before[p.list][p.entry]
    {
    }
    forall k | 0 <= k < |spots'|
      ensures SpotCopied(copies'[k], req, after, spots'[k])
    {
      if k < |spots| {
        assert SpotCopied(copies[k], req, before, spots[k]);
      }
    }
    forall k, m | 0 <= k < m < |spots'|
      ensures Precedes(spots'[k], spots'[m])
    {
      assert SpotCopied(copies[k], req, before, spots[k]);
    }
  }

  /** One list more. */
  lemma {:induction false} OneListMore(copies: seq<Send>, req: Send, lists: seq<seq<BroadAddr>>, list: seq<BroadAddr>,
                                       spots: seq<Spot>)
    returns (spots': seq<Spot>)
    requires CopiesAre(copies, req, lists, spots)
    ensures CopiesAre(copies + AddrSends(req, list), req, lists + [list], spots')
    decreases |list|
  {
    if list == [] {
      NoListMore(copies, req, lists, spots);
      assert copies + AddrSends(req, list) == copies;
      spots' := spots;
    } else {
      var n := |list| - 1;
      spots' := OneListMore(copies, req, lists, list[..n], spots);
      spots' := OneEntryMore(copies + AddrSends(req, list[..n]), req, lists, list[..n], list[n], spots');
      assert list[..n] + [list[n]] == list;
      assert copies + AddrSends(req, list) == copies + AddrSends(req, list[..n]) + EntrySends(req, list[n]);
    }
  }
}
