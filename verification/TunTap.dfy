/** The tap emulator as the code runs it: buffers overwritten in place, one slot for a reply. */
module TunTap {
  import opened Bytes
  import opened Options
  import opened Frames
  import opened ArpCache

  /** buf[at..at+4] as a casted store leaves it. */
  method Store32(buf: array<Byte>, at: nat, x: U32)
    requires at + 4 <= buf.Length
    modifies buf
    ensures buf[at..at + 4] == Le32(x)
    ensures forall k :: 0 <= k < at || at + 4 <= k < buf.Length ==> buf[k] == old(buf[k])
  {
    var w := Le32(x);
    buf[at], buf[at + 1], buf[at + 2], buf[at + 3] := w[0], w[1], w[2], w[3];
  }

  method EthernetHeader(pkt: array<Byte>, dst: Mac, src: Mac, kind: U16)
    requires pkt.Length >= 14
    modifies pkt
    ensures pkt[..] == Header(dst, src, kind) + old(pkt[14..])
  {
    for i := 0 to 6
      invariant forall k :: 0 <= k < i ==> pkt[k] == dst[k] && pkt[k + 6] == src[k]
      invariant forall k :: 12 <= k < pkt.Length ==> pkt[k] == old(pkt[k])
    {
      pkt[i] := dst[i];
      pkt[i + 6] := src[i];
    }
    pkt[12] := kind / 0x100;
    pkt[13] := kind % 0x100;
  }

  method ArpMacs(pkt: array<Byte>, srcMac: Mac, dstMac: Mac)
    requires pkt.Length >= 42
    modifies pkt
    ensures pkt[22..28] == srcMac && pkt[32..38] == dstMac
    ensures forall k :: 0 <= k < 22 || 28 <= k < 32 || 38 <= k < pkt.Length ==> pkt[k] == old(pkt[k])
  {
    for i := 0 to 6
      invariant forall k :: 0 <= k < i ==> pkt[22 + k] == srcMac[k] && pkt[32 + k] == dstMac[k]
      invariant forall k :: 0 <= k < 22 || 28 <= k < 32 || 38 <= k < pkt.Length ==> pkt[k] == old(pkt[k])
    {
      pkt[22 + i] := srcMac[i];
      pkt[32 + i] := dstMac[i];
    }
  }

  /** Fills in an ARP packet behind the Ethernet header. */
  method ArpRequest(pkt: array<Byte>, q7: Byte, srcMac: Mac, dstMac: Mac, src: U32, dst: U32)
    requires pkt.Length >= 42
    modifies pkt
    ensures pkt[14..42] == ArpPacket(q7, srcMac, dstMac, src, dst)
    ensures forall k :: 0 <= k < 14 || 42 <= k < pkt.Length ==> pkt[k] == old(pkt[k])
  {
    pkt[14], pkt[15], pkt[16], pkt[17], pkt[18], pkt[19], pkt[20], pkt[21] := 0, 1, 8, 0, 6, 4, 0, q7;
    assert pkt[14..22] == [0, 1, 8, 0, 6, 4, 0, q7];
    ArpMacs(pkt, srcMac, dstMac);
    assert pkt[14..22] == [0, 1, 8, 0, 6, 4, 0, q7];
    Store32(pkt, 28, src);
    assert pkt[14..22] == [0, 1, 8, 0, 6, 4, 0, q7] && pkt[22..28] == srcMac && pkt[32..38] == dstMac;
    Store32(pkt, 38, dst);
    assert pkt[14..22] == [0, 1, 8, 0, 6, 4, 0, q7] && pkt[22..28] == srcMac && pkt[32..38] == dstMac;
    assert pkt[28..32] == Le32(src);
    Pieces(pkt[..], 14, 22, 28, 32, 38, 42);
  }

  lemma Pieces(s: seq<Byte>, a: nat, b: nat, c: nat, d: nat, e: nat, f: nat)
    requires a <= b <= c <= d <= e <= f <= |s|
    ensures s[a..f] == s[a..b] + s[b..c] + s[c..d] + s[d..e] + s[e..f]
  {
    assert s[a..c] == s[a..b] + s[b..c];
    assert s[a..d] == s[a..c] + s[c..d];
    assert s[a..e] == s[a..d] + s[d..e];
    assert s[a..f] == s[a..e] + s[e..f];
  }

  class TunTap {
    const macaddr: array<Byte>
    var ipaddr: U32
    var brdaddr: U32
    const fakepkt: array<Byte>
    var fakepktSz: nat
    const cache: Cache

    ghost function Repr(): set<object>
      reads this, cache
    {
      {this, macaddr, fakepkt, cache, cache.data} + cache.entries
    }

    ghost predicate Valid()
      reads Repr()
    {
      && macaddr.Length == 6 && fakepkt.Length == 65536 && macaddr != fakepkt
      && (fakepktSz == 0 || fakepktSz == 42)
      && cache.Valid()
    }

    /** The node this state stands for. */
    ghost function State(): Node
      requires Valid()
      reads Repr()
    {
      Node(macaddr[..], ipaddr, brdaddr, cache.Contents(), fakepkt[..fakepktSz])
    }

    constructor ()
      ensures Valid() && State() == START && fresh(Repr())
    {
      macaddr := new Byte[6](_ => 0);
      fakepkt := new Byte[65536](_ => 0);
      ipaddr, brdaddr, fakepktSz := 0, 0, 0;
      cache := new Cache();
    }

    method SetHwaddr(m: Mac)
      requires Valid()
      modifies macaddr
      ensures Valid() && State() == Apply(old(State()), Event.SetHwaddr(m)) == old(State()).(mac := m)
    {
      for i := 0 to 6
        invariant macaddr[..i] == m[..i]
      {
        macaddr[i] := m[i];
      }
    }

    method SetIpaddr(i: U32)
      requires Valid()
      modifies this
      ensures Valid() && State() == Apply(old(State()), Event.SetIpaddr(i)) == old(State()).(ip := i)
      ensures fakepktSz == old(fakepktSz)
    {
      ipaddr := i;
    }

    method SetBrdaddr(b: U32)
      requires Valid()
      modifies this
      ensures Valid() && State() == Apply(old(State()), Event.SetBrdaddr(b)) == old(State()).(brd := b)
      ensures fakepktSz == old(fakepktSz)
    {
      brdaddr := b;
    }

    method HasFakePkt() returns (sz: nat)
      requires Valid()
      ensures sz == |State().fake|
    {
      sz := fakepktSz;
    }

    method GetMacForIpMbbr(addr: U32, mac: array<Byte>) returns (found: bool)
      requires Valid() && mac.Length == 6 && mac != macaddr && mac != fakepkt
      modifies mac
      ensures Valid() && State() == old(State())
      ensures found <==> old(State()).MacFor(addr).Some?
      ensures found ==> mac[..] == old(State()).MacFor(addr).value
    {
      if addr == brdaddr {
        for i := 0 to 6
          invariant mac[..i] == BROADCAST[..i]
        {
          mac[i] := 0xff;
        }
        return true;
      }
      found := cache.GetMac(addr, mac);
    }

    /** read() on the tun device. */
    method ReadFd(incoming: Incoming, buf: array<Byte>, cnt: nat) returns (ans: int)
      requires Fits(incoming, cnt) && cnt <= buf.Length
      modifies buf
      ensures incoming.Failed? ==> ans == incoming.code
      ensures incoming.Packet? ==> ans == |incoming.bytes| && buf[..ans] == incoming.bytes
    {
      match incoming
      case Failed(code) => ans := code;
      case Packet(p) =>
        ans := |p|;
        for i := 0 to |p|
          invariant forall k :: 0 <= k < i ==> buf[k] == p[k]
        {
          buf[i] := p[i];
        }
    }

    /** Moves the first n bytes of buf up by 14, from the last one down. */
    method ShiftUp(buf: array<Byte>, n: nat)
      requires n + 14 <= buf.Length
      modifies buf
      ensures buf[14..14 + n] == old(buf[..n])
    {
      var i := n;
      while i > 0
        invariant 0 <= i <= n
        invariant forall k :: 0 <= k < i ==> buf[k] == old(buf[k])
        invariant forall k :: i <= k < n ==> buf[k + 14] == old(buf[k])
      {
        i := i - 1;
        buf[i + 14] := buf[i];
      }
    }

    method Encapsulate(buf: array<Byte>, n: nat, dstMac: Mac)
      requires n + 14 <= buf.Length && macaddr.Length == 6 && buf != macaddr
      modifies buf
      ensures buf[..n + 14] == Header(dstMac, macaddr[..], IP) + old(buf[..n])
    {
      ShiftUp(buf, n);
      label shifted:
      EthernetHeader(buf, dstMac, macaddr[..], IP);
      assert old@shifted(buf[14..])[..n] == old(buf[..n]);
    }

    method AskFor(buf: array<Byte>, src: U32, dst: U32)
      requires 42 <= buf.Length && macaddr.Length == 6 && buf != macaddr
      modifies buf
      ensures buf[..42] == Header(BROADCAST, macaddr[..], ARP) + ArpPacket(REQUEST, macaddr[..], UNKNOWN, src, dst)
    {
      EthernetHeader(buf, BROADCAST, macaddr[..], ARP);
      assert buf[..14] == Header(BROADCAST, macaddr[..], ARP);
      ArpRequest(buf, REQUEST, macaddr[..], UNKNOWN, src, dst);
      assert buf[..14] == Header(BROADCAST, macaddr[..], ARP);
      assert buf[..42] == buf[..14] + buf[14..42];
    }

    method Drain(buf: array<Byte>, cnt: nat) returns (sz: nat)
      requires Valid() && fakepktSz != 0 && cnt <= buf.Length && buf != macaddr && buf != fakepkt
      modifies `fakepktSz, buf
      ensures Valid() && State() == old(State()).(fake := [])
      ensures sz == (if old(fakepktSz) > cnt then cnt else old(fakepktSz)) && buf[..sz] == old(State()).fake[..sz]
    {
      sz := fakepktSz;
      if sz > cnt {
        sz := cnt;
      }
      for i := 0 to sz
        invariant buf[..i] == fakepkt[..i]
        invariant fakepkt[..] == old(fakepkt[..]) && macaddr[..] == old(macaddr[..])
      {
        buf[i] := fakepkt[i];
      }
      fakepktSz := 0;
    }

    /** What tuntap_read does with the packet it read into buf. */
    method Forward(buf: array<Byte>, n: nat, cnt: nat, ghost p: seq<Byte>) returns (ans: int)
      requires Valid() && fakepktSz == 0 && 0 < n <= cnt <= buf.Length && buf != macaddr && buf != fakepkt
      requires buf[..n] == p
      modifies buf
      ensures Valid() && State() == old(State())
      ensures var r := Frames.Read(old(State()), Packet(p), cnt);
              ans == r.ans && (ans >= 0 ==> ans <= cnt && buf[..ans] == r.out)
    {
      if n < 20 {
        return -1;
      }
      var src := Load32(buf[..n], 12);
      var dst := Load32(buf[..n], 16);
      var dstMac := new Byte[6];
      var known := GetMacForIpMbbr(dst, dstMac);
      if !known {
        if cnt < 42 {
          return -1;
        }
        AskFor(buf, src, dst);
        return 42;
      }
      if n + 14 > cnt {
        return -1;
      }
      Encapsulate(buf, n, dstMac[..]);
      return n + 14;
    }

    /** errno is EAGAIN exactly when a packet was read and skipped. */
    method Read(incoming: Incoming, buf: array<Byte>, cnt: nat) returns (ans: int, errno: int)
      requires Valid() && Fits(incoming, cnt) && cnt <= buf.Length && buf != macaddr && buf != fakepkt
      modifies `fakepktSz, buf
      ensures Valid() && State() == Frames.Read(old(State()), incoming, cnt).node
      ensures ans == Frames.Read(old(State()), incoming, cnt).ans
      ensures ans >= 0 ==> ans <= cnt && buf[..ans] == Frames.Read(old(State()), incoming, cnt).out
      ensures errno == if old(State()).fake == [] && incoming.Packet? && ans == -1 then 11 else 0
    {
      errno := 0;
      if fakepktSz != 0 {
        ans := Drain(buf, cnt);
        return;
      }
      ans := ReadFd(incoming, buf, cnt);
      if ans <= 0 {
        return;
      }
      ans := Forward(buf, ans, cnt, incoming.bytes);
      if ans == -1 {
        errno := EAGAIN;
      }
    }

    // ---- Writing ----

    method Addressed(buf: array<Byte>) returns (targeted: bool, broadcast: bool)
      requires buf.Length >= 14 && macaddr.Length == 6
      ensures targeted <==> buf[..6] == macaddr[..]
      ensures broadcast <==> buf[..6] == BROADCAST
    {
      targeted, broadcast := true, true;
      for i := 0 to 6
        invariant targeted <==> forall k :: 0 <= k < i ==> buf[k] == macaddr[k]
        invariant broadcast <==> forall k :: 0 <= k < i ==> buf[k] == 0xff
      {
        if buf[i] != macaddr[i] {
          targeted := false;
        }
        if buf[i] != 0xff {
          broadcast := false;
        }
      }
      assert targeted ==> buf[..6] == macaddr[..];
      assert forall k :: 0 <= k < 6 ==> buf[k] == buf[..6][k] && BROADCAST[k] == 0xff;
      assert broadcast ==> buf[..6] == BROADCAST;
    }

    method Reply(frame: seq<Byte>)
      requires Valid() && |frame| >= 42
      modifies `fakepktSz, fakepkt
      ensures Valid() && State() == old(State()).(fake := ReplyTo(old(State()).mac, old(State()).ip, frame))
    {
      EthernetHeader(fakepkt, frame[6..12], macaddr[..], ARP);
      assert fakepkt[..14] == Header(frame[6..12], macaddr[..], ARP);
      ArpRequest(fakepkt, REPLY, macaddr[..], frame[6..12], ipaddr, Load32(frame, 28));
      assert fakepkt[..14] == Header(frame[6..12], macaddr[..], ARP);
      assert fakepkt[..42] == fakepkt[..14] + fakepkt[14..42];
      fakepktSz := 42;
    }

    /** What tuntap_write does with an ARP frame for this node. */
    method LearnArp(frame: seq<Byte>)
      requires Valid() && AcceptsArp(State().mac, frame)
      modifies `fakepktSz, fakepkt, cache, cache.data, cache.entries
      ensures Valid() && State() == Frames.Write(old(State()), frame, 0).node
      ensures fresh(Repr() - old(Repr()))
    {
      cache.SetMac(SenderIp(frame), SenderMac(frame));
      if frame[21] == 1 && Load32(frame, 38) == ipaddr {
        Reply(frame);
      }
    }

    /** tun is what was written to the tun device, whose write() returns w. */
    method Write(buf: array<Byte>, w: int) returns (ans: int, tun: Option<seq<Byte>>)
      requires Valid() && buf != macaddr && buf != fakepkt
      modifies `fakepktSz, fakepkt, cache, cache.data, cache.entries
      ensures Valid() && State() == Frames.Write(old(State()), buf[..], w).node
      ensures ans == Frames.Write(old(State()), buf[..], w).ans && tun == Frames.Write(old(State()), buf[..], w).tun
      ensures buf[..] == old(buf[..]) && fresh(Repr() - old(Repr()))
    {
      ans, tun := buf.Length, None;
      if buf.Length < 14 {
        return;
      }
      var targeted, broadcast := Addressed(buf);
      if !targeted && !broadcast {
        return;
      }
      var protocol := buf[12] as int * 0x100 + buf[13] as int;
      if protocol == 0x0800 {
        tun := Some(buf[14..]);
        ans := if w < 0 then w else w + 14;
      } else if protocol == 0x0806 {
        if buf.Length < 42 || !IsArp(buf[14..]) {
          return;
        }
        assert buf[..][14..] == buf[14..];
        LearnArp(buf[..]);
      }
    }
  }

  method Copy(buf: array<Byte>, n: nat) returns (frame: array<Byte>)
    requires n <= buf.Length
    ensures fresh(frame) && frame[..] == buf[..n]
  {
    frame := new Byte[n];
    for i := 0 to n
      invariant frame[..i] == buf[..i] && buf[..] == old(buf[..])
    {
      frame[i] := buf[i];
    }
  }

  /** A device none of whose parts changed is as it was. */
  twostate lemma Framed(a: TunTap)
    requires old(a.Valid()) && forall o :: o in old(a.Repr()) ==> unchanged(o)
    ensures a.Valid() && a.State() == old(a.State()) && a.Repr() == old(a.Repr())
  {
  }

  /** One device's read, as a buffer of its own. */
  method Emit(a: TunTap, incoming: Incoming, cnt: nat) returns (frame: array<Byte>)
    requires a.Valid() && Fits(incoming, cnt) && Frames.Read(a.State(), incoming, cnt).ans >= 0
    modifies a`fakepktSz
    ensures a.Valid() && a.State() == Frames.Read(old(a.State()), incoming, cnt).node && a.Repr() == old(a.Repr())
    ensures fresh(frame) && frame[..] == Frames.Read(old(a.State()), incoming, cnt).out
  {
    var buf := new Byte[cnt];
    var ans, _ := a.Read(incoming, buf, cnt);
    frame := Copy(buf, ans);
  }

  /** The same, beside another device. */
  method EmitBeside(a: TunTap, ghost b: TunTap, incoming: Incoming, cnt: nat) returns (frame: array<Byte>)
    requires a.Valid() && b.Valid() && a !in b.Repr()
    requires Fits(incoming, cnt) && Frames.Read(a.State(), incoming, cnt).ans >= 0
    modifies a`fakepktSz
    ensures a.Valid() && a.State() == Frames.Read(old(a.State()), incoming, cnt).node && a.Repr() == old(a.Repr())
    ensures b.Valid() && b.State() == old(b.State()) && b.Repr() == old(b.Repr())
    ensures fresh(frame) && frame !in b.Repr() && frame[..] == Frames.Read(old(a.State()), incoming, cnt).out
  {
    frame := Emit(a, incoming, cnt);
    Framed(b);
  }

  /** The other's write; a is not on b's side of the wire. */
  method Receive(b: TunTap, frame: array<Byte>, w: int, ghost a: TunTap) returns (tun: Option<seq<Byte>>)
    requires a.Valid() && b.Valid() && a.Repr() !! b.Repr() && frame !in b.Repr()
    modifies b.Repr()
    ensures a.Valid() && a.State() == old(a.State()) && a.Repr() == old(a.Repr()) && a.Repr() !! b.Repr()
    ensures b.Valid() && b.State() == Frames.Write(old(b.State()), frame[..], w).node && fresh(b.Repr() - old(b.Repr()))
    ensures tun == Frames.Write(old(b.State()), frame[..], w).tun
    ensures frame[..] == old(frame[..])
  {
    label before:
    var ans;
    ans, tun := b.Write(frame, w);
    Framed@before(a);
  }

  /** One device's read carried to the other's write. */
  method Pass(a: TunTap, b: TunTap, incoming: Incoming, cnt: nat, w: int) returns (tun: Option<seq<Byte>>)
    requires a.Valid() && b.Valid() && a.Repr() !! b.Repr() && Fits(incoming, cnt)
    requires Frames.Read(a.State(), incoming, cnt).ans >= 0
    modifies a.Repr(), b.Repr()
    ensures a.Valid() && b.Valid() && a.Repr() !! b.Repr()
    ensures fresh(a.Repr() - old(a.Repr())) && fresh(b.Repr() - old(b.Repr()))
    ensures var r := Frames.Read(old(a.State()), incoming, cnt);
            a.State() == r.node && b.State() == Frames.Write(old(b.State()), r.out, w).node
            && tun == Frames.Write(old(b.State()), r.out, w).tun
  {
    var frame := EmitBeside(a, b, incoming, cnt);
    tun := Receive(b, frame, w, a);
  }

  /** The same, for what it leaves of the two. */
  method CarryOver(a: TunTap, b: TunTap, incoming: Incoming, cnt: nat, w: int, ghost na: Node, ghost nb: Node)
    requires a.Valid() && b.Valid() && a.Repr() !! b.Repr()
    requires Carries(a.State(), b.State(), incoming, cnt, w, na, nb)
    modifies a.Repr(), b.Repr()
    ensures a.Valid() && b.Valid() && a.Repr() !! b.Repr()
    ensures fresh(a.Repr() - old(a.Repr())) && fresh(b.Repr() - old(b.Repr()))
    ensures a.State() == na && b.State() == nb
  {
    var _ := Pass(a, b, incoming, cnt, w);
  }

  /** Two emulated devices on one wire: a first packet to an address nobody has taught a is lost to the
      ARP request, and after the reply the same packet reaches b's tun device byte for byte. Each knows
      the other's MAC then, and nothing else has changed. */
  method Introduce(a: TunTap, b: TunTap, p: seq<Byte>, cnt: nat, w: int) returns (tun: Option<seq<Byte>>)
    requires a.Valid() && b.Valid() && a.Repr() !! b.Repr()
    requires 20 <= |p| && |p| + 14 <= cnt && 42 <= cnt
    requires a.State().fake == [] && a.State().MacFor(b.State().ip) == None && Load32(p, 16) == b.State().ip
    modifies a.Repr(), b.Repr()
    ensures a.Valid() && b.Valid() && tun == Some(p)
    ensures Introduced(old(a.State()), old(b.State()), Load32(p, 12), a.State(), b.State())
  {
    ghost var na, nb := a.State(), b.State();
    ghost var na', nb' := Knowing(na, nb.ip, nb.mac), Knowing(nb.(fake := []), Load32(p, 12), na.mac);
    ghost var heard := ExchangeCarries(na, nb, p, cnt, w);
    CarryOver(a, b, Packet(p), cnt, w, na, heard);
    CarryOver(b, a, Failed(0), cnt, w, nb', na');
    DeliveredIff(na', nb', p, cnt, w);
    tun := Pass(a, b, Packet(p), cnt, w);
  }
}
