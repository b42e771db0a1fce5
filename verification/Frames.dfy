/**
 The Ethernet frames of RFC 894 and ARP packets of RFC 826 that the tap emulator exchanges, and
 what one read and one write of the emulated device do, as functions of the node's state.
 */
module Frames {
  import opened Bytes
  import opened Options

  const BROADCAST: Mac := [0xff, 0xff, 0xff, 0xff, 0xff, 0xff]
  const UNKNOWN: Mac := [0, 0, 0, 0, 0, 0]
  const IP: U16 := 0x0800
  const ARP: U16 := 0x0806
  const REQUEST: Byte := 1
  const REPLY: Byte := 2
  const EAGAIN := 11

  function Header(dst: Mac, src: Mac, kind: U16): seq<Byte> {
    dst + src + [kind / 0x100, kind % 0x100]
  }

  function ArpPacket(op: Byte, srcMac: Mac, dstMac: Mac, src: U32, dst: U32): seq<Byte> {
    [0, 1, 8, 0, 6, 4, 0, op] + srcMac + Le32(src) + dstMac + Le32(dst)
  }

  predicate IsArp(pkt: seq<Byte>)
    requires |pkt| >= 8
  {
    && pkt[0] == 0 && pkt[1] == 1 && pkt[2] == 8 && pkt[3] == 0
    && pkt[4] == 6 && pkt[5] == 4 && pkt[6] == 0 && (pkt[7] == REQUEST || pkt[7] == REPLY)
  }

  /** One host: its addresses, what it learned, and the reply it still owes, empty or a frame. */
  datatype Node = Node(mac: Mac, ip: U32, brd: U32, cache: map<U32, Mac>, fake: seq<Byte>)
  {
    function MacFor(addr: U32): Option<Mac> {
      if addr == brd then Some(BROADCAST)
      else if addr in cache then Some(cache[addr])
      else None
    }
  }

  /** What read() on the tun device gives: a result of 0 or less, or a packet. */
  datatype Incoming = Failed(code: int) | Packet(bytes: seq<Byte>)

  predicate Fits(incoming: Incoming, cnt: nat) {
    match incoming
    case Failed(code) => code <= 0
    case Packet(p) => 0 < |p| <= cnt
  }

  /** The node afterwards, what tuntap_read returns, and the bytes it hands out. */
  datatype Reading = Reading(node: Node, ans: int, out: seq<Byte>)

  function Read(n: Node, incoming: Incoming, cnt: nat): Reading
    requires Fits(incoming, cnt)
  {
    if n.fake != [] then
      var sz := if |n.fake| > cnt then cnt else |n.fake|;
      Reading(n.(fake := []), sz, n.fake[..sz])
    else match incoming
    case Failed(code) => Reading(n, code, [])
    case Packet(p) =>
      if |p| < 20 then Reading(n, -1, [])
      else match n.MacFor(Load32(p, 16))
      case None =>
        if cnt < 42 then Reading(n, -1, [])
        else
          var ask := ArpPacket(REQUEST, n.mac, UNKNOWN, Load32(p, 12), Load32(p, 16));
          Reading(n, 42, Header(BROADCAST, n.mac, ARP) + ask)
      case Some(mac) =>
        if |p| + 14 > cnt then Reading(n, -1, [])
        else Reading(n, |p| + 14, Header(mac, n.mac, IP) + p)
  }

  /** The node afterwards, what tuntap_write returns, and what it writes to the tun device. */
  datatype Writing = Writing(node: Node, ans: int, tun: Option<seq<Byte>>)

  predicate ForUs(mac: Mac, frame: seq<Byte>) {
    |frame| >= 14 && (frame[..6] == mac || frame[..6] == BROADCAST)
  }

  function Kind(frame: seq<Byte>): U16
    requires |frame| >= 14
  {
    frame[12] as int * 0x100 + frame[13] as int
  }

  predicate AcceptsArp(mac: Mac, frame: seq<Byte>) {
    ForUs(mac, frame) && Kind(frame) == ARP && |frame| >= 42 && IsArp(frame[14..])
  }

  function SenderIp(frame: seq<Byte>): U32
    requires |frame| >= 42
  {
    Load32(frame, 28)
  }

  function SenderMac(frame: seq<Byte>): Mac
    requires |frame| >= 42
  {
    frame[22..28]
  }

  predicate Asks(frame: seq<Byte>, ip: U32)
    requires |frame| >= 42
  {
    frame[21] == REQUEST && Load32(frame, 38) == ip
  }

  function ReplyTo(mac: Mac, ip: U32, frame: seq<Byte>): seq<Byte>
    requires |frame| >= 42
  {
    Header(frame[6..12], mac, ARP) + ArpPacket(REPLY, mac, frame[6..12], ip, SenderIp(frame))
  }

  /** w is what write() on the tun device would return. */
  function Write(n: Node, frame: seq<Byte>, w: int): Writing {
    if !ForUs(n.mac, frame) then Writing(n, |frame|, None)
    else if Kind(frame) == IP then Writing(n, if w < 0 then w else w + 14, Some(frame[14..]))
    else if AcceptsArp(n.mac, frame) then
      var learned := n.(cache := n.cache[SenderIp(frame) := SenderMac(frame)]);
      Writing(if Asks(frame, n.ip) then learned.(fake := ReplyTo(n.mac, n.ip, frame)) else learned, |frame|, None)
    else Writing(n, |frame|, None)
  }

  // ---- Frames take apart into what they were built from ----

  lemma HeaderParts(dst: Mac, src: Mac, kind: U16, payload: seq<Byte>)
    ensures var f := Header(dst, src, kind) + payload;
            && |f| == 14 + |payload| && f[..6] == dst && f[6..12] == src && Kind(f) == kind && f[14..] == payload
  {
  }

  lemma KindBytes(frame: seq<Byte>)
    requires 14 <= |frame|
    ensures (Kind(frame) == IP <==> frame[12..14] == [8, 0]) && (Kind(frame) == ARP <==> frame[12..14] == [8, 6])
  {
    assert frame[12..14] == [frame[12], frame[13]];
  }

  lemma ArpBytes(frame: seq<Byte>)
    requires 42 <= |frame|
    ensures IsArp(frame[14..]) <==> frame[14..21] == [0, 1, 8, 0, 6, 4, 0] && frame[21] in {1, 2}
  {
    var q := frame[14..];
    assert frame[14..21] == [q[0], q[1], q[2], q[3], q[4], q[5], q[6]];
  }

  /** The fields of a frame with an ARP packet, by their lengths. */
  lemma ArpFields(f: seq<Byte>, dst: Mac, src: Mac, op: Byte, srcMac: Mac, sip: seq<Byte>, dstMac: Mac, dip: seq<Byte>)
    requires |sip| == |dip| == 4
    requires f == dst + src + [8, 6] + [0, 1, 8, 0, 6, 4, 0, op] + srcMac + sip + dstMac + dip
    ensures |f| == 42 && f[..6] == dst && f[6..12] == src && f[12..14] == [8, 6]
    ensures f[14..22] == [0, 1, 8, 0, 6, 4, 0, op] && f[22..28] == srcMac && f[28..32] == sip
    ensures f[32..38] == dstMac && f[38..42] == dip
  {
    var k: seq<Byte>, h: seq<Byte> := [8, 6], [0, 1, 8, 0, 6, 4, 0, op];
    var ips := sip + (dstMac + dip);
    RightToLeft(dst + src + k + h + srcMac, sip, dstMac, dip);
    RightToLeft(dst + src + k, h, srcMac, ips);
    RightToLeft(dst, src, k, h + (srcMac + ips));
    assert f[0..] == dst + (src + (k + (h + (srcMac + ips))));
    Field(f, 0, dst, src + (k + (h + (srcMac + ips))));
    Field(f, 6, src, k + (h + (srcMac + ips)));
    Field(f, 12, k, h + (srcMac + ips));
    Field(f, 14, h, srcMac + ips);
    Field(f, 22, srcMac, ips);
    Field(f, 28, sip, dstMac + dip);
    Field(f, 32, dstMac, dip);
  }

  lemma ArpWhole(dst: Mac, src: Mac, op: Byte, srcMac: Mac, dstMac: Mac, sip: U32, dip: U32)
    ensures Header(dst, src, ARP) + ArpPacket(op, srcMac, dstMac, sip, dip)
            == dst + src + [8, 6] + [0, 1, 8, 0, 6, 4, 0, op] + srcMac + Le32(sip) + dstMac + Le32(dip)
  {
    assert Header(dst, src, ARP) == dst + src + [8, 6];
  }

  lemma ArpParts(dst: Mac, src: Mac, op: Byte, srcMac: Mac, dstMac: Mac, sip: U32, dip: U32)
    requires op == REQUEST || op == REPLY
    ensures var f := Header(dst, src, ARP) + ArpPacket(op, srcMac, dstMac, sip, dip);
            && f == dst + src + [8, 6] + [0, 1, 8, 0, 6, 4, 0, op] + srcMac + Le32(sip) + dstMac + Le32(dip)
            && |f| == 42 && f[..6] == dst && f[6..12] == src && Kind(f) == ARP && IsArp(f[14..]) && f[21] == op
            && SenderMac(f) == srcMac && SenderIp(f) == sip && f[32..38] == dstMac && Load32(f, 38) == dip
  {
    var f := Header(dst, src, ARP) + ArpPacket(op, srcMac, dstMac, sip, dip);
    ArpWhole(dst, src, op, srcMac, dstMac, sip, dip);
    ArpFields(f, dst, src, op, srcMac, Le32(sip), dstMac, Le32(dip));
    Load32At(f, 28, sip);
    Load32At(f, 38, dip);
    KindBytes(f);
    assert f[21] == f[14..22][7] && f[14..21] == f[14..22][..7];
    ArpBytes(f);
  }

  // ---- Two nodes ----

  /** The first packet to an unknown destination turns into a request; the exchange
      A.read, B.write, B.read, A.write teaches each node the other's MAC and leaves nothing owed. */
  lemma ArpExchange(a: Node, b: Node, p: seq<Byte>, cnt: nat, bIn: Incoming, w: int)
    requires a.fake == [] && 20 <= |p| <= cnt && 42 <= cnt && Fits(bIn, cnt)
    requires Load32(p, 16) == b.ip && a.MacFor(b.ip) == None
    ensures var asked := Read(a, Packet(p), cnt);
            var heard := Write(b, asked.out, w);
            var answered := Read(heard.node, bIn, cnt);
            var taught := Write(asked.node, answered.out, w);
            && asked.node == a && asked.ans == heard.ans == answered.ans == taught.ans == 42
            && heard.tun == None && taught.tun == None
            && asked.out[32..38] == [0, 0, 0, 0, 0, 0] && answered.out[32..38] == a.mac
            && answered.node == b.(cache := b.cache[Load32(p, 12) := a.mac], fake := [])
            && taught.node == a.(cache := a.cache[b.ip := b.mac])
  {
    var src := Load32(p, 12);
    var asked := Read(a, Packet(p), cnt);
    ArpParts(BROADCAST, a.mac, REQUEST, a.mac, UNKNOWN, src, b.ip);
    assert asked.out == Header(BROADCAST, a.mac, ARP) + ArpPacket(REQUEST, a.mac, UNKNOWN, src, b.ip);
    var heard := Write(b, asked.out, w);
    assert AcceptsArp(b.mac, asked.out);
    var reply := Header(a.mac, b.mac, ARP) + ArpPacket(REPLY, b.mac, a.mac, b.ip, src);
    assert heard.node.fake == reply;
    ArpParts(a.mac, b.mac, REPLY, b.mac, a.mac, b.ip, src);
    var answered := Read(heard.node, bIn, cnt);
    assert answered.out == reply[..42] == reply;
    assert AcceptsArp(a.mac, reply);
  }

  /** A read of x carried to a write of y leaves them as x' and y'. */
  ghost predicate Carries(x: Node, y: Node, incoming: Incoming, cnt: nat, w: int, x': Node, y': Node) {
    && Fits(incoming, cnt)
    && var r := Read(x, incoming, cnt);
    && r.ans >= 0 && x' == r.node && y' == Write(y, r.out, w).node
  }

  function Knowing(n: Node, ip: U32, mac: Mac): Node {
    n.(cache := n.cache[ip := mac])
  }

  /** Two nodes afterwards, where b was sent a packet from src: they know each other, and b owes nothing. */
  ghost predicate Introduced(a: Node, b: Node, src: U32, a': Node, b': Node) {
    a' == Knowing(a, b.ip, b.mac) && b' == Knowing(b.(fake := []), src, a.mac)
  }

  /** The exchange as two passages, there and back. */
  lemma ExchangeCarries(a: Node, b: Node, p: seq<Byte>, cnt: nat, w: int) returns (heard: Node)
    requires a.fake == [] && 20 <= |p| <= cnt && 42 <= cnt
    requires Load32(p, 16) == b.ip && a.MacFor(b.ip) == None
    ensures Carries(a, b, Packet(p), cnt, w, a, heard)
    ensures Carries(heard, a, Failed(0), cnt, w, Knowing(b.(fake := []), Load32(p, 12), a.mac), Knowing(a, b.ip, b.mac))
  {
    ArpExchange(a, b, p, cnt, Failed(0), w);
    heard := Write(b, Read(a, Packet(p), cnt).out, w).node;
  }

  /** With nothing owed and room for the frame, b's tun device gets the packet, byte for byte, exactly
      when a resolves the destination to b's MAC or to the broadcast one. */
  lemma DeliveredIff(a: Node, b: Node, p: seq<Byte>, cnt: nat, w: int)
    requires a.fake == [] && 20 <= |p| && |p| + 14 <= cnt
    ensures var sent := Read(a, Packet(p), cnt);
            var got := Write(b, sent.out, w);
            var mac := a.MacFor(Load32(p, 16));
            && sent.node == a
            && (got.tun == Some(p) <==> mac == Some(b.mac) || mac == Some(BROADCAST))
            && (got.tun == Some(p) ==> sent.ans == |p| + 14 && got.node == b)
  {
    var mac := a.MacFor(Load32(p, 16));
    if mac.Some? {
      HeaderParts(mac.value, a.mac, IP, p);
    } else if cnt >= 42 {
      ArpParts(BROADCAST, a.mac, REQUEST, a.mac, UNKNOWN, Load32(p, 12), Load32(p, 16));
    }
  }

  /** Both together: from an unknown destination to the packet on the other side, byte for byte, after
      which the two nodes know each other. */
  lemma TwoNodeDelivery(a: Node, b: Node, p: seq<Byte>, cnt: nat, bIn: Incoming, w: int)
    requires a.fake == [] && 20 <= |p| && |p| + 14 <= cnt && 42 <= cnt && Fits(bIn, cnt)
    requires Load32(p, 12) == a.ip && Load32(p, 16) == b.ip && a.MacFor(b.ip) == None
    ensures var asked := Read(a, Packet(p), cnt);
            var heard := Write(b, asked.out, w);
            var answered := Read(heard.node, bIn, cnt);
            var taught := Write(asked.node, answered.out, w);
            var sent := Read(taught.node, Packet(p), cnt);
            var got := Write(answered.node, sent.out, w);
            && taught.node.MacFor(b.ip) == Some(b.mac)
            && (a.ip != b.brd ==> answered.node.MacFor(a.ip) == Some(a.mac))
            && got.tun == Some(p) && got.node == answered.node
  {
    ArpExchange(a, b, p, cnt, bIn, w);
    var a', b' := a.(cache := a.cache[b.ip := b.mac]), b.(cache := b.cache[a.ip := a.mac], fake := []);
    DeliveredIff(a', b', p, cnt, w);
  }

  /** A node hands up a frame only if it is an IP frame for this node or for everybody, and then
      exactly its payload. */
  lemma HandsUpOnlyItsOwn(n: Node, frame: seq<Byte>, w: int)
    ensures Write(n, frame, w).tun.Some? <==>
              exists dst: Mac, src: Mac, p: seq<Byte> ::
                (dst == n.mac || dst == BROADCAST) && frame == Header(dst, src, IP) + p
    ensures Write(n, frame, w).tun.Some? ==> frame[14..] == Write(n, frame, w).tun.value
  {
    if Write(n, frame, w).tun.Some? {
      var dst: Mac, src: Mac, p := frame[..6], frame[6..12], frame[14..];
      assert frame == Header(dst, src, IP) + p;
    }
    forall dst: Mac, src: Mac, p: seq<Byte> | (dst == n.mac || dst == BROADCAST) && frame == Header(dst, src, IP) + p
      ensures Write(n, frame, w).tun.Some?
    {
      HeaderParts(dst, src, IP, p);
    }
  }

  // ---- Runs ----

  datatype Event =
    | SetHwaddr(mac: Mac)
    | SetIpaddr(ip: U32)
    | SetBrdaddr(brd: U32)
    | DoRead(incoming: Incoming, cnt: nat)
    | DoWrite(frame: seq<Byte>, w: int)

  ghost predicate Possible(run: seq<Event>) {
    forall e :: e in run && e.DoRead? ==> Fits(e.incoming, e.cnt)
  }

  const START := Node(UNKNOWN, 0, 0, map[], [])

  function Apply(n: Node, e: Event): Node
    requires e.DoRead? ==> Fits(e.incoming, e.cnt)
  {
    match e
    case SetHwaddr(mac) => n.(mac := mac)
    case SetIpaddr(ip) => n.(ip := ip)
    case SetBrdaddr(brd) => n.(brd := brd)
    case DoRead(incoming, cnt) => Read(n, incoming, cnt).node
    case DoWrite(frame, w) => Write(n, frame, w).node
  }

  ghost function After(run: seq<Event>): Node
    requires Possible(run)
  {
    if run == [] then START else Apply(After(run[..|run| - 1]), run[|run| - 1])
  }

  /** The hardware address last configured. */
  ghost function HwaddrOf(run: seq<Event>): Mac {
    if run == [] then UNKNOWN
    else match run[|run| - 1]
      case SetHwaddr(mac) => mac
      case _ => HwaddrOf(run[..|run| - 1])
  }

  ghost function IpaddrOf(run: seq<Event>): U32 {
    if run == [] then 0
    else match run[|run| - 1]
      case SetIpaddr(ip) => ip
      case _ => IpaddrOf(run[..|run| - 1])
  }

  ghost function BrdaddrOf(run: seq<Event>): U32 {
    if run == [] then 0
    else match run[|run| - 1]
      case SetBrdaddr(brd) => brd
      case _ => BrdaddrOf(run[..|run| - 1])
  }

  /** The sender MAC of the last ARP frame accepted with this sender IP, if there was one. */
  ghost function Taught(run: seq<Event>, addr: U32): Option<Mac> {
    if run == [] then None
    else
      var before := run[..|run| - 1];
      match run[|run| - 1]
      case DoWrite(frame, _) =>
        if AcceptsArp(HwaddrOf(before), frame) && SenderIp(frame) == addr then Some(SenderMac(frame))
        else Taught(before, addr)
      case _ => Taught(before, addr)
  }

  /** The reply to the last ARP request for this node's address since the last read, or nothing. */
  ghost function Owed(run: seq<Event>): seq<Byte> {
    if run == [] then []
    else
      var before := run[..|run| - 1];
      match run[|run| - 1]
      case DoWrite(frame, _) =>
        if AcceptsArp(HwaddrOf(before), frame) && Asks(frame, IpaddrOf(before))
        then ReplyTo(HwaddrOf(before), IpaddrOf(before), frame)
        else Owed(before)
      case DoRead(_, _) => []
      case _ => Owed(before)
  }

  /** After any run the node's state is what the events say: its configuration, for each address the
      MAC last taught, and the one reply it owes, which has 0 or 42 bytes. */
  lemma {:induction false} AfterRun(run: seq<Event>)
    requires Possible(run)
    ensures var n := After(run);
            && n.mac == HwaddrOf(run) && n.ip == IpaddrOf(run) && n.brd == BrdaddrOf(run)
            && (forall addr: U32 :: Taught(run, addr) == if addr in n.cache then Some(n.cache[addr]) else None)
            && n.fake == Owed(run) && |n.fake| in {0, 42}
  {
    if run != [] {
      AfterRun(run[..|run| - 1]);
    }
  }

  // ---- The same, byte by byte ----

  /** A request for the destination of packet p, to everybody. */
  lemma RequestBytes(mac: Mac, p: seq<Byte>)
    requires 20 <= |p|
    ensures Header(BROADCAST, mac, ARP) + ArpPacket(REQUEST, mac, UNKNOWN, Load32(p, 12), Load32(p, 16))
            == [0xff, 0xff, 0xff, 0xff, 0xff, 0xff] + mac + [8, 6] + [0, 1, 8, 0, 6, 4, 0, 1]
               + mac + p[12..16] + [0, 0, 0, 0, 0, 0] + p[16..20]
  {
    Le32Load32(p, 12);
    Le32Load32(p, 16);
    ArpParts(BROADCAST, mac, REQUEST, mac, UNKNOWN, Load32(p, 12), Load32(p, 16));
  }

  /** The reply to a request: to its sender, with both address pairs turned round. */
  lemma ReplyBytes(mac: Mac, ip: U32, frame: seq<Byte>)
    requires 42 <= |frame|
    ensures ReplyTo(mac, ip, frame)
            == frame[6..12] + mac + [8, 6] + [0, 1, 8, 0, 6, 4, 0, 2]
               + mac + Le32(ip) + frame[6..12] + frame[28..32]
  {
    Le32Load32(frame, 28);
    ArpParts(frame[6..12], mac, REPLY, mac, frame[6..12], ip, SenderIp(frame));
  }

  /** Six times 0xff, or this MAC. */
  predicate IsFor(mac: Mac, frame: seq<Byte>) {
    14 <= |frame| && (frame[..6] == mac || frame[..6] == [0xff, 0xff, 0xff, 0xff, 0xff, 0xff])
  }

  /** An ARP request or reply for IPv4 over Ethernet. */
  predicate IsArpFrame(frame: seq<Byte>) {
    42 <= |frame| && frame[12..14] == [8, 6] && frame[14..21] == [0, 1, 8, 0, 6, 4, 0] && frame[21] in {1, 2}
  }

  lemma AcceptsArpIff(mac: Mac, frame: seq<Byte>)
    ensures AcceptsArp(mac, frame) <==> IsFor(mac, frame) && IsArpFrame(frame)
  {
    if 14 <= |frame| {
      KindBytes(frame);
    }
    if 42 <= |frame| {
      ArpBytes(frame);
    }
  }

  lemma AsksIff(frame: seq<Byte>, ip: U32)
    requires 42 <= |frame|
    ensures Asks(frame, ip) <==> frame[21] == 1 && frame[38..42] == Le32(ip)
  {
    Le32Load32(frame, 38);
    if frame[38..42] == Le32(ip) {
      Load32At(frame, 38, ip);
    }
  }

  /** What a write does and returns, by the bytes of the frame. An IP frame for this node goes to the
      device without its header; an ARP frame for it teaches the sender's MAC, and as a request for this
      node's address it is owed a reply; everything else is dropped. All but the first are eaten whole. */
  lemma WriteResults(n: Node, frame: seq<Byte>, w: int)
    ensures var r := Write(n, frame, w);
            if IsFor(n.mac, frame) && frame[12..14] == [8, 0] then
              r == Writing(n, if w < 0 then w else w + 14, Some(frame[14..]))
            else if IsFor(n.mac, frame) && IsArpFrame(frame) then
              r == Writing(Node(n.mac, n.ip, n.brd, n.cache[Load32(frame, 28) := frame[22..28]],
                                if frame[21] == 1 && frame[38..42] == Le32(n.ip)
                                then frame[6..12] + n.mac + [8, 6] + [0, 1, 8, 0, 6, 4, 0, 2]
                                     + n.mac + Le32(n.ip) + frame[6..12] + frame[28..32]
                                else n.fake),
                           |frame|, None)
            else r == Writing(n, |frame|, None)
  {
    AcceptsArpIff(n.mac, frame);
    if 14 <= |frame| {
      KindBytes(frame);
    }
    if 42 <= |frame| {
      AsksIff(frame, n.ip);
      ReplyBytes(n.mac, n.ip, frame);
    }
  }

  /** What a read does and returns: the reply owed, cut to the buffer; else nothing but the error of the
      device; else -1 for a packet that is too short, or whose frame does not fit; else the packet in a
      frame for the MAC of its destination, or an ARP request for that. */
  lemma ReadResults(n: Node, incoming: Incoming, cnt: nat)
    requires Fits(incoming, cnt)
    ensures var r := Read(n, incoming, cnt);
            if n.fake != [] then
              r == Reading(Node(n.mac, n.ip, n.brd, n.cache, []), if |n.fake| <= cnt then |n.fake| else cnt,
                           if |n.fake| <= cnt then n.fake else n.fake[..cnt])
            else match incoming
              case Failed(code) => r == Reading(n, code, [])
              case Packet(p) =>
                if |p| < 20 then r == Reading(n, -1, [])
                else
                  var dst := Load32(p, 16);
                  if dst == n.brd || dst in n.cache then
                    var mac := if dst == n.brd then [0xff, 0xff, 0xff, 0xff, 0xff, 0xff] else n.cache[dst];
                    r == if |p| + 14 <= cnt then Reading(n, |p| + 14, mac + n.mac + [8, 0] + p) else Reading(n, -1, [])
                  else
                    var ask := [0xff, 0xff, 0xff, 0xff, 0xff, 0xff] + n.mac + [8, 6] + [0, 1, 8, 0, 6, 4, 0, 1]
                               + n.mac + p[12..16] + [0, 0, 0, 0, 0, 0] + p[16..20];
                    r == if 42 <= cnt then Reading(n, 42, ask) else Reading(n, -1, [])
  {
    if n.fake == [] && incoming.Packet? && 20 <= |incoming.bytes| {
      RequestBytes(n.mac, incoming.bytes);
    }
  }

  /** After any run, a request for this node's address is answered by the next read, byte for byte. */
  lemma RequestIsAnswered(run: seq<Event>, frame: seq<Byte>, w: int, incoming: Incoming, cnt: nat)
    requires Possible(run) && Fits(incoming, cnt) && 42 <= cnt
    requires IsFor(HwaddrOf(run), frame) && IsArpFrame(frame) && frame[21] == 1 && frame[38..42] == Le32(IpaddrOf(run))
    ensures Possible(run + [DoWrite(frame, w)])
    ensures var r := Read(After(run + [DoWrite(frame, w)]), incoming, cnt);
            && r.ans == 42 && r.node.fake == []
            && r.out == frame[6..12] + HwaddrOf(run) + [8, 6] + [0, 1, 8, 0, 6, 4, 0, 2]
                        + HwaddrOf(run) + Le32(IpaddrOf(run)) + frame[6..12] + frame[28..32]
  {
    AfterRun(run);
    var n := After(run);
    var more := run + [DoWrite(frame, w)];
    assert more[..|more| - 1] == run && After(more) == Write(n, frame, w).node;
    RequestOwes(n, frame, w);
    var reply := After(more).fake;
    ReadResults(After(more), incoming, cnt);
    assert Read(After(more), incoming, cnt).out == reply;
  }

  lemma RequestOwes(n: Node, frame: seq<Byte>, w: int)
    requires IsFor(n.mac, frame) && IsArpFrame(frame) && frame[21] == 1 && frame[38..42] == Le32(n.ip)
    ensures Write(n, frame, w).node.fake == frame[6..12] + n.mac + [8, 6] + [0, 1, 8, 0, 6, 4, 0, 2]
                                            + n.mac + Le32(n.ip) + frame[6..12] + frame[28..32]
  {
    WriteResults(n, frame, w);
    assert frame[12..14] != [8, 0];
  }

  /** What a read of an IP packet emits after any run that owes no reply: towards the broadcast
      address a broadcast frame, towards a taught address a frame for the MAC last taught, and towards
      any other address an ARP request for it. */
  lemma EmittedAfterRun(run: seq<Event>, p: seq<Byte>, cnt: nat)
    requires Possible(run) && Owed(run) == [] && 20 <= |p| <= cnt
    ensures var out := Read(After(run), Packet(p), cnt).out;
            var dst := Load32(p, 16);
            var to := if dst == BrdaddrOf(run) then Some([0xff, 0xff, 0xff, 0xff, 0xff, 0xff]) else Taught(run, dst);
            && (to.Some? && |p| + 14 <= cnt ==> out == to.value + HwaddrOf(run) + [8, 0] + p)
            && (to.None? && 42 <= cnt ==>
                  out == [0xff, 0xff, 0xff, 0xff, 0xff, 0xff] + HwaddrOf(run) + [8, 6] + [0, 1, 8, 0, 6, 4, 0, 1]
                         + HwaddrOf(run) + p[12..16] + [0, 0, 0, 0, 0, 0] + p[16..20])
            && (out == [] <==> if to.Some? then cnt < |p| + 14 else cnt < 42)
  {
    AfterRun(run);
    ReadResults(After(run), Packet(p), cnt);
  }
}
