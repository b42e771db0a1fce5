/**
 The epoll emulation over select: three interest sets filled by epoll_ctl, and an epoll_wait that
 turns select's answer into events and wakes up for the reply the tap emulator still owes.
 */
module Epoll {
  import opened Options

  const FD_SETSIZE: nat := 1024
  const EPOLL_FD: int := 65536
  const EBADF: int := 9

  datatype Bit = IN | OUT | ERR

  /** The set of bits the code looks at in an epoll_event's mask. */
  type Mask = set<Bit>

  const ALL: Mask := {IN, OUT, ERR}

  // ---- What a run of epoll_ctl leaves in the sets ----

  datatype Op = Add(fd: nat, events: Mask, data: int) | Mod(fd: nat, events: Mask, data: int) | Del(fd: nat)

  /** Who is interested in what; data is what the last ADD or MOD of a descriptor gave. */
  datatype Interest = Interest(sets: map<nat, Mask>, data: map<nat, int>)
  {
    function Of(fd: nat): Mask {
      if fd in sets then sets[fd] else {}
    }
  }

  /** What the code does: MOD sets the bits it should clear, and so sets them all. */
  function Apply(s: Interest, op: Op): Interest {
    match op
    case Add(fd, events, data) => Interest(s.sets[fd := s.Of(fd) + events], s.data[fd := data])
    case Mod(fd, events, data) => Interest(s.sets[fd := s.Of(fd) + (ALL - events) + events], s.data[fd := data])
    case Del(fd) => Interest(s.sets[fd := {}], s.data)
  }

  /** What epoll means: the last ADD or MOD decides. */
  function Request(s: Interest, op: Op): Interest {
    match op
    case Add(fd, events, data) => Interest(s.sets[fd := events], s.data[fd := data])
    case Mod(fd, events, data) => Interest(s.sets[fd := events], s.data[fd := data])
    case Del(fd) => Interest(s.sets[fd := {}], s.data)
  }

  const NOTHING := Interest(map[], map[])

  function Code(ops: seq<Op>): Interest {
    if ops == [] then NOTHING else Apply(Code(ops[..|ops| - 1]), ops[|ops| - 1])
  }

  function Abstract(ops: seq<Op>): Interest {
    if ops == [] then NOTHING else Request(Abstract(ops[..|ops| - 1]), ops[|ops| - 1])
  }

  /** Operation j puts bit b of fd into the sets. */
  predicate Puts(op: Op, fd: nat, b: Bit) {
    op.fd == fd && ((op.Add? && b in op.events) || op.Mod?)
  }

  /** Some operation put bit b of fd into the sets, and no DEL of fd came after it. */
  ghost predicate PutSince(ops: seq<Op>, fd: nat, b: Bit) {
    exists j :: 0 <= j < |ops| && Puts(ops[j], fd, b) && forall k :: j < k < |ops| ==> ops[k] != Del(fd)
  }

  /** In the sets after a run is exactly what some ADD asked for or some MOD touched, with no DEL of that
      descriptor since. */
  lemma {:induction false} CodeSets(ops: seq<Op>, fd: nat, b: Bit)
    ensures b in Code(ops).Of(fd) <==> PutSince(ops, fd, b)
  {
    if ops != [] {
      var n := |ops| - 1;
      CodeSets(ops[..n], fd, b);
      assert b in ALL;
      if b in Code(ops[..n]).Of(fd) && ops[n] != Del(fd) {
        var j :| 0 <= j < n && Puts(ops[..n][j], fd, b) && forall k :: j < k < n ==> ops[..n][k] != Del(fd);
        assert Puts(ops[j], fd, b);
        forall k | j < k < |ops| ensures ops[k] != Del(fd) { if k < n { assert ops[..n][k] == ops[k]; } }
      }
      if j :| 0 <= j < |ops| && Puts(ops[j], fd, b) && forall k :: j < k < |ops| ==> ops[k] != Del(fd) {
        if j < n {
          assert ops[..n][j] == ops[j];
          forall k | j < k < n ensures ops[..n][k] != Del(fd) { assert ops[..n][k] == ops[k]; }
          assert ops[n] != Del(fd);
        }
      }
    }
  }

  /** Nothing requested is ever lost, and each descriptor has the data last given for it. */
  lemma {:induction false} NothingLost(ops: seq<Op>)
    ensures forall fd: nat :: Abstract(ops).Of(fd) <= Code(ops).Of(fd)
    ensures Abstract(ops).data == Code(ops).data
  {
    if ops != [] {
      var before := ops[..|ops| - 1];
      NothingLost(before);
      forall fd: nat
        ensures Abstract(ops).Of(fd) <= Code(ops).Of(fd)
      {
        assert Abstract(before).Of(fd) <= Code(before).Of(fd);
      }
    }
  }

  /** What is requested of fd is what its last operation asked for: nothing after a DEL. */
  lemma {:induction false} AbstractIs(ops: seq<Op>, fd: nat, j: nat)
    requires j < |ops| && ops[j].fd == fd && forall k :: j < k < |ops| ==> ops[k].fd != fd
    ensures Abstract(ops).Of(fd) == if ops[j].Del? then {} else ops[j].events
    ensures !ops[j].Del? ==> fd in Abstract(ops).data && Abstract(ops).data[fd] == ops[j].data
  {
    var n := |ops| - 1;
    if j < n {
      assert ops[..n][j] == ops[j] && forall k :: j < k < n ==> ops[..n][k] == ops[k];
      AbstractIs(ops[..n], fd, j);
    }
  }

  lemma {:induction false} NothingRequested(ops: seq<Op>, fd: nat)
    requires forall k :: 0 <= k < |ops| ==> ops[k].fd != fd
    ensures Abstract(ops).Of(fd) == {}
  {
    if ops != [] {
      var n := |ops| - 1;
      assert forall k :: 0 <= k < n ==> ops[..n][k] == ops[k];
      NothingRequested(ops[..n], fd);
    }
  }

  /** Where there is interest, there is data. */
  lemma {:induction false} InterestHasData(ops: seq<Op>, fd: nat)
    ensures Code(ops).Of(fd) != {} ==> fd in Code(ops).data
  {
    if ops != [] {
      InterestHasData(ops[..|ops| - 1], fd);
    }
  }

  /** The sets hold for fd what was last requested for it. */
  predicate ExactAt(ops: seq<Op>, fd: nat) {
    Code(ops).Of(fd) == Abstract(ops).Of(fd)
  }

  /** The call leaves its own descriptor exact. */
  predicate Settles(ops: seq<Op>, op: Op) {
    match op
    case Del(_) => true
    case Add(fd, events, _) => Code(ops).Of(fd) <= events
    case Mod(_, events, _) => events == ALL
  }

  /** After any run, one more call leaves its descriptor exact exactly when it is a DEL, an ADD that asks
      for all that is set, or a MOD that asks for all three; every other one is exact if it was. */
  lemma ExactAfterIff(ops: seq<Op>, op: Op, fd: nat)
    ensures ExactAt(ops + [op], fd) <==> if op.fd == fd then Settles(ops, op) else ExactAt(ops, fd)
  {
    var after := ops + [op];
    assert after[..|after| - 1] == ops;
    assert Code(after) == Apply(Code(ops), op) && Abstract(after) == Request(Abstract(ops), op);
    forall b: Bit
      ensures b in ALL
    {
      match b case IN => case OUT => case ERR =>
    }
  }

  /** After any run, fd is exact exactly when every bit put for it since its last DEL is in the last
      request for it. */
  lemma ExactIff(ops: seq<Op>, fd: nat)
    ensures ExactAt(ops, fd) <==> forall b: Bit :: PutSince(ops, fd, b) ==> b in Abstract(ops).Of(fd)
  {
    NothingLost(ops);
    forall b: Bit
      ensures b in Code(ops).Of(fd) <==> PutSince(ops, fd, b)
    {
      CodeSets(ops, fd, b);
    }
    if forall b: Bit :: PutSince(ops, fd, b) ==> b in Abstract(ops).Of(fd) {
      assert Code(ops).Of(fd) <= Abstract(ops).Of(fd);
    }
  }

  /** A MOD that asks for less: the code waits for all three instead of OUT alone. */
  lemma ModKeepsWaiting()
    ensures var ops := [Add(3, {IN}, 0), Mod(3, {OUT}, 0)];
            Code(ops).Of(3) == ALL && Abstract(ops).Of(3) == {OUT} && !ExactAt(ops, 3)
  {
    var ops := [Add(3, {IN}, 0), Mod(3, {OUT}, 0)];
    var first := [Add(3, {IN}, 0)];
    assert ops[..1] == first && first[..0] == [];
    assert Code(first) == Apply(NOTHING, first[0]) && Abstract(first) == Request(NOTHING, first[0]);
    assert IN in Code(ops).Of(3) && IN !in Abstract(ops).Of(3);
  }

  /** The last operation on fd was no DEL. */
  predicate Active(ops: seq<Op>, fd: nat) {
    ops != [] && (if ops[|ops| - 1].fd == fd then !ops[|ops| - 1].Del? else Active(ops[..|ops| - 1], fd))
  }

  /** A run without MOD that adds no descriptor twice. */
  predicate Plain(ops: seq<Op>) {
    ops != [] ==>
      var before, op := ops[..|ops| - 1], ops[|ops| - 1];
      Plain(before) && !op.Mod? && (op.Add? ==> !Active(before, op.fd))
  }

  /** After such a run the sets are those of an abstract epoll. */
  lemma {:induction false} PlainRunsAreExact(ops: seq<Op>)
    requires Plain(ops)
    ensures forall fd: nat :: ExactAt(ops, fd) && (!Active(ops, fd) ==> Abstract(ops).Of(fd) == {})
  {
    if ops != [] {
      var before, op := ops[..|ops| - 1], ops[|ops| - 1];
      PlainRunsAreExact(before);
      assert ops == before + [op];
      forall fd: nat
        ensures ExactAt(ops, fd) && (!Active(ops, fd) ==> Abstract(ops).Of(fd) == {})
      {
        assert ExactAt(before, op.fd) && ExactAt(before, fd);
        ExactAfterIff(before, op, fd);
      }
    }
  }

  // ---- What epoll_wait reports ----

  datatype Event = Event(bit: Bit, data: int)

  /** select's answer, and the descriptor that has a reply owed, or -1. */
  datatype Ready = Ready(r: set<nat>, w: set<nat>, x: set<nat>, fake: int)

  /** One readiness to report. */
  datatype Tag = Tag(fd: nat, bit: Bit)

  predicate Reports(a: Ready, t: Tag) {
    match t.bit
    case IN => t.fd in a.r || t.fd == a.fake
    case OUT => t.fd in a.w
    case ERR => t.fd in a.x
  }

  function TagsOf(a: Ready, i: nat): seq<Tag> {
    (if i in a.r || i == a.fake then [Tag(i, IN)] else [])
    + (if i in a.w then [Tag(i, OUT)] else [])
    + (if i in a.x then [Tag(i, ERR)] else [])
  }

  /** All there is to report of the first n descriptors, descriptor by descriptor. */
  function Tags(a: Ready, n: nat): seq<Tag> {
    if n == 0 then [] else Tags(a, n - 1) + TagsOf(a, n - 1)
  }

  function FirstOf<T>(s: seq<T>, max: int): seq<T> {
    if max <= 0 then [] else if |s| <= max then s else s[..max]
  }

  /** The event that reports a tag. */
  function EventOf(t: Tag, data: seq<int>): Event {
    Event(t.bit, if t.fd < |data| then data[t.fd] else 0)
  }

  function EventsOf(tags: seq<Tag>, data: seq<int>): seq<Event> {
    seq(|tags|, k requires 0 <= k < |tags| => EventOf(tags[k], data))
  }

  function BitRank(b: Bit): nat {
    match b
    case IN => 0
    case OUT => 1
    case ERR => 2
  }

  predicate Before(t: Tag, u: Tag) {
    t.fd < u.fd || (t.fd == u.fd && BitRank(t.bit) < BitRank(u.bit))
  }

  /** What is reported is exactly what is ready. */
  lemma {:induction false} TagsAre(a: Ready, n: nat, t: Tag)
    ensures t in Tags(a, n) <==> t.fd < n && Reports(a, t)
  {
    if n > 0 {
      TagsAre(a, n - 1, t);
    }
  }

  /** Smaller descriptors come first, for each one IN before OUT before ERR, and nothing twice. */
  lemma {:induction false} TagsAscend(a: Ready, n: nat, i: nat, j: nat)
    requires i < j < |Tags(a, n)|
    ensures Before(Tags(a, n)[i], Tags(a, n)[j])
  {
    var before, own := Tags(a, n - 1), TagsOf(a, n - 1);
    assert Tags(a, n) == before + own;
    var m := |before|;
    if j < m {
      TagsAscend(a, n - 1, i, j);
    } else if i < m {
      TagsAre(a, n - 1, before[i]);
      assert own[j - m] in own;
    } else {
      OwnTagsAscend(a, n - 1, i - m, j - m);
    }
  }

  lemma OwnTagsAscend(a: Ready, fd: nat, i: nat, j: nat)
    requires i < j < |TagsOf(a, fd)|
    ensures Before(TagsOf(a, fd)[i], TagsOf(a, fd)[j])
  {
  }

  lemma {:induction false} TagsPrefix(a: Ready, i: nat, n: nat)
    requires i <= n
    ensures Tags(a, i) <= Tags(a, n)
  {
    if i < n {
      TagsPrefix(a, i, n - 1);
    }
  }

  /** The tap's descriptor is reported readable exactly once, whether select found it so or only a reply is
      owed, if the caller's array reaches its place behind the smaller descriptors, and else never. */
  lemma FakeReportedOnce(a: Ready, n: nat, max: int)
    requires 0 <= a.fake < n
    ensures var tags, at := FirstOf(Tags(a, n), max), |Tags(a, a.fake)|;
            if at < max then at < |tags| && forall k :: 0 <= k < |tags| ==> (tags[k] == Tag(a.fake, IN) <==> k == at)
            else Tag(a.fake, IN) !in tags
  {
    var all, at := Tags(a, n), |Tags(a, a.fake)|;
    TagsPrefix(a, a.fake + 1, n);
    assert Tags(a, a.fake + 1) == Tags(a, a.fake) + TagsOf(a, a.fake);
    assert all[at] == Tags(a, a.fake + 1)[at] == Tag(a.fake, IN);
    forall k | 0 <= k < |all| && k != at
      ensures all[k] != Tag(a.fake, IN)
    {
      TagsAscend(a, n, if k < at then k else at, if k < at then at else k);
    }
  }

  /** What select found ready, and the tap's descriptor if that is given. */
  predicate IsReady(t: Tag, sel: Ready, tap: int) {
    match t.bit
    case IN => t.fd in sel.r || t.fd == tap
    case OUT => t.fd in sel.w
    case ERR => t.fd in sel.x
  }

  predicate Earlier(t: Tag, u: Tag) {
    t.fd < u.fd || (t.fd == u.fd && (t.bit, u.bit) in {(IN, OUT), (IN, ERR), (OUT, ERR)})
  }

  /** The tags are the first ones, at most max, of all that is ready below 1024. */
  ghost predicate Listing(tags: seq<Tag>, sel: Ready, tap: int, max: int) {
    && (forall i, j :: 0 <= i < j < |tags| ==> Earlier(tags[i], tags[j]))
    && (forall t :: t in tags ==> t.fd < 1024 && IsReady(t, sel, tap))
    && (max <= 0 ==> tags == []) && (max > 0 ==> |tags| <= max)
    && (forall t: Tag :: t.fd < 1024 && IsReady(t, sel, tap) && t !in tags ==>
          |tags| >= max && forall u :: u in tags ==> Earlier(u, t))
  }

  /** The first tags of a list in order. */
  lemma FirstTags(all: seq<Tag>, max: int)
    requires forall i, j :: 0 <= i < j < |all| ==> Earlier(all[i], all[j])
    ensures var tags := FirstOf(all, max);
            && tags <= all && (max <= 0 ==> tags == []) && (max > 0 ==> |tags| <= max)
            && forall t :: t in all && t !in tags ==> |tags| >= max && forall u :: u in tags ==> Earlier(u, t)
  {
    var tags := FirstOf(all, max);
    forall t | t in all && t !in tags
      ensures |tags| >= max && forall u :: u in tags ==> Earlier(u, t)
    {
      assert forall k :: 0 <= k < |tags| ==> all[k] == tags[k];
      var k :| 0 <= k < |all| && all[k] == t;
    }
  }

  lemma ListingOf(a: Ready, sel: Ready, max: int)
    requires a == sel.(fake := a.fake)
    ensures Listing(FirstOf(Tags(a, FD_SETSIZE), max), sel, a.fake, max)
  {
    var all := Tags(a, FD_SETSIZE);
    forall i, j | 0 <= i < j < |all|
      ensures Earlier(all[i], all[j])
    {
      TagsAscend(a, FD_SETSIZE, i, j);
    }
    FirstTags(all, max);
    forall t: Tag
      ensures t in all <==> t.fd < 1024 && IsReady(t, sel, a.fake)
    {
      TagsAre(a, FD_SETSIZE, t);
    }
  }

  class Layer {
    var epollIn: set<nat>
    var epollOut: set<nat>
    var epollErr: set<nat>
    const perFdData: array<int>
    var tunFd: int
    var created: bool

    constructor ()
      ensures !created && tunFd == -1 && perFdData.Length == FD_SETSIZE && fresh(perFdData)
    {
      epollIn, epollOut, epollErr := {}, {}, {};
      perFdData := new int[FD_SETSIZE](_ => 0);
      tunFd, created := -1, false;
    }

    predicate Has(fd: nat, b: Bit)
      reads this
    {
      match b
      case IN => fd in epollIn
      case OUT => fd in epollOut
      case ERR => fd in epollErr
    }

    /** The sets hold these interests, and the data of every descriptor ever added. */
    ghost predicate Holds(s: Interest)
      reads this, perFdData
    {
      && perFdData.Length == FD_SETSIZE
      && (forall fd: nat, b: Bit :: Has(fd, b) <==> b in s.Of(fd))
      && (forall fd: nat :: fd in s.data ==> fd < FD_SETSIZE && perFdData[fd] == s.data[fd])
    }

    /** epoll_create; a second one before the descriptor is closed aborts the program. */
    method EpollCreate() returns (aborted: bool, fd: int)
      requires perFdData.Length == FD_SETSIZE
      modifies this
      ensures aborted == old(created)
      ensures !aborted ==> fd == EPOLL_FD && created && Holds(NOTHING) && tunFd == old(tunFd)
    {
      if created {
        return true, 0;
      }
      created := true;
      epollIn, epollOut, epollErr := {}, {}, {};
      return false, EPOLL_FD;
    }

    function OpOf(opcode: int, fd: nat, events: Mask, data: int): Op {
      if opcode == 1 then Add(fd, events, data) else if opcode == 2 then Del(fd) else Mod(fd, events, data)
    }

    /** epoll_ctl with opcode 1 for ADD, 2 for DEL, 3 for MOD; any other aborts the program. */
    method EpollCtl(fd: int, opcode: int, fd2: nat, events: Mask, data: int, ghost s: Interest)
      returns (aborted: bool, r: int, errno: int)
      requires fd2 < FD_SETSIZE && Holds(s)
      modifies this, perFdData
      ensures created == old(created) && tunFd == old(tunFd)
      ensures (r == -1) <==> (fd != 65536 || !created)
      ensures r == -1 ==> !aborted && errno == 9 && Holds(s)
      ensures aborted <==> r != -1 && opcode !in {1, 2, 3}
      ensures r != -1 && !aborted ==> r == 0 && errno == 0 && Holds(Apply(s, OpOf(opcode, fd2, events, data)))
      ensures r != -1 && opcode == 1 ==>
                forall f: nat, b: Bit :: Has(f, b) <==> old(Has(f, b)) || (f == fd2 && b in events)
      ensures r != -1 && opcode == 2 ==> forall f: nat, b: Bit :: Has(f, b) <==> old(Has(f, b)) && f != fd2
      ensures r != -1 && opcode == 3 ==> forall f: nat, b: Bit :: Has(f, b) <==> old(Has(f, b)) || f == fd2
      ensures r != -1 && opcode in {1, 3} ==> perFdData[fd2] == data
      ensures r == -1 || opcode == 2 ==> perFdData[fd2] == old(perFdData[fd2])
      ensures forall f :: 0 <= f < FD_SETSIZE && f != fd2 ==> perFdData[f] == old(perFdData[f])
    {
      aborted, r, errno := false, 0, 0;
      if fd != EPOLL_FD || !created {
        return false, -1, EBADF;
      }
      if opcode == 1 || opcode == 3 {
        if opcode == 3 {
          SetBits(fd2, ALL - events);
        }
        SetBits(fd2, events);
        perFdData[fd2] := data;
      } else if opcode == 2 {
        epollIn, epollOut, epollErr := epollIn - {fd2}, epollOut - {fd2}, epollErr - {fd2};
      } else {
        aborted := true;
      }
      forall b: Bit
        ensures b in ALL
      {
        match b case IN => case OUT => case ERR =>
      }
      if !aborted {
        ghost var after := Apply(s, OpOf(opcode, fd2, events, data));
        forall f: nat, b: Bit
          ensures Has(f, b) <==> b in after.Of(f)
        {
          assert old(Has(f, b)) <==> b in s.Of(f);
        }
      }
    }

    /** FD_SET in the set of each of these bits. */
    method SetBits(fd2: nat, bits: Mask)
      modifies `epollIn, `epollOut, `epollErr
      ensures forall f: nat, b: Bit :: Has(f, b) <==> old(Has(f, b)) || (f == fd2 && b in bits)
    {
      if IN in bits {
        epollIn := epollIn + {fd2};
      }
      if OUT in bits {
        epollOut := epollOut + {fd2};
      }
      if ERR in bits {
        epollErr := epollErr + {fd2};
      }
    }

    /** Microseconds given to select, or None to wait for ever. */
    function SelectTimeout(timeout: int, needFake: bool): Option<int> {
      if needFake then Some(0) else if timeout == -1 then None else Some(timeout * 1000)
    }

    predicate NeedFake(owed: bool)
      reads this
    {
      tunFd >= 0 && tunFd in epollIn && owed
    }

    /** select finds nothing ready that it was not asked about. */
    predicate Answered(sel: Ready)
      reads this
    {
      sel.r <= epollIn && sel.w <= epollOut && sel.x <= epollErr && sel.fake == -1
    }

    /** select's answer, and the tap's descriptor if a reply is owed. */
    function Known(sel: Ready, owed: bool): Ready
      reads this
    {
      sel.(fake := if NeedFake(owed) then tunFd else -1)
    }

    /** epoll_wait after a run of epoll_ctl. owed says whether the tap emulator owes a reply; nfds and sel
        are select's answer to the sets and the timeout it was given, waited. */
    method EpollWait(fd: int, ee: array<Event>, maxevents: int, timeout: int, owed: bool, nfds: int, sel: Ready,
                     ghost ops: seq<Op>)
      returns (r: int, errno: int, waited: Option<int>, ghost tags: seq<Tag>)
      requires Holds(Code(ops)) && Answered(sel) && maxevents <= ee.Length
      modifies ee
      ensures (fd != 65536 || !created) ==> r == -1 && errno == 9
      ensures fd == 65536 && created ==>
                waited == if tunFd >= 0 && IN in Code(ops).Of(tunFd) && owed then Some(0)
                          else if timeout == -1 then None else Some(timeout * 1000)
      ensures fd == 65536 && created && nfds < 0 ==> r == -1 && ee[..] == old(ee[..])
      ensures fd == 65536 && created && nfds >= 0 ==>
                && Listing(tags, sel, if tunFd >= 0 && IN in Code(ops).Of(tunFd) && owed then tunFd else -1, maxevents)
                && r == |tags| <= ee.Length
                && forall k :: 0 <= k < r ==> tags[k].fd in Abstract(ops).data
                                              && ee[k] == Event(tags[k].bit, Abstract(ops).data[tags[k].fd])
    {
      r, errno, waited, tags := -1, 0, None, [];
      if fd != EPOLL_FD || !created {
        errno := EBADF;
        return;
      }
      var needFake := NeedFake(owed);
      assert tunFd >= 0 ==> (Has(tunFd, IN) <==> IN in Code(ops).Of(tunFd));
      waited := SelectTimeout(timeout, needFake);
      if nfds < 0 {
        return;
      }
      ghost var a := Known(sel, owed);
      r := Fill(ee, maxevents, sel, needFake, a);
      tags := FirstOf(Tags(a, FD_SETSIZE), maxevents);
      ListingOf(a, sel, maxevents);
      forall k | 0 <= k < r
        ensures tags[k].fd in Abstract(ops).data && ee[k] == Event(tags[k].bit, Abstract(ops).data[tags[k].fd])
      {
        assert ee[..r][k] == EventOf(tags[k], perFdData[..]);
        TagsAre(a, FD_SETSIZE, tags[k]);
        TagHasData(a, ops, tags[k]);
      }
    }

    /** What is reported was asked for, and so has the data of its last ADD or MOD. */
    lemma TagHasData(a: Ready, ops: seq<Op>, t: Tag)
      requires Holds(Code(ops)) && Reports(a, t)
      requires a.r <= epollIn && a.w <= epollOut && a.x <= epollErr && (a.fake < 0 || a.fake in epollIn)
      ensures t.fd in Abstract(ops).data && t.fd < FD_SETSIZE && perFdData[t.fd] == Abstract(ops).data[t.fd]
    {
      assert Has(t.fd, t.bit);
      InterestHasData(ops, t.fd);
      NothingLost(ops);
    }

    /** The loop over all descriptors that reports until the caller's array is full. */
    method Fill(ee: array<Event>, maxevents: int, sel: Ready, needFake: bool, ghost a: Ready) returns (idx: nat)
      requires perFdData.Length == FD_SETSIZE && maxevents <= ee.Length
      requires a == sel.(fake := if needFake then tunFd else -1) && (needFake ==> tunFd >= 0)
      modifies ee
      ensures var tags := FirstOf(Tags(a, FD_SETSIZE), maxevents);
              idx == |tags| <= ee.Length && ee[..idx] == EventsOf(tags, perFdData[..])
    {
      ghost var data := perFdData[..];
      idx := 0;
      var i := 0;
      while i < FD_SETSIZE && idx < maxevents
        invariant 0 <= i <= FD_SETSIZE && Reported(ee[..], idx, maxevents, Tags(a, i), data)
      {
        idx := Report(ee, idx, maxevents, sel, i, needFake && i == tunFd, perFdData[i], a, Tags(a, i), data);
        i := i + 1;
      }
      TagsPrefix(a, i, FD_SETSIZE);
    }
  }

  /** The first idx entries of ee report the tags so far, with those there was no room for left out. */
  ghost predicate Reported(ee: seq<Event>, idx: nat, max: int, tags: seq<Tag>, data: seq<int>) {
    idx == |FirstOf(tags, max)| && idx <= |ee| && ee[..idx] == EventsOf(FirstOf(tags, max), data)
  }

  /** One turn of the loop: what there is to report of descriptor i. */
  method Report(ee: array<Event>, at: nat, max: int, sel: Ready, i: nat, fake: bool, d: int,
                ghost a: Ready, ghost tags: seq<Tag>, ghost data: seq<int>)
    returns (idx: nat)
    requires max <= ee.Length && i < |data| && d == data[i] && Reported(ee[..], at, max, tags, data)
    requires a.r == sel.r && a.w == sel.w && a.x == sel.x && (fake <==> i == a.fake)
    modifies ee
    ensures Reported(ee[..], idx, max, tags + TagsOf(a, i), data)
  {
    ghost var out := tags;
    idx := at;
    if i in sel.r || fake {
      idx := Push(ee, idx, max, Event(IN, d), out, Tag(i, IN), data);
      out := out + [Tag(i, IN)];
    }
    if i in sel.w {
      idx := Push(ee, idx, max, Event(OUT, d), out, Tag(i, OUT), data);
      out := out + [Tag(i, OUT)];
    }
    if i in sel.x {
      idx := Push(ee, idx, max, Event(ERR, d), out, Tag(i, ERR), data);
      out := out + [Tag(i, ERR)];
    }
    assert out == tags + TagsOf(a, i);
  }

  /** ee[idx++] = e while there is room. */
  method Push(ee: array<Event>, idx: nat, max: int, e: Event, ghost tags: seq<Tag>, ghost t: Tag, ghost data: seq<int>)
    returns (idx': nat)
    requires max <= ee.Length && Reported(ee[..], idx, max, tags, data) && e == EventOf(t, data)
    modifies ee
    ensures Reported(ee[..], idx', max, tags + [t], data)
  {
    idx' := idx;
    if idx < max {
      ee[idx] := e;
      idx' := idx + 1;
    }
  }
}
