/**
 epoll_wait over the tap emulation: it asks the emulation whether it owes a reply, and if so wakes up at
 once and reports the tap's descriptor readable, so that the next read gets that reply.
 */
module EpollTap {
  import opened Options
  import Epoll
  import Frames
  import TunTap

  /** ops are the calls of epoll_ctl so far, and run is what the emulation has been through. Only while the
      emulation owes a reply, and select is asked about the tap, is the timeout zero and the tap readable
      on that account; and so it is if the tap's last ADD or MOD asked for reading. */
  method Wait(layer: Epoll.Layer, tap: TunTap.TunTap, fd: int, ee: array<Epoll.Event>, maxevents: int, timeout: int,
              nfds: int, sel: Epoll.Ready, ghost ops: seq<Epoll.Op>, ghost run: seq<Frames.Event>)
    returns (r: int, errno: int, waited: Option<int>, ghost tags: seq<Epoll.Tag>)
    requires tap.Valid() && Frames.Possible(run) && tap.State() == Frames.After(run)
    requires layer.Holds(Epoll.Code(ops)) && layer.Answered(sel) && maxevents <= ee.Length
    modifies ee
    ensures fd != 65536 || !layer.created ==> r == -1 && errno == 9
    ensures fd == 65536 && layer.created ==>
              waited == if Awaited(layer.tunFd, ops) && Frames.Owed(run) != [] then Some(0)
                        else if timeout == -1 then None else Some(timeout * 1000)
    ensures fd == 65536 && layer.created && nfds >= 0 ==>
              && r == |tags|
              && Epoll.Listing(tags, sel,
                               if Awaited(layer.tunFd, ops) && Frames.Owed(run) != [] then layer.tunFd else -1,
                               maxevents)
              && (forall k :: 0 <= k < r ==>
                    && tags[k].fd in Epoll.Abstract(ops).data
                    && ee[k] == Epoll.Event(tags[k].bit, Epoll.Abstract(ops).data[tags[k].fd]))
              && (Requested(layer.tunFd, ops) && Frames.Owed(run) != [] ==> ReportedOnce(layer.tunFd, tags, maxevents))
  {
    Frames.AfterRun(run);
    var sz := tap.HasFakePkt();
    r, errno, waited, tags := layer.EpollWait(fd, ee, maxevents, timeout, sz != 0, nfds, sel, ops);
    if Requested(layer.tunFd, ops) && Frames.Owed(run) != [] {
      TapIsAwaited(layer, ops);
      if fd == 65536 && layer.created && nfds >= 0 {
        TapReportedOnce(layer.tunFd, tags, sel, maxevents);
      }
    }
  }

  /** select is asked whether the tap is readable. */
  predicate Awaited(tunFd: int, ops: seq<Epoll.Op>) {
    tunFd >= 0 && Epoll.IN in Epoll.Code(ops).Of(tunFd)
  }

  /** The last ADD or MOD of the tap asked for reading. */
  predicate Requested(tunFd: int, ops: seq<Epoll.Op>) {
    tunFd >= 0 && Epoll.IN in Epoll.Abstract(ops).Of(tunFd)
  }

  predicate OnlyAt(tags: seq<Epoll.Tag>, t: Epoll.Tag, at: nat) {
    at < |tags| && forall k :: 0 <= k < |tags| ==> (tags[k] == t <==> k == at)
  }

  /** The tap is reported readable in exactly one place, or the array is full of what comes before it. */
  ghost predicate ReportedOnce(tunFd: nat, tags: seq<Epoll.Tag>, max: int) {
    var tap := Epoll.Tag(tunFd, Epoll.IN);
    if tap in tags then exists at: nat :: OnlyAt(tags, tap, at)
    else |tags| >= max && forall u :: u in tags ==> Epoll.Earlier(u, tap)
  }

  lemma TapReportedOnce(tunFd: nat, tags: seq<Epoll.Tag>, sel: Epoll.Ready, max: int)
    requires Epoll.Listing(tags, sel, tunFd, max) && tunFd < 1024
    ensures ReportedOnce(tunFd, tags, max)
  {
    var tap := Epoll.Tag(tunFd, Epoll.IN);
    if tap in tags {
      var at :| 0 <= at < |tags| && tags[at] == tap;
      assert OnlyAt(tags, tap, at);
    }
  }

  /** A request for reading on the tap is never lost, so select is asked about it. */
  lemma TapIsAwaited(layer: Epoll.Layer, ops: seq<Epoll.Op>)
    requires layer.Holds(Epoll.Code(ops)) && layer.tunFd >= 0
    requires Epoll.IN in Epoll.Abstract(ops).Of(layer.tunFd)
    ensures Awaited(layer.tunFd, ops) && layer.tunFd in layer.epollIn && layer.tunFd < 1024
  {
    Epoll.NothingLost(ops);
    Epoll.InterestHasData(ops, layer.tunFd);
    assert layer.Has(layer.tunFd, Epoll.IN);
  }
}
