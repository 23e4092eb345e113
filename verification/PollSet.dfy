/** What the loops and the outcomes of fs/poll.c are, as functions on one poll. */
module PollSet {
  import opened Options
  import opened Polls

  datatype Outcome = Done | Failed(error: Error)

  datatype Error = EBADF | EEXIST | ENOENT | ENOMEM | EBUSY | EHOST

  // ---- what the loops do, as functions ----

  /** The registrations named in ids changed by f, the others left. */
  function Mapped(p: Poll, ids: seq<Id>, f: (Id, Registration) -> Registration): Poll {
    p.(registrations := map id | id in p.registrations ::
         if id in ids then f(id, p.registrations[id]) else p.registrations[id])
  }

  lemma MappedStep(p: Poll, k: nat, f: (Id, Registration) -> Registration)
    requires p.Valid() && k < |p.list|
    ensures var q := Mapped(p, p.list[..k], f);
      && p.list[k] in p.registrations && p.list[k] in q.registrations
           && q.registrations[p.list[k]] == p.registrations[p.list[k]]
      && Mapped(p, p.list[..k + 1], f)
           == q.(registrations := q.registrations[p.list[k] := f(p.list[k], p.registrations[p.list[k]])])
  {
    var id := p.list[k];
    assert p.list[..k + 1] == p.list[..k] + [id];
    assert id !in p.list[..k] && id in p.registrations;
    hide Poll.Valid;
    MappedOne(p, p.list[..k], id, f);
  }

  /** One more registration changed. */
  lemma MappedOne(p: Poll, ids: seq<Id>, id: Id, f: (Id, Registration) -> Registration)
    requires id in p.registrations && id !in ids
    ensures var q := Mapped(p, ids, f);
      && id in q.registrations && q.registrations[id] == p.registrations[id]
      && Mapped(p, ids + [id], f) == q.(registrations := q.registrations[id := f(id, p.registrations[id])])
  {
    var q := Mapped(p, ids, f);
    assert Mapped(p, ids + [id], f).registrations == q.registrations[id := f(id, p.registrations[id])];
  }

  lemma MappedNone(p: Poll, f: (Id, Registration) -> Registration)
    ensures Mapped(p, p.list[..0], f) == p
  {
    assert Mapped(p, p.list[..0], f).registrations == p.registrations;
  }

  lemma MappedValid(p: Poll, ids: seq<Id>, f: (Id, Registration) -> Registration)
    requires p.Valid() && forall id, r: Registration :: r.Valid() ==> f(id, r).Valid()
    ensures Mapped(p, ids, f).Valid()
  {
  }

  /** What a scan finds at a registration's fd; a tombstone has none. */
  function Ready(r: Registration, ready: Fd -> Signals): Signals {
    if r.fd.Some? then ready(r.fd.value) else {}
  }

  function Scan(ready: Fd -> Signals, accepts: Id -> bool): (Id, Registration) -> Registration {
    (id: Id, r: Registration) => Scanned(r, Ready(r, ready), accepts(id))
  }

  function Wake(fd: Fd, events: Signals, internalOnly: bool): (Id, Registration) -> Registration {
    (id: Id, r: Registration) => if r.fd == Some(fd) then Woken(r, events, internalOnly) else r
  }

  lemma NotWoken(r: Registration, fd: Fd, events: Signals, internalOnly: bool)
    requires r.fd != Some(fd) || (internalOnly && r.kind.Guest?) || !r.enabled
    ensures forall id :: Wake(fd, events, internalOnly)(id, r) == r
  {
  }

  /** The deliveries of one scan, in list order, from position k on. */
  function Deliveries(p: Poll, k: nat, ready: Fd -> Signals, accepts: Id -> bool): seq<(Id, Signals)>
    requires p.Valid() && k <= |p.list|
  {
    if k == 0 then []
    else
      var r := p.registrations[p.list[k - 1]];
      Deliveries(p, k - 1, ready, accepts)
      + (if Delivers(r, Ready(r, ready), accepts(p.list[k - 1])) then [(p.list[k - 1], Offered(r, Ready(r, ready)))]
          else [])
  }

  lemma ScanStep(p: Poll, k: nat, ready: Fd -> Signals, accepts: Id -> bool)
    requires p.Valid() && k < |p.list|
    ensures var f, id := Scan(ready, accepts), p.list[k];
      var q := Mapped(p, p.list[..k], f);
      && id in p.registrations && id in q.registrations && q.registrations[id] == p.registrations[id]
      && var r := p.registrations[id];
      && r.Valid() && Mapped(p, p.list[..k + 1], f)
           == q.(registrations := q.registrations[id := Scanned(r, Ready(r, ready), accepts(id))])
      && Mapped(p, p.list[..k + 1], f).Valid()
      && Deliveries(p, k + 1, ready, accepts)
         == Deliveries(p, k, ready, accepts)
             + (if Delivers(r, Ready(r, ready), accepts(id)) then [(id, Offered(r, Ready(r, ready)))] else [])
  {
    hide Mapped, Offered;
    var f := Scan(ready, accepts);
    MappedStep(p, k, f);
    forall id: Id, r: Registration | r.Valid()
      ensures f(id, r).Valid()
    {
      assert f(id, r) == Scanned(r, Ready(r, ready), accepts(id));
    }
    MappedValid(p, p.list[..k + 1], f);
  }

  lemma NoDeliveries(p: Poll, ready: Fd -> Signals, accepts: Id -> bool)
    requires p.Valid()
    ensures Deliveries(p, 0, ready, accepts) == []
  {
  }

  /** poll_cleanup_fd over the registrations named in ids. */
  function Cleaned(p: Poll, ids: seq<Id>, fd: Fd): (q: Poll)
    requires p.Valid()
    ensures q.Valid() && q.Allocated() == p.Allocated() && q.destroying == p.destroying
    decreases |ids|
  {
    if ids == [] then p
    else Cleaned(CleanedOne(p, ids[0], fd), ids[1..], fd)
  }

  function CleanedOne(p: Poll, id: Id, fd: Fd): (q: Poll)
    requires p.Valid()
    ensures q.Valid() && q.Allocated() == p.Allocated() && q.destroying == p.destroying
  {
    if !Holds(p, id, fd) then p
    else if p.registrations[id].kind.WakeOnly? then Replaced(p, id, Tombstone(p.registrations[id]))
    else Removed(p, id)
  }

  /** After the final close nothing refers to the fd: a wake-only registration waits as a
      tombstone to deliver a hangup, any other is gone, and those of other fds are as they were. */
  lemma {:induction false} CleanedMeaning(p: Poll, ids: seq<Id>, fd: Fd, id: Id)
    requires p.Valid()
    ensures var q := Cleaned(p, ids, fd);
      && (id in ids && Holds(p, id, fd) ==>
            if p.registrations[id].kind.WakeOnly?
            then id in q.registrations && q.registrations[id] == Tombstone(p.registrations[id])
            else id !in q.registrations && id in q.free)
      && (!(id in ids && Holds(p, id, fd)) ==>
            (id in q.registrations <==> id in p.registrations)
                && (id in p.registrations ==> q.registrations[id] == p.registrations[id]))
    decreases |ids|
  {
    if ids != [] {
      var m := CleanedOne(p, ids[0], fd);
      CleanedOneMeaning(p, ids[0], fd, id);
      hide CleanedOne;
      CleanedMeaning(m, ids[1..], fd, id);
      if ids[0] == id && Holds(p, id, fd) {
        CleanedLeaves(m, ids[1..], fd, id);
      }
    }
  }

  lemma CleanedOneMeaning(p: Poll, x: Id, fd: Fd, id: Id)
    requires p.Valid()
    ensures var q := CleanedOne(p, x, fd);
      && (id == x && Holds(p, id, fd) ==>
            if p.registrations[id].kind.WakeOnly?
            then id in q.registrations && q.registrations[id] == Tombstone(p.registrations[id])
            else id !in q.registrations && id in q.free)
      && (!(id == x && Holds(p, id, fd)) ==>
            (id in q.registrations <==> id in p.registrations)
                && (id in p.registrations ==> q.registrations[id] == p.registrations[id]))
  {
  }

  lemma {:induction false} CleanedLeaves(p: Poll, ids: seq<Id>, fd: Fd, id: Id)
    requires p.Valid() && !Holds(p, id, fd)
    ensures var q := Cleaned(p, ids, fd);
      && (id in q.registrations <==> id in p.registrations)
      && (id in p.registrations ==> q.registrations[id] == p.registrations[id])
      && (id in p.free ==> id in q.free)
    decreases |ids|
  {
    if ids != [] {
      CleanedLeaves(CleanedOne(p, ids[0], fd), ids[1..], fd, id);
    }
  }

  /** The host events a waiter brings back; a registration on the freelist is passed over. */
  function Seen(p: Poll, events: seq<(Option<Id>, Signals)>): (q: Poll)
    requires p.Valid()
    ensures q.Valid()
    decreases |events|
  {
    if events == [] then p else Seen(SeenOne(p, events[0].0, events[0].1), events[1..])
  }

  function SeenOne(p: Poll, id: Option<Id>, events: Signals): (q: Poll)
    requires p.Valid()
    ensures q.Valid() && q.Allocated() == p.Allocated()
  {
    if id.Some? && id.value in p.registrations
      then Replaced(p, id.value, HostSeen(p.registrations[id.value], events)) else p
  }

  lemma FreeValid(p: Poll, id: Id)
    requires p.Valid() && if p.free != {} then id in p.free else id !in p.Allocated()
    ensures p.(free := p.free + {id}).Valid() && id !in p.registrations
  {
  }
}
