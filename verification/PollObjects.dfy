/** The operations of fs/poll.c on one poll, in place, under its lock. */
module PollObjects {
  import opened Options
  import opened Polls
  import opened PollSet
  import opened PollRuns

  class PollObject {
    var list: seq<Id>
    var registrations: map<Id, Registration>
    var free: set<Id>
    var destroying: bool
    var waiters: nat
    var exclusive: bool
    var pipe: nat             // unread bytes in the notify pipe

    ghost function View(): Poll
      reads this
    {
      Poll(list, registrations, free, destroying)
    }

    ghost predicate Valid()
      reads this
    {
      && View().Valid()
      && (exclusive ==> waiters == 1)
    }

    constructor ()
      ensures Valid() && View() == Poll([], map[], {}, false) && waiters == 0
    {
      list, registrations, free, destroying, waiters, exclusive, pipe := [], map[], {}, false, 0, false, 0;
    }

    /** poll_find_fd */
    method FindFd(fd: Fd) returns (id: Option<Id>)
      requires Valid()
      ensures id == Find(View(), fd, 0)
    {
      var k := 0;
      while k < |list|
        invariant 0 <= k <= |list| && Find(View(), fd, 0) == Find(View(), fd, k)
      {
        if registrations[list[k]].fd == Some(fd) {
          return Some(list[k]);
        }
        k := k + 1;
      }
      id := None;
    }

    /** poll_notify_waiters_locked */
    method Notify()
      requires Valid()
      modifies this`pipe
      ensures Valid() && pipe == if waiters > 0 then Written(old(pipe)) else old(pipe)
    {
      if waiters > 0 && pipe < PIPE_SIZE {
        pipe := pipe + 1;
      }
    }

    /** poll_add_fd_impl. The object comes off the freelist when there is one, else from
        malloc; host says the fd has a host fd, and updates that the host backend takes it. */
    method Add(fd: Fd, interest: Interest, info: nat, kind: Kind, unique: bool, id: Id, memory: bool, host: bool,
        updates: bool) returns (out: Outcome)
      requires Valid() && if free != {} then id in free else id !in View().Allocated()
      modifies this
      ensures Valid() && waiters == old(waiters)
      ensures
        if old(destroying) then out == Failed(EBADF) && View() == old(View())
        else if unique && old(Find(View(), fd, 0)).Some? then out == Failed(EEXIST) && View() == old(View())
        else if old(free) == {} && !memory then out == Failed(ENOMEM) && View() == old(View())
        else if !kind.WakeOnly? && host && !updates
          then out == Failed(EHOST) && View() == old(View()).(free := old(free) + {id})
        else
          out == Done && View() == Inserted(old(View()), id, Fresh(fd, interest, info, kind))
          && (waiters > 0 ==> pipe > 0)
    {
      hide Poll.Valid;
      FreeValid(View(), id);
      if destroying {
        return Failed(EBADF);
      }
      if unique {
        var there := FindFd(fd);
        if there.Some? {
          return Failed(EEXIST);
        }
      }
      if free == {} && !memory {
        return Failed(ENOMEM);
      }
      free := free - {id};
      if !kind.WakeOnly? && host && !updates {
        free := free + {id};
        assert old(free) != {} ==> free == old(free);
        assert free == old(free) + {id};
        return Failed(EHOST);
      }
      list, registrations := [id] + list, registrations[id := Fresh(fd, interest, info, kind)];
      assert View() == Inserted(old(View()), id, Fresh(fd, interest, info, kind));
      Notify();
      out := Done;
    }

    /** poll_mod_fd */
    method Mod(fd: Fd, interest: Interest, info: nat, host: bool, updates: bool) returns (out: Outcome)
      requires Valid()
      modifies this
      ensures Valid() && waiters == old(waiters)
      ensures
        if old(destroying) then out == Failed(EBADF) && View() == old(View())
        else match old(Find(View(), fd, 0))
          case None => out == Failed(ENOENT) && View() == old(View())
          case Some(id) =>
            if !old(registrations[id]).kind.WakeOnly? && host && !updates
              then out == Failed(EHOST) && View() == old(View())
            else
              out == Done && View() == Replaced(old(View()), id, Modified(old(registrations[id]), interest, info))
              && (waiters > 0 ==> pipe > 0)
    {
      if destroying {
        return Failed(EBADF);
      }
      var there := FindFd(fd);
      if there == None {
        return Failed(ENOENT);
      }
      var id := there.value;
      if !registrations[id].kind.WakeOnly? && host && !updates {
        return Failed(EHOST);
      }
      registrations := registrations[id := Modified(registrations[id], interest, info)];
      assert View() == Replaced(old(View()), id, Modified(old(registrations[id]), interest, info));
      Notify();
      out := Done;
    }

    /** poll_del_fd */
    method Del(fd: Fd, host: bool, updates: bool) returns (out: Outcome)
      requires Valid()
      modifies this
      ensures Valid() && waiters == old(waiters)
      ensures
        if old(destroying) then out == Failed(EBADF) && View() == old(View())
        else match old(Find(View(), fd, 0))
          case None => out == Failed(ENOENT) && View() == old(View())
          case Some(id) =>
            if !old(registrations[id]).kind.WakeOnly? && old(registrations[id]).enabled && host && !updates
              then out == Failed(EHOST) && View() == old(View())
            else out == Done && View() == Removed(old(View()), id)
    {
      if destroying {
        return Failed(EBADF);
      }
      var there := FindFd(fd);
      if there == None {
        return Failed(ENOENT);
      }
      var id := there.value;
      if !registrations[id].kind.WakeOnly? && registrations[id].enabled && host && !updates {
        return Failed(EHOST);
      }
      list, registrations, free := Without(list, id), registrations - {id}, free + {id};
      assert View() == Removed(old(View()), id);
      out := Done;
    }

    /** poll_wakeup_impl, over this poll's registrations of the fd. */
    method Wakeup(fd: Fd, events: Signals, internalOnly: bool)
      requires Valid()
      modifies this`registrations, this`pipe
      ensures Valid() && View() == Mapped(old(View()), list, Wake(fd, events, internalOnly))
      ensures waiters > 0 && View() != old(View()) ==> pipe > 0
    {
      hide Mapped, Woken, Poll.Valid;
      ghost var f := Wake(fd, events, internalOnly);
      var k := 0;
      MappedNone(View(), f);
      while k < |list|
        invariant 0 <= k <= |list| && Valid()
        invariant View() == Mapped(old(View()), list[..k], f)
        invariant waiters > 0 && View() != old(View()) ==> pipe > 0
      {
        MappedStep(old(View()), k, f);
        MappedValid(old(View()), list[..k + 1], f);
        var id := list[k];
        var r := registrations[id];
        if r.fd == Some(fd) && !(internalOnly && r.kind.Guest?) && r.enabled {
          registrations := registrations[id := Woken(r, events, internalOnly)];
          Notify();
        } else {
          NotWoken(r, fd, events, internalOnly);
          assert registrations[id := r] == registrations;
        }
        k := k + 1;
      }
      assert list[..k] == list;
    }

    /** The scan of poll_wait_deadline: the registrations once it has passed them, and what
        it delivered. It looks at an fd only where there is one. */
    method ScanAll(ready: Fd -> Signals, accepts: Id -> bool) returns (delivered: seq<(Id, Signals)>)
      requires Valid()
      modifies this`registrations
      ensures Valid() && View() == Mapped(old(View()), list, Scan(ready, accepts))
      ensures delivered == Deliveries(old(View()), |list|, ready, accepts)
    {
      hide Mapped, Deliveries, Scanned, Offered, Taken, Poll.Valid;
      ghost var f := Scan(ready, accepts);
      var k := 0;
      delivered := [];
      MappedNone(View(), f);
      NoDeliveries(View(), ready, accepts);
      while k < |list|
        invariant 0 <= k <= |list| && Valid()
        invariant View() == Mapped(old(View()), list[..k], f)
        invariant delivered == Deliveries(old(View()), k, ready, accepts)
      {
        ScanStep(old(View()), k, ready, accepts);
        var id := list[k];
        var found, q := ScanOne(registrations[id], ready, accepts(id));
        registrations := registrations[id := q];
        if found != {} && accepts(id) {
          delivered := delivered + [(id, found)];
        }
        k := k + 1;
      }
      assert list[..k] == list;
    }

    /** One turn of the scan: what is offered, and the registration after it. */
    method ScanOne(r: Registration, ready: Fd -> Signals, accepts: bool) returns (found: Signals, q: Registration)
      requires r.Valid()
      ensures found == Offered(r, Ready(r, ready)) && q == Scanned(r, Ready(r, ready), accepts)
    {
      if !r.enabled {
        return {}, r;
      }
      found := r.forced;
      if !r.kind.WakeOnly? {
        found := found + ready(r.fd.value);
      }
      found := found * r.Mask();
      if r.interest.edge {
        found := found - r.triggered;
      }
      q := r;
      if found != {} && accepts {
        if !r.kind.Guest? {
          q := q.(forced := q.forced - found);
        }
        if r.interest.oneshot {
          q := q.(enabled := false);
        }
        if r.interest.edge {
          q := q.(triggered := q.triggered + found);
        }
      }
    }

    /** poll_cleanup_fd, over this poll's registrations of the fd. */
    method Cleanup(fd: Fd)
      requires Valid()
      modifies this
      ensures Valid() && View() == Cleaned(old(View()), old(list), fd) && waiters == old(waiters)
          && exclusive == old(exclusive)
    {
      hide CleanedOne;
      var ids := list;
      var k := 0;
      assert ids[0..] == ids;
      while k < |ids|
        invariant 0 <= k <= |ids| && Valid() && waiters == old(waiters) && exclusive == old(exclusive)
        invariant Cleaned(View(), ids[k..], fd) == Cleaned(old(View()), ids, fd)
      {
        assert ids[k..][0] == ids[k] && ids[k..][1..] == ids[k + 1..];
        CleanOne(ids[k], fd);
        k := k + 1;
      }
    }

    method CleanOne(id: Id, fd: Fd)
      requires Valid()
      modifies this
      ensures Valid() && View() == CleanedOne(old(View()), id, fd) && waiters == old(waiters)
          && exclusive == old(exclusive)
      ensures Holds(old(View()), id, fd) && old(registrations)[id].kind.WakeOnly? && waiters > 0 ==> pipe > 0
    {
      if id in registrations && registrations[id].fd == Some(fd) {
        if registrations[id].kind.WakeOnly? {
          registrations := registrations[id := Tombstone(registrations[id])];
          assert View() == Replaced(old(View()), id, Tombstone(old(registrations)[id]));
          Notify();
        } else {
          list, registrations, free := Without(list, id), registrations - {id}, free + {id};
          assert View() == Removed(old(View()), id);
        }
      }
    }

    /** The host events brought back by a waiter. None of their pointers dangles. */
    method HostEvents(events: seq<(Option<Id>, Signals)>)
      requires Valid() && forall i :: 0 <= i < |events| && events[i].0.Some? ==> events[i].0.value in View().Allocated()
      modifies this`registrations
      ensures Valid() && View() == Seen(old(View()), events)
    {
      hide SeenOne;
      var k := 0;
      assert events[0..] == events;
      while k < |events|
        invariant 0 <= k <= |events| && Valid() && View().Allocated() == old(View()).Allocated()
        invariant Seen(View(), events[k..]) == Seen(old(View()), events)
      {
        assert events[k..][0] == events[k] && events[k..][1..] == events[k + 1..];
        SeeOne(events[k].0, events[k].1);
        k := k + 1;
      }
    }

    method SeeOne(id: Option<Id>, events: Signals)
      requires Valid() && (id.Some? ==> id.value in View().Allocated())
      modifies this`registrations
      ensures Valid() && View() == SeenOne(old(View()), id, events)
    {
      if id.Some? && id.value in registrations {
        var r := registrations[id.value];
        if r.enabled && r.interest.edge {
          registrations := registrations[id.value := r.(triggered := r.triggered - events)];
        } else {
          assert registrations[id.value := r] == registrations;
        }
        assert View() == Replaced(old(View()), id.value, HostSeen(r, events));
      }
    }

    /** The object in a state of PollRuns. */
    ghost predicate Shows(s: State)
      reads this
    {
      View() == s.poll && waiters == |s.waiters| && exclusive == s.exclusive && pipe == s.pipe
    }

    /** The start of poll_wait_deadline: the step by which a thread becomes a waiter, refused
        exactly where that step is not possible or the host has no pipe for the first waiter. */
    method BeginWait(ghost s: State, t: Thread, signalSafe: bool, host: bool) returns (out: Outcome)
      requires Valid() && Sound(s) && Shows(s) && !s.gone && t !in s.waiters
      modifies this
      ensures Valid()
      ensures out.Done? <==> Enabled(s, PollRuns.BeginWait(t, signalSafe)) && (s.waiters == map[] ==> host)
      ensures if out.Done? then Shows(Next(s, PollRuns.BeginWait(t, signalSafe))) else Shows(s)
      ensures out == Failed(EBADF) <==> s.poll.destroying
    {
      CountWaiters(s, t);
      if destroying {
        return Failed(EBADF);
      }
      if exclusive || (signalSafe && waiters != 0) {
        return Failed(EBUSY);
      }
      if signalSafe {
        exclusive := true;
      }
      waiters := waiters + 1;
      if waiters == 1 {
        if !host {
          waiters, exclusive := waiters - 1, false;
          return Failed(EHOST);
        }
        pipe := 0;
      }
      out := Done;
    }

    /** poll_wait_deadline back from the host with events: it applies them and takes a byte. */
    method Return(ghost s: State, t: Thread, events: seq<(Option<Id>, Signals)>)
      requires Valid() && Sound(s) && Shows(s) && t in s.waiters && s.waiters[t] == Returned(events)
      modifies this`registrations, this`pipe
      ensures Valid() && Shows(Next(s, HostLooked(t)))
    {
      if destroying {
        KeepsCount(s, t);
        return;
      }
      KeepsCount(s, t);
      HostEvents(events);
      if pipe > 0 {
        pipe := pipe - 1;
      }
    }

    /** The end of poll_wait_deadline: the step by which a waiter leaves. The destroyer is told
        exactly when that is what it waits for, after which it may free every registration
        that no lock holder is on its way to. */
    method EndWait(ghost s: State, t: Thread) returns (drained: bool)
      requires Valid() && Sound(s) && Shows(s) && t in s.waiters
      modifies this
      ensures Valid() && Shows(Next(s, PollRuns.EndWait(t)))
      ensures drained <==> destroying && Next(s, PollRuns.EndWait(t)).waiters == map[]
      ensures drained ==> forall id ::
          id in registrations && (registrations[id].fd.Some? ==> registrations[id].fd.value !in s.holds) ==>
                Enabled(Next(s, PollRuns.EndWait(t)), DestroyOne(id))
    {
      LeavesCount(s, t);
      LastLeaves(s, t);
      hide Poll.Valid;
      if exclusive {
        exclusive := false;
      }
      waiters := waiters - 1;
      drained := waiters == 0 && destroying;
    }
  }

  lemma LastLeaves(s: State, t: Thread)
    requires Sound(s) && t in s.waiters
    ensures var r := Next(s, PollRuns.EndWait(t));
      r.poll.destroying && r.waiters == map[] ==>
        forall id | id in r.poll.registrations ::
          (r.poll.registrations[id].fd.Some? ==> r.poll.registrations[id].fd.value !in r.holds)
          ==> Enabled(r, DestroyOne(id))
    ensures var r := Next(s, PollRuns.EndWait(t)); r.poll == s.poll && r.holds == s.holds
  {
    hide Sound;
  }

  lemma CountWaiters(s: State, t: Thread)
    requires t !in s.waiters
    ensures |s.waiters| == 0 <==> s.waiters == map[]
    ensures |s.waiters[t := Awake]| == |s.waiters| + 1
  {
    assert s.waiters[t := Awake].Keys == s.waiters.Keys + {t};
    assert |s.waiters.Keys| == |s.waiters| && |s.waiters[t := Awake].Keys| == |s.waiters[t := Awake]|;
    if |s.waiters| == 0 {
      assert s.waiters.Keys == {};
    }
  }

  lemma KeepsCount(s: State, t: Thread)
    requires t in s.waiters
    ensures |s.waiters[t := Awake]| == |s.waiters|
  {
    assert s.waiters[t := Awake].Keys == s.waiters.Keys;
    assert |s.waiters.Keys| == |s.waiters| && |s.waiters[t := Awake].Keys| == |s.waiters[t := Awake]|;
  }

  lemma LeavesCount(s: State, t: Thread)
    requires t in s.waiters
    ensures |s.waiters - {t}| == |s.waiters| - 1
    ensures |s.waiters| == 1 <==> s.waiters - {t} == map[]
  {
    var rest := s.waiters - {t};
    assert s.waiters.Keys == rest.Keys + {t};
    assert |s.waiters.Keys| == |s.waiters| && |rest.Keys| == |rest|;
    if |rest| == 0 {
      assert rest.Keys == {};
    }
  }
}
