/** What each step of fs/poll.c does to what the next scan will offer, event by event. */
module PollLaws {
  import opened Options
  import opened Polls
  import opened PollSet
  import opened PollRuns
  import opened PollDeliveries

  /** Errors and hangups are always asked for. */
  predicate Asked(r: Registration, b: Signal) {
    b in r.interest.types || b == Err || b == Hup
  }

  /** What the registration was made with and who it is for. */
  predicate SameTerms(q: Registration, r: Registration) {
    q.interest == r.interest && q.info == r.info && q.kind == r.kind
  }

  /** A scan offers what is asked for and is either pending or found at the fd, unless it has
      been delivered on the edge; and a disarmed registration offers nothing. */
  lemma OfferedIff(r: Registration, ready: Signals, b: Signal)
    ensures b in Offered(r, ready) <==>
            && r.enabled && Asked(r, b) && !(r.interest.edge && b in r.triggered)
            && (b in r.forced || (b in ready && !r.kind.WakeOnly?))
  {
  }

  /** ADD and MOD start afresh: whatever is asked for now and found at the fd is offered,
      nothing is left pending, and no edge is closed. */
  lemma ArmsOffers(s: State, e: Event, id: Id, ready: Signals, b: Signal)
    requires Sound(s) && Enabled(s, e) && Arms(e, id)
    ensures id in Next(s, e).poll.registrations
    ensures var q := Next(s, e).poll.registrations[id];
      && q.fd == Some(e.fd) && q.interest == e.interest && q.info == e.info
      && q.kind == (if e.Add? then e.kind else s.poll.registrations[id].kind)
      && (b in Offered(q, ready) <==> Asked(q, b) && b in ready && !q.kind.WakeOnly?)
  {
    hide Next, Sound, Enabled, Offered;
    if e.Add? {
      NextAdded(s, e);
    } else {
      NextModified(s, e);
    }
    AfreshOffers(Next(s, e).poll.registrations[id], ready, b);
  }

  lemma AfreshOffers(q: Registration, ready: Signals, b: Signal)
    requires q.enabled && q.forced == {} && q.triggered == {}
    ensures b in Offered(q, ready) <==> Asked(q, b) && b in ready && !q.kind.WakeOnly?
  {
  }

  lemma NextModified(s: State, e: Event)
    requires Sound(s) && Enabled(s, e) && e.Mod?
    ensures e.id in s.poll.registrations && Holds(s.poll, e.id, e.fd) && e.id in Next(s, e).poll.registrations
    ensures Next(s, e).poll.registrations[e.id] == Modified(s.poll.registrations[e.id], e.interest, e.info)
  {
    hide Sound, PipeAfter, Modified;
  }

  lemma NextAdded(s: State, e: Event)
    requires Sound(s) && Enabled(s, e) && e.Add?
    ensures e.id in Next(s, e).poll.registrations
    ensures Next(s, e).poll.registrations[e.id] == Fresh(e.fd, e.interest, e.info, e.kind)
  {
    hide Sound, Fresh;
  }

  /** A wakeup, of the armed registrations that listen to it, opens the edges of its events and
      makes them pending, at a guest registration only as far as the fd is ready for them. An
      internal one leaves the edges. */
  lemma WakeOffers(s: State, fd: Fd, events: Signals, internalOnly: bool, ready: Signals, b: Signal)
    requires Sound(s) && Enabled(s, WakeAt(fd, events, internalOnly))
    ensures s.holds[fd] in s.poll.registrations
    ensures s.holds[fd] in Next(s, WakeAt(fd, events, internalOnly)).poll.registrations
    ensures var r := s.poll.registrations[s.holds[fd]];
      var q := Next(s, WakeAt(fd, events, internalOnly)).poll.registrations[s.holds[fd]];
      && SameTerms(q, r) && q.fd == r.fd && q.enabled == r.enabled
      && (b in q.forced <==> b in r.forced || (r.enabled && !r.kind.Guest? && b in events && Asked(r, b)))
      && (b in Offered(q, ready) <==>
            || b in Offered(r, ready)
            || (&& r.enabled && b in events && Asked(r, b)
                && if internalOnly then !r.kind.Guest? && !(r.interest.edge && b in r.triggered)
                   else r.kind.Guest? ==> b in ready))
  {
    assert Holds(s.poll, s.holds[fd], fd);
    var r := s.poll.registrations[s.holds[fd]];
    NextAt(s, WakeAt(fd, events, internalOnly), s.holds[fd], Woken(r, events, internalOnly));
    hide Next, Sound, Enabled;
    WokenOffers(r, events, internalOnly, ready, b);
  }

  lemma WokenOffers(r: Registration, events: Signals, internalOnly: bool, ready: Signals, b: Signal)
    requires r.Valid()
    ensures var q := Woken(r, events, internalOnly);
      && SameTerms(q, r) && q.fd == r.fd && q.enabled == r.enabled
      && (b in q.forced <==> b in r.forced || (r.enabled && !r.kind.Guest? && b in events && Asked(r, b)))
      && (b in Offered(q, ready) <==>
            || b in Offered(r, ready)
            || (&& r.enabled && b in events && Asked(r, b)
                && if internalOnly then !r.kind.Guest? && !(r.interest.edge && b in r.triggered)
                   else r.kind.Guest? ==> b in ready))
  {
  }

  /** The steps that put one registration in the place of another. */
  lemma NextAt(s: State, e: Event, id: Id, q: Registration)
    requires Sound(s) && Enabled(s, e) && id in s.poll.registrations
    requires match e
      case WakeAt(fd, events, internalOnly) =>
        s.holds[fd] == id && q == Woken(s.poll.registrations[id], events, internalOnly)
      case RearmAt(fd, updates) => s.holds[fd] == id && q == Rearmed(s.poll, s.poll.registrations[id], updates)
      case ScanAt(_, x, ready, accepts) => x == id && q == Scanned(s.poll.registrations[id], ready, accepts)
      case _ => false
    ensures id in Next(s, e).poll.registrations && Next(s, e).poll.registrations[id] == q
  {
    hide Sound, PipeAfter, Modified, Woken, Rearmed, Scanned;
  }

  /** A rearm of an fd that the host polls opens all edges. */
  lemma RearmOffers(s: State, fd: Fd, updates: bool, ready: Signals, b: Signal)
    requires Sound(s) && Enabled(s, RearmAt(fd, updates))
    ensures s.holds[fd] in s.poll.registrations && s.holds[fd] in Next(s, RearmAt(fd, updates)).poll.registrations
    ensures var r, q := s.poll.registrations[s.holds[fd]],
        Next(s, RearmAt(fd, updates)).poll.registrations[s.holds[fd]];
      && SameTerms(q, r) && q.fd == r.fd && q.enabled == r.enabled && q.forced == r.forced
      && (b in Offered(q, ready) <==>
            if updates && !s.poll.destroying && !r.kind.WakeOnly?
            then r.enabled && Asked(r, b) && (b in r.forced || b in ready)
            else b in Offered(r, ready))
  {
    assert Holds(s.poll, s.holds[fd], fd);
    var r := s.poll.registrations[s.holds[fd]];
    NextAt(s, RearmAt(fd, updates), s.holds[fd], Rearmed(s.poll, r, updates));
    RearmedOffers(s.poll, r, updates, ready, b);
    hide Next, Sound, Enabled, Offered, Rearmed;
  }

  lemma RearmedOffers(p: Poll, r: Registration, updates: bool, ready: Signals, b: Signal)
    ensures var q := Rearmed(p, r, updates);
      && SameTerms(q, r) && q.fd == r.fd && q.enabled == r.enabled && q.forced == r.forced
      && (b in Offered(q, ready) <==>
            if updates && !p.destroying && !r.kind.WakeOnly?
            then r.enabled && Asked(r, b) && (b in r.forced || b in ready)
            else b in Offered(r, ready))
  {
  }

  lemma {:induction false} SeenIff(p: Poll, events: seq<(Option<Id>, Signals)>, id: Id, b: Signal)
    requires p.Valid() && id in p.registrations
    ensures id in Seen(p, events).registrations
    ensures var r, q := p.registrations[id], Seen(p, events).registrations[id];
      && q == r.(triggered := q.triggered)
      && (b in q.triggered <==> b in r.triggered && !(r.enabled && r.interest.edge && InEvents(events, id, b)))
    decreases |events|
  {
    if events != [] {
      var m := SeenOne(p, events[0].0, events[0].1);
      SeenOneKeeps(p, events[0].0, events[0].1, id);
      SeenIff(m, events[1..], id, b);
      InEventsCons(events, id, b);
      hide Poll.Valid, InEvents;
    }
  }

  lemma InEventsCons(events: seq<(Option<Id>, Signals)>, id: Id, b: Signal)
    requires events != []
    ensures InEvents(events, id, b) <==> (events[0].0 == Some(id) && b in events[0].1) || InEvents(events[1..], id, b)
  {
    if InEvents(events[1..], id, b) {
      var i :| 0 <= i < |events[1..]| && events[1..][i].0 == Some(id) && b in events[1..][i].1;
      assert events[i + 1] == events[1..][i];
    }
    if InEvents(events, id, b) {
      var i :| 0 <= i < |events| && events[i].0 == Some(id) && b in events[i].1;
      assert i > 0 ==> events[1..][i - 1] == events[i];
    }
  }

  /** A host event opens the edges it is about, of the registrations it names. */
  lemma HostOffers(s: State, t: Thread, id: Id, ready: Signals, b: Signal)
    requires Sound(s) && Enabled(s, HostLooked(t)) && id in s.poll.registrations
    ensures id in Next(s, HostLooked(t)).poll.registrations
    ensures var r, q := s.poll.registrations[id], Next(s, HostLooked(t)).poll.registrations[id];
      && SameTerms(q, r) && q.fd == r.fd && q.enabled == r.enabled && q.forced == r.forced
      && (b in Offered(q, ready) <==>
            || b in Offered(r, ready)
            || (&& !s.poll.destroying && InEvents(s.waiters[t].events, id, b)
                && r.enabled && Asked(r, b) && (b in r.forced || (b in ready && !r.kind.WakeOnly?))))
  {
    var events := s.waiters[t].events;
    SeenIff(s.poll, events, id, b);
    NextSeen(s, t);
    hide Next, Seen, InEvents, Sound, Enabled, Poll.Valid, Offered;
    var r, q := s.poll.registrations[id], Next(s, HostLooked(t)).poll.registrations[id];
    if s.poll.destroying {
      assert q == r;
    } else {
      OpenedOffers(r, q, InEvents(events, id, b), ready, b);
    }
  }

  lemma OpenedOffers(r: Registration, q: Registration, opens: bool, ready: Signals, b: Signal)
    requires q == r.(triggered := q.triggered)
    requires b in q.triggered <==> b in r.triggered && !(r.enabled && r.interest.edge && opens)
    ensures b in Offered(q, ready) <==>
            || b in Offered(r, ready)
            || (opens && r.enabled && Asked(r, b) && (b in r.forced || (b in ready && !r.kind.WakeOnly?)))
  {
  }

  lemma NextSeen(s: State, t: Thread)
    requires Sound(s) && Enabled(s, HostLooked(t))
    ensures Next(s, HostLooked(t)).poll == if s.poll.destroying then s.poll else Seen(s.poll, s.waiters[t].events)
  {
  }

  /** After a scan that delivered, an event it did not offer is as it was; one it did offer is
      offered again exactly while the fd is ready for it, and not on the edge; and a one-shot
      offers nothing more. A scan that delivered nothing changes nothing. */
  lemma ScanOffers(s: State, e: Event, ready: Signals, b: Signal)
    requires Sound(s) && e.ScanAt? && Enabled(s, e)
    ensures e.id in Next(s, e).poll.registrations
    ensures var r, q, delivered := s.poll.registrations[e.id], Next(s, e).poll.registrations[e.id],
        DeliveredAt(s, e, e.id);
      && delivered == (if e.accepts then Offered(r, e.ready) else {})
      && (delivered == {} ==> q == r)
      && (delivered != {} ==>
            && SameTerms(q, r) && q.fd == r.fd
            && (b in Offered(q, ready) <==>
                  && !r.interest.oneshot
                  && if b in delivered then b in ready && !r.interest.edge && !r.kind.WakeOnly?
                     else b in Offered(r, ready)))
  {
    var r := s.poll.registrations[e.id];
    assert r.Valid();
    NextAt(s, e, e.id, Scanned(r, e.ready, e.accepts));
    hide Next, Sound, Enabled;
  }

  /** The final close leaves to a wake-only registration what it had, and the hangup. */
  lemma CloseOffers(s: State, fd: Fd, ready: Signals, b: Signal)
    requires Sound(s) && Enabled(s, CleanAt(fd))
    ensures s.holds[fd] in s.poll.registrations
    ensures var id, r := s.holds[fd], s.poll.registrations[s.holds[fd]];
      var after := Next(s, CleanAt(fd)).poll.registrations;
      && (id in after <==> r.kind.WakeOnly?)
      && (id in after ==>
            && SameTerms(after[id], r) && after[id].fd == None && after[id].enabled == r.enabled
            && (b in Offered(after[id], ready) <==>
                  || b in Offered(r, ready)
                  || (b == Hup && r.enabled && !(r.interest.edge && Hup in r.triggered))))
  {
    assert Holds(s.poll, s.holds[fd], fd);
    NextCleaned(s, fd);
    hide Next, Sound, Enabled, CleanedOne;
    var r := s.poll.registrations[s.holds[fd]];
    if r.kind.WakeOnly? {
      TombstoneOffers(r, ready, b);
    }
  }

  lemma NextCleaned(s: State, fd: Fd)
    requires Sound(s) && Enabled(s, CleanAt(fd)) && Holds(s.poll, s.holds[fd], fd)
    ensures var id := s.holds[fd];
      var r, after := s.poll.registrations[id], Next(s, CleanAt(fd)).poll.registrations;
      (id in after <==> r.kind.WakeOnly?) && (id in after ==> after[id] == Tombstone(r))
  {
    hide Sound, Without, Tombstone;
  }

  lemma TombstoneOffers(r: Registration, ready: Signals, b: Signal)
    requires r.kind.WakeOnly?
    ensures b in Offered(Tombstone(r), ready) <==>
            b in Offered(r, ready) || (b == Hup && r.enabled && !(r.interest.edge && Hup in r.triggered))
  {
  }

  /** Only ADD and MOD change what a registration asks for and the caller's word with it. */
  lemma TermsStay(s: State, e: Event, id: Id)
    requires Sound(s) && Enabled(s, e) && !Arms(e, id)
    requires id in s.poll.registrations && id in Next(s, e).poll.registrations
    ensures SameTerms(Next(s, e).poll.registrations[id], s.poll.registrations[id])
  {
    hide Offered, Next, Sound, DeliveredAt;
    if !Touches(s, e, id) {
      Untouched(s, e, id);
    } else {
      match e
      case WakeAt(fd, events, internalOnly) => WakeOffers(s, fd, events, internalOnly, {}, Hup);
      case RearmAt(fd, updates) => RearmOffers(s, fd, updates, {}, Hup);
      case CleanAt(fd) => CloseOffers(s, fd, {}, Hup);
      case HostLooked(t) => HostOffers(s, t, id, {}, Hup);
      case ScanAt(_, _, _, _) => ScanOffers(s, e, {}, Hup);
      case Del(_, _) => NextWithout(s, e);
      case DestroyOne(_) => NextWithout(s, e);
    }
  }

  lemma NextWithout(s: State, e: Event)
    requires Sound(s) && Enabled(s, e) && (e.Del? || e.DestroyOne?)
    ensures e.id !in Next(s, e).poll.registrations
  {
    hide Sound, Without;
  }

  /** Where each waiter is after a step: at work from the beginning, in the host while it sleeps,
      back with what the host brought, at work again once it has looked or there was nothing, and
      gone at the end; no step moves another thread. */
  lemma WaitersEffect(s: State, e: Event, t: Thread)
    requires Sound(s) && Enabled(s, e)
    ensures var r := Next(s, e);
      var own := (e.BeginWait? || e.Sleep? || e.HostReturns? || e.HostIdle? || e.HostLooked?) && e.thread == t;
      && (t in r.waiters <==> own || (t in s.waiters && e != EndWait(t)))
      && (t in r.waiters ==>
            r.waiters[t] == if !own then s.waiters[t]
                            else if e.Sleep? then Asleep
                            else if e.HostReturns? then Returned(e.brought)
                            else Awake)
  {
    hide Sound;
  }

  /** The freelist: an object that an add or a removal does not use any more goes on it, an add
      takes one off, and no other step touches it before the end. */
  lemma FreelistEffect(s: State, e: Event)
    requires Sound(s) && Enabled(s, e)
    ensures var p, q := s.poll, Next(s, e).poll;
      match e
      case Add(id, _, _, _, _) => q.free == p.free - {id}
      case AddRefused(id) => q == p.(free := p.free + {id})
      case Del(id, _) => q.free == p.free + {id}
      case CleanAt(fd) =>
        && s.holds[fd] in p.registrations
        && q.free == if p.registrations[s.holds[fd]].kind.WakeOnly? then p.free else p.free + {s.holds[fd]}
      case DestroyEnd => q.free == {}
      case _ => q.free == p.free
  {
    hide Sound, Next, Enabled;
    if e.CleanAt? {
      CleanedFree(s, e.fd);
    } else if e.HostLooked? {
      SeenFree(s, e.thread);
    } else {
      StepFree(s, e);
    }
  }

  lemma SeenFree(s: State, t: Thread)
    requires Sound(s) && Enabled(s, HostLooked(t))
    ensures Next(s, HostLooked(t)).poll.free == s.poll.free
  {
    NextSeen(s, t);
    SeenKeeps(s.poll, s.waiters[t].events, 0);
    hide Seen, Next;
  }

  lemma CleanedFree(s: State, fd: Fd)
    requires Sound(s) && Enabled(s, CleanAt(fd))
    ensures s.holds[fd] in s.poll.registrations
    ensures Next(s, CleanAt(fd)).poll.free
         == if s.poll.registrations[s.holds[fd]].kind.WakeOnly? then s.poll.free else s.poll.free + {s.holds[fd]}
  {
    assert Holds(s.poll, s.holds[fd], fd);
    hide Sound, Without, Tombstone;
  }

  lemma StepFree(s: State, e: Event)
    requires Sound(s) && Enabled(s, e) && !e.CleanAt? && !e.HostLooked?
    ensures var p, q := s.poll, Next(s, e).poll;
      match e
      case Add(id, _, _, _, _) => q.free == p.free - {id}
      case AddRefused(id) => q == p.(free := p.free + {id})
      case Del(id, _) => q.free == p.free + {id}
      case DestroyEnd => q.free == {}
      case _ => q.free == p.free
  {
    hide Sound, Without, Woken, Scanned, Modified, Rearmed, Fresh, PipeAfter;
  }

  /** Until destruction begins its user may, for any fd that no thread is about to touch, add a
      registration, on a free object or else a new one, change or remove the fd's if it has one,
      or begin the destruction; afterwards nothing of it. */
  lemma UserMay(s: State, fd: Fd, id: Id, interest: Interest, info: nat, kind: Kind)
    requires Sound(s)
    ensures var open := !s.gone && !s.poll.destroying;
      var takes := if s.poll.free != {} then id in s.poll.free else id !in s.poll.Allocated();
      && (Enabled(s, Destroy) <==> open)
      && (Enabled(s, AddRefused(id)) <==> open && takes)
      && (Enabled(s, Add(id, fd, interest, info, kind)) <==> open && takes && fd !in s.holds)
      && ((exists x :: Enabled(s, Mod(x, fd, interest, info))) <==>
          open && fd !in s.holds && exists x :: Holds(s.poll, x, fd))
      && ((exists x :: Enabled(s, Del(x, fd))) <==> open && fd !in s.holds && exists x :: Holds(s.poll, x, fd))
  {
    FindIff(s.poll, fd);
    hide Poll.Valid, Within;
    if !s.gone && !s.poll.destroying && fd !in s.holds && Find(s.poll, fd, 0).Some? {
      var x := Find(s.poll, fd, 0).value;
      assert Enabled(s, Mod(x, fd, interest, info)) && Enabled(s, Del(x, fd));
    }
  }

  // ---- the end of a poll ----

  /** Once destruction has begun nothing is registered or changed by its user and nobody begins
      to wait, while what is there stays. */
  lemma DestroyCloses(s: State, e: Event)
    requires Sound(s) && Enabled(s, Destroy)
    ensures var r := Next(s, Destroy);
      && r.poll.destroying && r.poll.registrations == s.poll.registrations && r.waiters == s.waiters
           && r.holds == s.holds
      && (s.waiters != map[] ==> r.pipe > 0)
      && (e.Add? || e.AddRefused? || e.Mod? || e.Del? || e.BeginWait? || e.Destroy? ==> !Enabled(r, e))
  {
  }

  /** It frees one registration at a time, none that a lock holder is on its way to. */
  lemma DestroyFrees(s: State, id: Id)
    requires Sound(s) && Enabled(s, DestroyOne(id))
    ensures var r := Next(s, DestroyOne(id));
      && r.poll.Allocated() == s.poll.Allocated() - {id} && r.poll.registrations == s.poll.registrations - {id}
      && r.holds == s.holds && forall fd :: fd in s.holds ==> s.holds[fd] != id
  {
    forall fd | fd in s.holds
      ensures s.holds[fd] != id
    {
      assert Holds(s.poll, s.holds[fd], fd);
    }
  }

  /** After the last step nothing is allocated and nothing can happen: no thread waits, is on
      its way to the poll, or frees anything again. */
  lemma NothingAfter(s: State, e: Event)
    requires Sound(s) && s.gone
    ensures s.poll.Allocated() == {} && s.waiters == map[] && !Enabled(s, e)
  {
    forall fd
      ensures fd !in s.holds
    {
      assert fd in s.holds ==> Holds(s.poll, s.holds[fd], fd);
    }
  }

  lemma EndsGone(s: State)
    requires Sound(s) && Enabled(s, DestroyEnd)
    ensures Next(s, DestroyEnd).gone
  {
  }
}
