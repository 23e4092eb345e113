/** What every run of fs/poll.c delivers: one-shot, edge-triggered and explicit events, and the
    hangup that a wake-only registration reports after its fd is gone. */
module PollDeliveries {
  import opened Options
  import opened Polls
  import opened PollSet
  import opened PollRuns

  // ---- what happens to one registration ----

  /** The events a step delivers to registration id. */
  function DeliveredAt(s: State, e: Event, id: Id): Signals {
    if e.ScanAt? && e.id == id && id in s.poll.registrations && Delivers(s.poll.registrations[id], e.ready, e.accepts)
    then Offered(s.poll.registrations[id], e.ready) else {}
  }

  /** ADD and MOD. */
  predicate Arms(e: Event, id: Id) {
    (e.Add? || e.Mod?) && e.id == id
  }

  /** A wakeup, a host event, a rearm, or ADD and MOD, that opens event b again. */
  predicate Clears(s: State, e: Event, id: Id, b: Signal) {
    || Arms(e, id)
    || (e.WakeAt? && e.fd in s.holds && s.holds[e.fd] == id && !e.internalOnly && b in e.events)
    || (e.RearmAt? && e.fd in s.holds && s.holds[e.fd] == id && e.updates)
    || (e.HostLooked? && e.thread in s.waiters && s.waiters[e.thread].Returned?
         && InEvents(s.waiters[e.thread].events, id, b))
  }

  predicate InEvents(events: seq<(Option<Id>, Signals)>, id: Id, b: Signal) {
    exists i :: 0 <= i < |events| && events[i].0 == Some(id) && b in events[i].1
  }

  /** The registration is taken away: DEL, the final close of its fd, or destruction. */
  predicate Removes(s: State, e: Event, id: Id) {
    || (e.Del? && e.id == id)
    || (e.CleanAt? && e.fd in s.holds && s.holds[e.fd] == id && id in s.poll.registrations
         && !s.poll.registrations[id].kind.WakeOnly?)
    || (e.DestroyOne? && e.id == id)
  }

  predicate Disarmed(s: State, id: Id) {
    id in s.poll.registrations ==> !s.poll.registrations[id].enabled
  }

  predicate Closed(s: State, id: Id, b: Signal) {
    id in s.poll.registrations ==> s.poll.registrations[id].interest.edge && b in s.poll.registrations[id].triggered
  }

  predicate Pending(s: State, id: Id, b: Signal) {
    id in s.poll.registrations && b in s.poll.registrations[id].forced
  }

  lemma DisarmedStep(s: State, e: Event, id: Id)
    requires Sound(s) && Enabled(s, e) && Disarmed(s, id) && !Arms(e, id)
    ensures Disarmed(Next(s, e), id)
  {
    if !Touches(s, e, id) {
      hide Sound, Next, Enabled;
      Untouched(s, e, id);
    } else if e.HostLooked? {
      DisarmedSeen(s, e.thread, id);
    } else {
      hide Sound, PipeAfter, Without;
    }
  }

  lemma DisarmedSeen(s: State, t: Thread, id: Id)
    requires Sound(s) && Enabled(s, HostLooked(t)) && Disarmed(s, id)
    ensures Disarmed(Next(s, HostLooked(t)), id)
  {
    SeenKeeps(s.poll, s.waiters[t].events, id);
  }

  lemma {:induction false} SeenCloses(p: Poll, events: seq<(Option<Id>, Signals)>, id: Id, b: Signal)
    requires p.Valid() && id in p.registrations && b in p.registrations[id].triggered && !InEvents(events, id, b)
    ensures id in Seen(p, events).registrations && b in Seen(p, events).registrations[id].triggered
    decreases |events|
  {
    if events != [] {
      assert !(events[0].0 == Some(id) && b in events[0].1);
      assert !InEvents(events[1..], id, b) by {
        forall i | 0 <= i < |events[1..]| && events[1..][i].0 == Some(id)
          ensures b !in events[1..][i].1
        {
          assert events[1..][i] == events[i + 1];
        }
      }
      SeenCloses(SeenOne(p, events[0].0, events[0].1), events[1..], id, b);
    }
  }

  lemma ClosedStep(s: State, e: Event, id: Id, b: Signal)
    requires Sound(s) && Enabled(s, e) && Closed(s, id, b) && !Clears(s, e, id, b)
    ensures Closed(Next(s, e), id, b)
  {
    if !Touches(s, e, id) {
      hide Sound, Next, Enabled;
      Untouched(s, e, id);
    } else if e.HostLooked? {
      ClosedSeen(s, e.thread, id, b);
    } else if e.WakeAt? || e.CleanAt? || e.RearmAt? {
      assert Holds(s.poll, s.holds[e.fd], e.fd);
      ClosedHeld(s, e, id, b);
    } else {
      hide Sound, PipeAfter;
    }
  }

  lemma ClosedHeld(s: State, e: Event, id: Id, b: Signal)
    requires Sound(s) && Enabled(s, e) && Closed(s, id, b) && !Clears(s, e, id, b) && Touches(s, e, id)
    requires (e.WakeAt? || e.CleanAt? || e.RearmAt?) && Holds(s.poll, s.holds[e.fd], e.fd)
    ensures Closed(Next(s, e), id, b)
  {
    hide Sound, PipeAfter;
  }

  lemma ClosedSeen(s: State, t: Thread, id: Id, b: Signal)
    requires Sound(s) && Enabled(s, HostLooked(t)) && Closed(s, id, b) && !Clears(s, HostLooked(t), id, b)
    ensures Closed(Next(s, HostLooked(t)), id, b)
  {
    SeenKeeps(s.poll, s.waiters[t].events, id);
    if id in s.poll.registrations {
      SeenCloses(s.poll, s.waiters[t].events, id, b);
    }
  }

  lemma PendingStep(s: State, e: Event, id: Id, b: Signal)
    requires Sound(s) && Enabled(s, e) && Pending(s, id, b)
    requires !(e.Mod? && e.id == id) && !Removes(s, e, id) && b !in DeliveredAt(s, e, id)
    ensures Pending(Next(s, e), id, b)
  {
    if !Touches(s, e, id) {
      hide Sound, Next, Enabled;
      Untouched(s, e, id);
    } else if e.HostLooked? {
      PendingSeen(s, e.thread, id, b);
    } else {
      NotAdded(s, e, id);
      hide Sound, PipeAfter, Without;
    }
  }

  lemma PendingSeen(s: State, t: Thread, id: Id, b: Signal)
    requires Sound(s) && Enabled(s, HostLooked(t)) && Pending(s, id, b)
    ensures Pending(Next(s, HostLooked(t)), id, b)
  {
    SeenKeeps(s.poll, s.waiters[t].events, id);
  }

  /** A registration in use is not taken for a new one. */
  lemma NotAdded(s: State, e: Event, id: Id)
    requires Sound(s) && Enabled(s, e) && id in s.poll.registrations
    ensures !(e.Add? && e.id == id)
  {
  }

  lemma {:induction false} DisarmedThrough(states: seq<State>, events: seq<Event>, k: nat, l: nat, id: Id)
    requires Run(states, events) && k <= l < |states| && Disarmed(states[k], id)
    requires forall j :: k <= j < l ==> !Arms(events[j], id)
    ensures Disarmed(states[l], id)
    decreases l
  {
    if k < l {
      hide Next, Sound, Enabled, Disarmed;
      DisarmedThrough(states, events, k, l - 1, id);
      RunsSound(states, events, l - 1);
      assert Step(states[l - 1], events[l - 1], states[l]);
      DisarmedStep(states[l - 1], events[l - 1], id);
    }
  }

  /** A one-shot registration delivers at most once for each ADD or MOD. */
  lemma OneShotOnce(states: seq<State>, events: seq<Event>, k: nat, l: nat, id: Id)
    requires Run(states, events) && k < l < |events|
    requires DeliveredAt(states[k], events[k], id) != {} && states[k].poll.registrations[id].interest.oneshot
    requires DeliveredAt(states[l], events[l], id) != {}
    ensures exists j :: k < j < l && Arms(events[j], id)
  {
    if forall j :: k < j < l ==> !Arms(events[j], id) {
      RunsSound(states, events, k);
      assert Step(states[k], events[k], states[k + 1]);
      hide Sound;
      DisarmedThrough(states, events, k + 1, l, id);
      assert false;
    }
  }

  lemma {:induction false} ClosedThrough(states: seq<State>, events: seq<Event>, k: nat, l: nat, id: Id, b: Signal)
    requires Run(states, events) && k <= l < |states| && Closed(states[k], id, b)
    requires forall j :: k <= j < l ==> !Clears(states[j], events[j], id, b)
    ensures Closed(states[l], id, b)
    decreases l
  {
    if k < l {
      hide Next, Sound, Enabled, Closed, Clears;
      ClosedThrough(states, events, k, l - 1, id, b);
      RunsSound(states, events, l - 1);
      assert Step(states[l - 1], events[l - 1], states[l]);
      ClosedStep(states[l - 1], events[l - 1], id, b);
    }
  }

  /** An edge-triggered registration delivers an event again only after a wakeup, a host
      event, a rearm or a MOD (or ADD) has opened it. */
  lemma EdgeOnce(states: seq<State>, events: seq<Event>, k: nat, l: nat, id: Id, b: Signal)
    requires Run(states, events) && k < l < |events|
    requires b in DeliveredAt(states[k], events[k], id) && states[k].poll.registrations[id].interest.edge
    requires b in DeliveredAt(states[l], events[l], id)
    ensures exists j :: k < j < l && Clears(states[j], events[j], id, b)
  {
    if forall j :: k < j < l ==> !Clears(states[j], events[j], id, b) {
      RunsSound(states, events, k);
      assert Step(states[k], events[k], states[k + 1]);
      hide Sound, Clears;
      ClosedThrough(states, events, k + 1, l, id, b);
      assert false;
    }
  }

  /** An explicit event the callback refused stays pending until it is delivered, unless the
      registration is modified or taken away. */
  lemma {:induction false} ExplicitStays(states: seq<State>, events: seq<Event>, k: nat, l: nat, id: Id, b: Signal)
    requires Run(states, events) && k <= l < |states| && Pending(states[k], id, b)
    requires forall j :: k <= j < l ==>
      !(events[j].Mod? && events[j].id == id) && !Removes(states[j], events[j], id)
          && b !in DeliveredAt(states[j], events[j], id)
    ensures Pending(states[l], id, b)
    decreases l
  {
    if k < l {
      hide Next, Sound, Enabled, Pending, Removes, DeliveredAt;
      ExplicitStays(states, events, k, l - 1, id, b);
      RunsSound(states, events, l - 1);
      assert Step(states[l - 1], events[l - 1], states[l]);
      PendingStep(states[l - 1], events[l - 1], id, b);
    }
  }

  /** A tombstone is out of everyone's reach: no MOD, DEL, wakeup or close finds it. */
  lemma OutOfReach(s: State, e: Event, id: Id)
    requires Sound(s) && Enabled(s, e) && id in s.poll.registrations && s.poll.registrations[id].fd == None
    ensures !(e.Mod? && e.id == id) && (Removes(s, e, id) ==> e.DestroyOne?)
    ensures forall fd :: fd in s.holds ==> s.holds[fd] != id
  {
  }

  /** Only a scan of the tombstone itself, or a host event, can change it before destruction. */
  lemma TombstoneUntouched(s: State, e: Event, id: Id)
    requires Sound(s) && Enabled(s, e) && id in s.poll.registrations && s.poll.registrations[id].fd == None
    requires e != DestroyOne(id) && !e.HostLooked? && !(e.ScanAt? && e.id == id)
    ensures id in Next(s, e).poll.registrations && Next(s, e).poll.registrations[id] == s.poll.registrations[id]
  {
    OutOfReach(s, e, id);
    NotAdded(s, e, id);
    hide Sound, Next, Removes;
    Untouched(s, e, id);
  }

  lemma TombstoneSeen(s: State, t: Thread, id: Id)
    requires Sound(s) && Enabled(s, HostLooked(t)) && id in s.poll.registrations && s.poll.registrations[id].fd == None
    ensures id in Next(s, HostLooked(t)).poll.registrations && Next(s, HostLooked(t)).poll.registrations[id].fd == None
  {
    SeenKeeps(s.poll, s.waiters[t].events, id);
  }

  /** So it stays until the poll is destroyed. */
  lemma TombstoneStays(s: State, e: Event, id: Id)
    requires Sound(s) && Enabled(s, e) && id in s.poll.registrations && s.poll.registrations[id].fd == None
    ensures !(e.Mod? && e.id == id) && (Removes(s, e, id) ==> e.DestroyOne?)
    ensures forall fd :: fd in s.holds ==> s.holds[fd] != id
    ensures e != DestroyOne(id) ==> id in Next(s, e).poll.registrations && Next(s, e).poll.registrations[id].fd == None
  {
    OutOfReach(s, e, id);
    if e == DestroyOne(id) {
    } else if e.HostLooked? {
      hide Next, Sound, Enabled;
      TombstoneSeen(s, e.thread, id);
    } else if e.ScanAt? && e.id == id {
      hide Sound;
    } else {
      hide Next, Sound, Enabled;
      TombstoneUntouched(s, e, id);
    }
  }

  ghost predicate Undelivered(states: seq<State>, events: seq<Event>, k: nat, l: nat, id: Id) {
    && l <= |events| == |states| - 1
    && forall j :: k <= j < l ==> events[j] != DestroyOne(id) && Hup !in DeliveredAt(states[j], events[j], id)
  }

  /** Its hangup is pending through every run, until a scan delivers it or the poll is destroyed. */
  lemma {:induction false} HangupStays(states: seq<State>, events: seq<Event>, k: nat, l: nat, id: Id)
    requires Run(states, events) && k <= l < |states| && Pending(states[k], id, Hup)
        && states[k].poll.registrations[id].fd == None
    requires Undelivered(states, events, k, l, id)
    ensures Pending(states[l], id, Hup) && states[l].poll.registrations[id].fd == None
    decreases l
  {
    if k < l {
      hide Next, Sound, Enabled, DeliveredAt, Pending;
      assert Step(states[l - 1], events[l - 1], states[l]);
      hide Run;
      assert Undelivered(states, events, k, l - 1, id);
      assert events[l - 1] != DestroyOne(id) && Hup !in DeliveredAt(states[l - 1], events[l - 1], id);
      hide Undelivered;
      HangupStays(states, events, k, l - 1, id);
      RunsSound(states, events, l - 1);
      HangupStep(states[l - 1], events[l - 1], id);
    }
  }

  lemma HangupStep(s: State, e: Event, id: Id)
    requires Sound(s) && Enabled(s, e) && Pending(s, id, Hup) && s.poll.registrations[id].fd == None
    requires e != DestroyOne(id) && Hup !in DeliveredAt(s, e, id)
    ensures Pending(Next(s, e), id, Hup) && Next(s, e).poll.registrations[id].fd == None
  {
    hide Next, Sound, Enabled, DeliveredAt;
    TombstoneStays(s, e, id);
    PendingStep(s, e, id, Hup);
  }

  // ---- whether a close is ever reported ----

  /** The closed registration can never report the hangup: it has fired and is disarmed, or it
      counts the hangup as delivered already. */
  predicate Deaf(r: Registration) {
    !r.enabled || (r.interest.edge && Hup in r.triggered)
  }

  /** A host event of this registration with a hangup among its bits. A wake-only registration
      has none of its own; one left over from an earlier use of the object could name it. */
  predicate StaleHangup(s: State, e: Event, id: Id) {
    e.HostLooked? && e.thread in s.waiters && s.waiters[e.thread].Returned?
        && InEvents(s.waiters[e.thread].events, id, Hup)
  }

  predicate DeafTombstone(s: State, id: Id) {
    id in s.poll.registrations && s.poll.registrations[id].fd == None && Deaf(s.poll.registrations[id])
  }

  lemma DeafStep(s: State, e: Event, id: Id)
    requires Sound(s) && Enabled(s, e) && DeafTombstone(s, id) && e != DestroyOne(id) && !StaleHangup(s, e, id)
    ensures DeafTombstone(Next(s, e), id) && Hup !in DeliveredAt(s, e, id)
    ensures Disarmed(s, id) ==> DeliveredAt(s, e, id) == {} && Disarmed(Next(s, e), id)
  {
    if e.HostLooked? {
      DeafSeen(s, e.thread, id);
    } else if e.ScanAt? && e.id == id {
      hide Sound;
    } else {
      TombstoneUntouched(s, e, id);
      hide Sound, Next, Enabled;
    }
  }

  lemma DeafSeen(s: State, t: Thread, id: Id)
    requires Sound(s) && Enabled(s, HostLooked(t)) && DeafTombstone(s, id) && !StaleHangup(s, HostLooked(t), id)
    ensures DeafTombstone(Next(s, HostLooked(t)), id)
    ensures !s.poll.registrations[id].enabled ==> !Next(s, HostLooked(t)).poll.registrations[id].enabled
  {
    SeenKeeps(s.poll, s.waiters[t].events, id);
    if Hup in s.poll.registrations[id].triggered {
      SeenCloses(s.poll, s.waiters[t].events, id, Hup);
    }
  }

  /** A listening tombstone stays one until it delivers something. */
  predicate ListeningTombstone(s: State, id: Id) {
    && id in s.poll.registrations && s.poll.registrations[id].fd == None
    && !Deaf(s.poll.registrations[id]) && Pending(s, id, Hup)
  }

  lemma ListeningStep(s: State, e: Event, id: Id)
    requires Sound(s) && Enabled(s, e) && ListeningTombstone(s, id) && e != DestroyOne(id)
    requires !(e.ScanAt? && e.id == id && e.accepts)
    ensures ListeningTombstone(Next(s, e), id)
  {
    if e.HostLooked? {
      hide Next;
      TombstoneStays(s, e, id);
      ListeningSeen(s, e.thread, id);
    } else if e.ScanAt? && e.id == id {
      hide Sound, Offered, Taken;
    } else {
      hide Next, Enabled;
      TombstoneUntouched(s, e, id);
    }
  }

  lemma ListeningSeen(s: State, t: Thread, id: Id)
    requires Sound(s) && Enabled(s, HostLooked(t)) && ListeningTombstone(s, id)
    ensures ListeningTombstone(Next(s, HostLooked(t)), id)
  {
    SeenKeeps(s.poll, s.waiters[t].events, id);
  }

  /** The final close at step k of the fd of a wake-only registration. */
  predicate ClosesWakeOnly(s: State, e: Event, id: Id) {
    e.CleanAt? && e.fd in s.holds && s.holds[e.fd] == id && id in s.poll.registrations
        && s.poll.registrations[id].kind.WakeOnly?
  }

  lemma ClosedWakeOnly(s: State, e: Event, id: Id)
    requires Sound(s) && Enabled(s, e) && ClosesWakeOnly(s, e, id)
    ensures if Deaf(s.poll.registrations[id]) then DeafTombstone(Next(s, e), id) else ListeningTombstone(Next(s, e), id)
    ensures id in Next(s, e).poll.registrations
        && Next(s, e).poll.registrations[id].enabled == s.poll.registrations[id].enabled
  {
  }

  lemma {:induction false} DeafThrough(states: seq<State>, events: seq<Event>, k: nat, l: nat, id: Id)
    requires Run(states, events) && k <= l < |states| && DeafTombstone(states[k], id)
    requires forall j :: k <= j < l ==> events[j] != DestroyOne(id) && !StaleHangup(states[j], events[j], id)
    ensures DeafTombstone(states[l], id) && (Disarmed(states[k], id) ==> Disarmed(states[l], id))
    decreases l
  {
    if k < l {
      hide Next, Sound, Enabled, DeliveredAt, StaleHangup, DeafTombstone, Disarmed;
      assert Step(states[l - 1], events[l - 1], states[l]);
      hide Run;
      DeafThrough(states, events, k, l - 1, id);
      RunsSound(states, events, l - 1);
      DeafStep(states[l - 1], events[l - 1], id);
    }
  }

  lemma {:induction false} ListeningThrough(states: seq<State>, events: seq<Event>, k: nat, l: nat, id: Id)
    requires Run(states, events) && k <= l < |states| && ListeningTombstone(states[k], id)
    requires forall j :: k <= j < l ==>
        events[j] != DestroyOne(id) && !(events[j].ScanAt? && events[j].id == id && events[j].accepts)
    ensures ListeningTombstone(states[l], id)
    decreases l
  {
    if k < l {
      hide Next, Sound, Enabled, ListeningTombstone;
      ListeningThrough(states, events, k, l - 1, id);
      RunsSound(states, events, l - 1);
      assert Step(states[l - 1], events[l - 1], states[l]);
      ListeningStep(states[l - 1], events[l - 1], id);
    }
  }

  /** The first scan after the close whose callback accepts reports the hangup if and only if
      the registration was not deaf when its fd was closed. */
  lemma HangupReportedIff(states: seq<State>, events: seq<Event>, k: nat, l: nat, id: Id)
    requires Run(states, events) && k < l < |events| && ClosesWakeOnly(states[k], events[k], id)
    requires events[l].ScanAt? && events[l].id == id && events[l].accepts
    requires forall j :: k < j < l ==> events[j] != DestroyOne(id) && !StaleHangup(states[j], events[j], id)
    requires forall j :: k < j < l ==> !(events[j].ScanAt? && events[j].id == id && events[j].accepts)
    ensures Hup in DeliveredAt(states[l], events[l], id) <==> !Deaf(states[k].poll.registrations[id])
  {
    hide Next, Sound, Enabled, StaleHangup, DeafTombstone, ListeningTombstone, Deaf, ClosesWakeOnly;
    RunsSound(states, events, k);
    RunsSound(states, events, l);
    assert Step(states[k], events[k], states[k + 1]) && Step(states[l], events[l], states[l + 1]);
    AfterClose(states[k], events[k], states[k + 1], id);
    if Deaf(states[k].poll.registrations[id]) {
      DeafThrough(states, events, k + 1, l, id);
    } else {
      ListeningThrough(states, events, k + 1, l, id);
    }
    ScanReports(states[l], events[l], id);
  }

  lemma AfterClose(s: State, e: Event, t: State, id: Id)
    requires Sound(s) && Step(s, e, t) && ClosesWakeOnly(s, e, id)
    ensures id in s.poll.registrations
    ensures if Deaf(s.poll.registrations[id]) then DeafTombstone(t, id) else ListeningTombstone(t, id)
    ensures Disarmed(s, id) ==> Disarmed(t, id)
  {
    hide Sound, Next, Deaf;
    ClosedWakeOnly(s, e, id);
  }

  /** An accepting scan of a tombstone reports the hangup exactly when it is a listening one. */
  lemma ScanReports(s: State, e: Event, id: Id)
    requires Sound(s) && Enabled(s, e) && e.ScanAt? && e.id == id && e.accepts
    ensures DeafTombstone(s, id) ==> Hup !in DeliveredAt(s, e, id)
    ensures ListeningTombstone(s, id) ==> Hup in DeliveredAt(s, e, id)
  {
    hide Sound;
  }

  /** A deaf one never reports it, and a disarmed one nothing at all. */
  lemma HangupNever(states: seq<State>, events: seq<Event>, k: nat, l: nat, id: Id)
    requires Run(states, events) && k < l < |events| && ClosesWakeOnly(states[k], events[k], id)
        && Deaf(states[k].poll.registrations[id])
    requires forall j :: k < j <= l ==> events[j] != DestroyOne(id) && !StaleHangup(states[j], events[j], id)
    ensures Hup !in DeliveredAt(states[l], events[l], id)
    ensures !states[k].poll.registrations[id].enabled ==> DeliveredAt(states[l], events[l], id) == {}
  {
    hide Next, Sound, Enabled, StaleHangup, DeafTombstone, ListeningTombstone, Deaf, ClosesWakeOnly;
    RunsSound(states, events, k);
    RunsSound(states, events, l);
    assert Step(states[k], events[k], states[k + 1]) && Step(states[l], events[l], states[l + 1]);
    AfterClose(states[k], events[k], states[k + 1], id);
    DeafThrough(states, events, k + 1, l, id);
    DeafStep(states[l], events[l], id);
  }

  // ---- a hangup that is lost ----

  /** The poll with one registration, which a waiter is at work on, or which the holder of its
      fd's poll_lock is about to reach. */
  function At(r: Registration, waits: bool, held: bool): State {
    State(Poll([0], map[0 := r], {}, false), if waits then map[0 := Awake] else map[], false, 0,
          if held then map[0 := 0] else map[], false)
  }

  const ARMED: Registration := Fresh(0, Interest({}, true, false), 0, WakeOnly)
  const NEWS: Registration := ARMED.(forced := {Err})
  const FIRED: Registration := ARMED.(enabled := false)
  const CLOSED: Registration := FIRED.(fd := None, forced := {Hup})

  /** A run in which a one-shot wake-only registration fires in one wait, its fd is closed, and
      the scan of the next wait has nothing to report. */
  lemma HangupLost() returns (states: seq<State>, events: seq<Event>)
    ensures Run(states, events) && |events| == 10
    ensures ClosesWakeOnly(states[7], events[7], 0) && events[9] == ScanAt(0, 0, {}, true)
    ensures DeliveredAt(states[4], events[4], 0) == {Err} && DeliveredAt(states[9], events[9], 0) == {}
    ensures Pending(states[10], 0, Hup)
  {
    RegistrationFires();
    hide Sound, Step, Next, Enabled, Offered;
    var s0 := State(Poll([], map[], {}, false), map[], false, 0, map[], false);
    states := [s0, At(ARMED, false, false), At(ARMED, false, true), At(NEWS, false, false), At(NEWS, true, false),
               At(FIRED, true, false), At(FIRED, false, false), At(FIRED, false, true), At(CLOSED, false, false),
               At(CLOSED, true, false), At(CLOSED, true, false)];
    events := [Add(0, 0, ARMED.interest, 0, WakeOnly), Approach(0, 0), WakeAt(0, {Err}, false), BeginWait(0, false),
               ScanAt(0, 0, {}, true), EndWait(0), Approach(0, 0), CleanAt(0), BeginWait(0, false),
               ScanAt(0, 0, {}, true)];
    StartSound();
    Adds(s0);
    Approaches(ARMED);
    Wakes();
    Begins(NEWS);
    Scans(NEWS, FIRED);
    Leaves(FIRED);
    Approaches(FIRED);
    Closes();
    Begins(CLOSED);
    Scans(CLOSED, CLOSED);
    forall k | 0 <= k < |events|
      ensures Step(states[k], events[k], states[k + 1])
    {
      assert k == 0 || k == 1 || k == 2 || k == 3 || k == 4 || k == 5 || k == 6 || k == 7 || k == 8 || k == 9;
    }
  }

  lemma RegistrationFires()
    ensures Woken(ARMED, {Err}, false) == NEWS && Scanned(NEWS, {}, true) == FIRED && Offered(NEWS, {}) == {Err}
    ensures Tombstone(FIRED) == CLOSED && Offered(CLOSED, {}) == {} && Scanned(CLOSED, {}, true) == CLOSED
    ensures NEWS.Valid() && FIRED.Valid() && CLOSED.Valid()
  {
    assert {Err} * ARMED.Mask() == {Err};
  }

  lemma Adds(s0: State)
    requires s0 == State(Poll([], map[], {}, false), map[], false, 0, map[], false)
    ensures Step(s0, Add(0, 0, ARMED.interest, 0, WakeOnly), At(ARMED, false, false))
  {
    hide Sound;
    assert [0] + s0.poll.list == [0];
  }

  lemma Approaches(r: Registration)
    requires r.fd == Some(0)
    ensures Step(At(r, false, false), Approach(0, 0), At(r, false, true))
  {
    hide Sound;
  }

  lemma Begins(r: Registration)
    ensures Step(At(r, false, false), BeginWait(0, false), At(r, true, false))
  {
    hide Sound;
  }

  lemma Leaves(r: Registration)
    ensures Step(At(r, true, false), EndWait(0), At(r, false, false))
  {
    hide Sound;
    assert At(r, true, false).waiters - {0} == map[];
  }

  lemma Scans(r: Registration, q: Registration)
    requires Scanned(r, {}, true) == q
    ensures Step(At(r, true, false), ScanAt(0, 0, {}, true), At(q, true, false))
  {
    hide Sound, Scanned;
    assert map[0 := r][0 := q] == map[0 := q];
  }

  lemma Wakes()
    ensures Step(At(ARMED, false, true), WakeAt(0, {Err}, false), At(NEWS, false, false))
  {
    RegistrationFires();
    hide Sound, Woken;
    assert At(ARMED, false, true).holds - {0} == map[];
    assert map[0 := ARMED][0 := NEWS] == map[0 := NEWS];
  }

  lemma Closes()
    ensures Step(At(FIRED, false, true), CleanAt(0), At(CLOSED, false, false))
  {
    RegistrationFires();
    hide Sound, Tombstone;
    assert At(FIRED, false, true).holds - {0} == map[];
    assert map[0 := FIRED][0 := CLOSED] == map[0 := CLOSED];
  }
}
