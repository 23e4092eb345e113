/** Every run of fs/poll.c on one poll: waiters asleep in the host, threads on their way from
    an fd's poll_lock to the poll's lock, and the destroyer. */
module PollRuns {
  import opened Options
  import opened Polls
  import opened PollSet

  type Thread = nat

  /** A waiter is at work between two host waits, is in the host backend, or is back from it
      with events that it has not yet looked at under the lock. At work it holds the poll
      lock, but for the stretch in which it lets go of the fds it waited on; the steps of
      others may come between its own anyway, which only makes for more runs. */
  datatype Waiter = Awake | Asleep | Returned(events: seq<(Option<Id>, Signals)>)

  /** holds: an fd's poll_lock is held by a thread that is about to take the poll's lock for
      that registration. pipe: the unread bytes in the notify pipe, which exists while there
      are waiters. exclusive: the one waiter waits signal-safe. gone: the poll and all its
      registrations have been freed. */
  datatype State = State(poll: Poll, waiters: map<Thread, Waiter>, exclusive: bool, pipe: nat, holds: map<Fd, Id>,
    gone: bool)

  /** What a host pipe holds. A write to a full pipe is dropped. */
  const PIPE_SIZE: nat := 65536

  datatype Event =
    | Add(id: Id, fd: Fd, interest: Interest, info: nat, kind: Kind)
    | AddRefused(id: Id)
    | Mod(id: Id, fd: Fd, interest: Interest, info: nat)
    | Del(id: Id, fd: Fd)
    | Approach(fd: Fd, id: Id)
    | WakeAt(fd: Fd, events: Signals, internalOnly: bool)
    | CleanAt(fd: Fd)
    | RearmAt(fd: Fd, updates: bool)
    | BeginWait(thread: Thread, signalSafe: bool)
    | ScanAt(thread: Thread, id: Id, ready: Signals, accepts: bool)
    | Sleep(thread: Thread)
    | HostReturns(thread: Thread, brought: seq<(Option<Id>, Signals)>)
    | HostIdle(thread: Thread)
    | HostLooked(thread: Thread)
    | EndWait(thread: Thread)
    | Destroy
    | DestroyOne(id: Id)
    | DestroyEnd

  predicate Within(events: seq<(Option<Id>, Signals)>, ids: set<Id>) {
    forall i :: 0 <= i < |events| && events[i].0.Some? ==> events[i].0.value in ids
  }

  /** Every registration a thread is about to touch is there. */
  ghost predicate Sound(s: State) {
    && s.poll.Valid()
    && (forall fd :: fd in s.holds ==> Holds(s.poll, s.holds[fd], fd))
    && (forall t :: t in s.waiters && s.waiters[t].Returned? ==> Within(s.waiters[t].events, s.poll.Allocated()))
    && (s.exclusive ==> |s.waiters| == 1)
    && (s.gone ==> s.poll.destroying && s.poll.Allocated() == {} && s.waiters == map[])
  }

  /** The object for a new registration: off the freelist, else newly allocated. */
  predicate Allocates(p: Poll, id: Id) {
    if p.free != {} then id in p.free else id !in p.registrations
  }

  predicate Enabled(s: State, e: Event) {
    match e
    case Add(id, fd, _, _, _) => !s.gone && !s.poll.destroying && fd !in s.holds && Allocates(s.poll, id)
    case AddRefused(id) => !s.gone && !s.poll.destroying && Allocates(s.poll, id)
    case Mod(id, fd, _, _) => !s.gone && !s.poll.destroying && fd !in s.holds && Find(s.poll, fd, 0) == Some(id)
    case Del(id, fd) => !s.gone && !s.poll.destroying && fd !in s.holds && Find(s.poll, fd, 0) == Some(id)
    case Approach(fd, id) => fd !in s.holds && Holds(s.poll, id, fd)
    case WakeAt(fd, _, _) => fd in s.holds
    case CleanAt(fd) => fd in s.holds
    case RearmAt(fd, _) => fd in s.holds
    case BeginWait(t, signalSafe) =>
      !s.gone && !s.poll.destroying && t !in s.waiters && !s.exclusive && (signalSafe ==> s.waiters == map[])
    case ScanAt(t, id, _, _) => t in s.waiters && s.waiters[t].Awake? && id in s.poll.registrations
    case Sleep(t) => t in s.waiters && s.waiters[t].Awake?
    case HostReturns(t, events) => t in s.waiters && s.waiters[t].Asleep? && Within(events, s.poll.Allocated())
    case HostIdle(t) => t in s.waiters && s.waiters[t].Asleep?
    case HostLooked(t) => t in s.waiters && s.waiters[t].Returned?
    case EndWait(t) => t in s.waiters
    case Destroy => !s.gone && !s.poll.destroying
    case DestroyOne(id) =>
      && s.poll.destroying && s.waiters == map[] && id in s.poll.registrations
      && (s.poll.registrations[id].fd.Some? ==> s.poll.registrations[id].fd.value !in s.holds)
    case DestroyEnd => !s.gone && s.poll.destroying && s.waiters == map[] && s.poll.list == []
  }

  /** poll_rearm_fd at one registration whose fd has a host fd. */
  function Rearmed(p: Poll, r: Registration, updates: bool): (q: Registration)
    ensures r.Valid() ==> q.Valid()
  {
    if r.kind.WakeOnly? || p.destroying || !r.enabled || !updates then r else r.(triggered := {})
  }

  /** poll_destroy frees one registration. */
  function Freed(p: Poll, id: Id): (q: Poll)
    requires p.Valid() && id in p.registrations
    ensures q.Valid()
  {
    WithoutDistinct(p.list, id);
    p.(list := Without(p.list, id), registrations := p.registrations - {id})
  }

  /** The steps that write to the notify pipe. */
  predicate Notifies(s: State, e: Event)
    requires Enabled(s, e)
  {
    match e
    case Add(_, _, _, _, _) => true
    case Mod(_, _, _, _) => true
    case WakeAt(fd, _, internalOnly) =>
      s.holds[fd] in s.poll.registrations && s.poll.registrations[s.holds[fd]].enabled
          && !(internalOnly && s.poll.registrations[s.holds[fd]].kind.Guest?)
    case CleanAt(fd) => s.holds[fd] in s.poll.registrations && s.poll.registrations[s.holds[fd]].kind.WakeOnly?
    case RearmAt(fd, updates) =>
      && s.holds[fd] in s.poll.registrations && updates && !s.poll.destroying
      && s.poll.registrations[s.holds[fd]].enabled && !s.poll.registrations[s.holds[fd]].kind.WakeOnly?
    case Destroy => true
    case _ => false
  }

  function Written(pipe: nat): nat {
    if pipe < PIPE_SIZE then pipe + 1 else pipe
  }

  /** The notify pipe after a step: a notice is written when there is anyone to read it, and a
      waiter that comes back with events reads one byte if there is one, whoever it was for. */
  function PipeAfter(s: State, e: Event): nat
    requires Enabled(s, e)
  {
    if Notifies(s, e) then (if s.waiters == map[] then s.pipe else Written(s.pipe))
    else match e
      case HostLooked(_) => if s.poll.destroying || s.pipe == 0 then s.pipe else s.pipe - 1
      case BeginWait(_, _) => if s.waiters == map[] then 0 else s.pipe
      case _ => s.pipe
  }

  ghost function Next(s: State, e: Event): State
    requires Sound(s) && Enabled(s, e)
  {
    Moved(s, e).(pipe := PipeAfter(s, e))
  }

  /** HostIdle: the host wait ended without an event, by a signal or at the end of its slice. */
  ghost function Moved(s: State, e: Event): State
    requires Sound(s) && Enabled(s, e)
  {
    match e
    case Add(id, fd, interest, info, kind) => s.(poll := Inserted(s.poll, id, Fresh(fd, interest, info, kind)))
    case AddRefused(id) => s.(poll := s.poll.(free := s.poll.free + {id}))
    case Mod(id, _, interest, info) =>
      s.(poll := Replaced(s.poll, id, Modified(s.poll.registrations[id], interest, info)))
    case Del(id, _) => s.(poll := Removed(s.poll, id))
    case Approach(fd, id) => s.(holds := s.holds[fd := id])
    case WakeAt(fd, events, internalOnly) =>
      s.(poll := Replaced(s.poll, s.holds[fd], Woken(s.poll.registrations[s.holds[fd]], events, internalOnly)),
         holds := s.holds - {fd})
    case CleanAt(fd) => s.(poll := CleanedOne(s.poll, s.holds[fd], fd), holds := s.holds - {fd})
    case RearmAt(fd, updates) =>
      s.(poll := Replaced(s.poll, s.holds[fd], Rearmed(s.poll, s.poll.registrations[s.holds[fd]], updates)),
         holds := s.holds - {fd})
    case BeginWait(t, signalSafe) => s.(waiters := s.waiters[t := Awake], exclusive := signalSafe)
    case ScanAt(_, id, ready, accepts) =>
      s.(poll := Replaced(s.poll, id, Scanned(s.poll.registrations[id], ready, accepts)))
    case Sleep(t) => s.(waiters := s.waiters[t := Asleep])
    case HostReturns(t, events) => s.(waiters := s.waiters[t := Returned(events)])
    case HostIdle(t) => s.(waiters := s.waiters[t := Awake])
    case HostLooked(t) =>
      s.(poll := if s.poll.destroying then s.poll else Seen(s.poll, s.waiters[t].events),
         waiters := s.waiters[t := Awake])
    case EndWait(t) => s.(waiters := s.waiters - {t}, exclusive := false)
    case Destroy => s.(poll := s.poll.(destroying := true))
    case DestroyOne(id) => s.(poll := Freed(s.poll, id))
    case DestroyEnd => s.(poll := s.poll.(free := {}), gone := true)
  }

  lemma {:induction false} SeenKeeps(p: Poll, events: seq<(Option<Id>, Signals)>, id: Id)
    requires p.Valid()
    ensures var q := Seen(p, events);
      && q.Allocated() == p.Allocated() && q.free == p.free && q.destroying == p.destroying
           && q.registrations.Keys == p.registrations.Keys
      && (id in p.registrations ==>
            q.registrations[id] == p.registrations[id].(triggered := q.registrations[id].triggered)
                && q.registrations[id].triggered <= p.registrations[id].triggered)
    decreases |events|
  {
    if events != [] {
      var q := SeenOne(p, events[0].0, events[0].1);
      SeenOneKeeps(p, events[0].0, events[0].1, id);
      hide SeenOne;
      SeenKeeps(q, events[1..], id);
    }
  }

  lemma SeenOneKeeps(p: Poll, x: Option<Id>, events: Signals, id: Id)
    requires p.Valid()
    ensures var q := SeenOne(p, x, events);
      && q.Allocated() == p.Allocated() && q.free == p.free && q.destroying == p.destroying
      && q.registrations.Keys == p.registrations.Keys
      && (id in p.registrations ==>
            && q.registrations[id] == p.registrations[id].(triggered := q.registrations[id].triggered)
            && q.registrations[id].triggered <= p.registrations[id].triggered)
  {
    hide Poll.Valid;
  }

  lemma SeenSound(s: State, t: Thread)
    requires Sound(s) && Enabled(s, HostLooked(t))
    ensures Sound(Moved(s, HostLooked(t)))
  {
    var events := s.waiters[t].events;
    var q := Seen(s.poll, events);
    SeenKeeps(s.poll, events, 0);
    forall fd | fd in s.holds
      ensures Holds(q, s.holds[fd], fd)
    {
      SeenKeeps(s.poll, events, s.holds[fd]);
    }
  }

  /** Held registrations stay registered when a registration of the same fd takes the place of one. */
  lemma ReplacedSound(s: State, id: Id, q: Registration, holds: map<Fd, Id>)
    requires Sound(s) && id in s.poll.registrations && q.Valid() && q.fd == s.poll.registrations[id].fd
    requires forall fd :: fd in holds ==> fd in s.holds && holds[fd] == s.holds[fd]
    ensures Sound(s.(poll := Replaced(s.poll, id, q), holds := holds))
  {
    assert Replaced(s.poll, id, q).Allocated() == s.poll.Allocated();
  }

  /** And when a registration that no lock holder is about to touch gives up its fd or goes. */
  lemma DetachedSound(s: State, id: Id, q: Poll, holds: map<Fd, Id>)
    requires Sound(s) && id in s.poll.registrations && q.Valid() && !s.gone
    requires q.Allocated() >= s.poll.Allocated() || s.waiters == map[]
    requires forall x :: x in s.poll.registrations && x != id ==>
        x in q.registrations && q.registrations[x] == s.poll.registrations[x]
    requires forall fd :: fd in holds ==>
        fd in s.holds && holds[fd] == s.holds[fd] && s.poll.registrations[id].fd != Some(fd)
    ensures Sound(s.(poll := q, holds := holds))
  {
    forall fd | fd in holds
      ensures Holds(q, holds[fd], fd)
    {
      assert Holds(s.poll, s.holds[fd], fd);
    }
  }

  lemma AddSound(s: State, e: Event)
    requires Sound(s) && Enabled(s, e) && (e.Add? || e.AddRefused?)
    ensures Sound(Moved(s, e))
  {
    var q := Moved(s, e).poll;
    assert q.Allocated() >= s.poll.Allocated();
    assert e.id !in s.poll.registrations;
    forall fd | fd in s.holds
      ensures Holds(q, s.holds[fd], fd)
    {
      assert Holds(s.poll, s.holds[fd], fd);
    }
  }

  lemma RegistrationSound(s: State, e: Event)
    requires Sound(s) && Enabled(s, e) && (e.Mod? || e.WakeAt? || e.RearmAt? || e.ScanAt?)
    ensures Sound(Moved(s, e))
  {
    hide Replaced;
    match e
    case Mod(id, fd, interest, info) =>
      ReplacedSound(s, id, Modified(s.poll.registrations[id], interest, info), s.holds);
    case WakeAt(fd, events, internalOnly) =>
      ReplacedSound(s, s.holds[fd], Woken(s.poll.registrations[s.holds[fd]], events, internalOnly), s.holds - {fd});
    case RearmAt(fd, updates) =>
      ReplacedSound(s, s.holds[fd], Rearmed(s.poll, s.poll.registrations[s.holds[fd]], updates), s.holds - {fd});
    case ScanAt(_, id, ready, accepts) =>
      ReplacedSound(s, id, Scanned(s.poll.registrations[id], ready, accepts), s.holds);
  }

  lemma DetachSound(s: State, e: Event)
    requires Sound(s) && Enabled(s, e) && (e.Del? || e.CleanAt? || e.DestroyOne?)
    ensures Sound(Moved(s, e))
  {
    match e
    case Del(id, fd) => DetachedSound(s, id, Removed(s.poll, id), s.holds);
    case CleanAt(fd) => DetachedSound(s, s.holds[fd], CleanedOne(s.poll, s.holds[fd], fd), s.holds - {fd});
    case DestroyOne(id) => DetachedSound(s, id, Freed(s.poll, id), s.holds);
  }

  lemma BeginSound(s: State, t: Thread, signalSafe: bool)
    requires Sound(s) && Enabled(s, BeginWait(t, signalSafe))
    ensures Sound(Moved(s, BeginWait(t, signalSafe)))
  {
    hide Holds, Within;
    assert s.waiters == map[] ==> s.waiters[t := Awake] == map[t := Awake];
  }

  /** A waiter changes where it is: back from the host it brings pointers that are allocated. */
  lemma WaiterSound(s: State, e: Event)
    requires Sound(s) && Enabled(s, e) && (e.Sleep? || e.HostReturns? || e.HostIdle?)
    ensures Sound(Moved(s, e))
  {
    hide Holds, Within, Poll.Valid;
    SameCount(s.waiters, Moved(s, e).waiters);
  }

  lemma SameCount(a: map<Thread, Waiter>, b: map<Thread, Waiter>)
    requires a.Keys == b.Keys
    ensures |a| == |b|
  {
    assert |a.Keys| == |a| && |b.Keys| == |b|;
  }

  lemma LeaveSound(s: State, t: Thread)
    requires Sound(s) && Enabled(s, EndWait(t))
    ensures Sound(Moved(s, EndWait(t)))
  {
    hide Holds, Within, Poll.Valid;
  }

  lemma WaitSound(s: State, e: Event)
    requires Sound(s) && Enabled(s, e) && (e.Approach? || e.Destroy? || e.DestroyEnd?)
    ensures Sound(Moved(s, e))
  {
    assert Moved(s, e).poll.list == s.poll.list && Moved(s, e).poll.registrations == s.poll.registrations;
  }

  lemma MovedSound(s: State, e: Event)
    requires Sound(s) && Enabled(s, e)
    ensures Sound(Moved(s, e))
  {
    hide *;
    match e
    case Add(_, _, _, _, _) => AddSound(s, e);
    case AddRefused(_) => AddSound(s, e);
    case Mod(_, _, _, _) => RegistrationSound(s, e);
    case WakeAt(_, _, _) => RegistrationSound(s, e);
    case RearmAt(_, _) => RegistrationSound(s, e);
    case ScanAt(_, _, _, _) => RegistrationSound(s, e);
    case Del(_, _) => DetachSound(s, e);
    case CleanAt(_) => DetachSound(s, e);
    case DestroyOne(_) => DetachSound(s, e);
    case HostLooked(t) => SeenSound(s, t);
    case BeginWait(t, signalSafe) => BeginSound(s, t, signalSafe);
    case Approach(_, _) => WaitSound(s, e);
    case Destroy => WaitSound(s, e);
    case DestroyEnd => WaitSound(s, e);
    case EndWait(t) => LeaveSound(s, t);
    case _ => WaiterSound(s, e);
  }

  /** No step leaves a thread with a registration that is gone: what a waiter brings back from
      the host is still allocated, what an fd's lock holder is about to touch is still
      registered for that fd, and the poll is freed only when all waiters have left. */
  lemma NextSound(s: State, e: Event)
    requires Sound(s) && Enabled(s, e)
    ensures Sound(Next(s, e))
  {
    hide Moved, PipeAfter;
    MovedSound(s, e);
  }

  // ---- what a step leaves alone ----

  /** The steps that can change registration id. */
  predicate Touches(s: State, e: Event, id: Id) {
    match e
    case Add(x, _, _, _, _) => x == id
    case Mod(x, _, _, _) => x == id
    case Del(x, _) => x == id
    case ScanAt(_, x, _, _) => x == id
    case DestroyOne(x) => x == id
    case WakeAt(fd, _, _) => fd in s.holds && s.holds[fd] == id
    case CleanAt(fd) => fd in s.holds && s.holds[fd] == id
    case RearmAt(fd, _) => fd in s.holds && s.holds[fd] == id
    case HostLooked(_) => true
    case _ => false
  }

  lemma Untouched(s: State, e: Event, id: Id)
    requires Sound(s) && Enabled(s, e) && !Touches(s, e, id)
    ensures id in Next(s, e).poll.registrations <==> id in s.poll.registrations
    ensures id in s.poll.registrations ==> Next(s, e).poll.registrations[id] == s.poll.registrations[id]
  {
    hide Sound, Enabled, Moved, PipeAfter, Touches;
    match e
    case Mod(_, _, _, _) => OthersReplaced(s, e, id);
    case WakeAt(_, _, _) => OthersReplaced(s, e, id);
    case RearmAt(_, _) => OthersReplaced(s, e, id);
    case ScanAt(_, _, _, _) => OthersReplaced(s, e, id);
    case Del(_, _) => OthersRemoved(s, e, id);
    case CleanAt(_) => OthersRemoved(s, e, id);
    case DestroyOne(_) => OthersRemoved(s, e, id);
    case _ => OthersKept(s, e, id);
  }

  lemma OthersReplaced(s: State, e: Event, id: Id)
    requires Sound(s) && Enabled(s, e) && !Touches(s, e, id) && (e.Mod? || e.WakeAt? || e.RearmAt? || e.ScanAt?)
    ensures id in Moved(s, e).poll.registrations <==> id in s.poll.registrations
    ensures id in s.poll.registrations ==> Moved(s, e).poll.registrations[id] == s.poll.registrations[id]
  {
    hide Sound, Woken, Scanned, Modified, Rearmed;
  }

  lemma OthersRemoved(s: State, e: Event, id: Id)
    requires Sound(s) && Enabled(s, e) && !Touches(s, e, id) && (e.Del? || e.CleanAt? || e.DestroyOne?)
    ensures id in Moved(s, e).poll.registrations <==> id in s.poll.registrations
    ensures id in s.poll.registrations ==> Moved(s, e).poll.registrations[id] == s.poll.registrations[id]
  {
    hide Sound, Tombstone, Without;
  }

  lemma OthersKept(s: State, e: Event, id: Id)
    requires Sound(s) && Enabled(s, e) && !Touches(s, e, id)
    requires !(e.Mod? || e.WakeAt? || e.RearmAt? || e.ScanAt? || e.Del? || e.CleanAt? || e.DestroyOne?)
    ensures id in Moved(s, e).poll.registrations <==> id in s.poll.registrations
    ensures id in s.poll.registrations ==> Moved(s, e).poll.registrations[id] == s.poll.registrations[id]
  {
    hide Sound, Fresh;
  }

  // ---- runs ----

  ghost predicate Step(s: State, e: Event, t: State) {
    Enabled(s, e) && (Sound(s) ==> t == Next(s, e))
  }

  ghost predicate Run(states: seq<State>, events: seq<Event>) {
    && |states| == |events| + 1 && Sound(states[0])
    && forall k :: 0 <= k < |events| ==> Step(states[k], events[k], states[k + 1])
  }

  /** A poll as poll_create makes it. */
  lemma StartSound()
    ensures Sound(State(Poll([], map[], {}, false), map[], false, 0, map[], false))
  {
  }

  lemma {:induction false} RunsSound(states: seq<State>, events: seq<Event>, k: nat)
    requires Run(states, events) && k < |states|
    ensures Sound(states[k])
  {
    if k > 0 {
      RunsSound(states, events, k - 1);
      hide Sound, Next, Enabled;
      assert Step(states[k - 1], events[k - 1], states[k]);
      NextSound(states[k - 1], events[k - 1]);
    }
  }
}
