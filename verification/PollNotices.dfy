/** The notify pipe of fs/poll.c over every run: which sleepers are sure to be woken. */
module PollNotices {
  import opened Options
  import opened Polls
  import opened PollSet
  import opened PollRuns

  /** Whatever gives a scan more to offer is announced, but for the host events that a waiter
      applies itself before it scans again. */
  lemma NothingMissed(s: State, e: Event, id: Id, ready: Signals, b: Signal)
    requires Sound(s) && Enabled(s, e) && id in Next(s, e).poll.registrations
    requires b in Offered(Next(s, e).poll.registrations[id], ready)
    ensures Notifies(s, e) || e.HostLooked?
         || (id in s.poll.registrations && b in Offered(s.poll.registrations[id], ready))
  {
    if !Touches(s, e, id) {
      hide Sound, Next, Enabled, Notifies, Offered;
      Untouched(s, e, id);
    } else if e.WakeAt? || e.CleanAt? || e.RearmAt? {
      assert Holds(s.poll, s.holds[e.fd], e.fd);
      hide Sound, PipeAfter, Without;
    } else {
      hide Sound, PipeAfter, Without;
    }
  }

  predicate OnOffer(s: State, id: Id, ready: Signals, b: Signal) {
    id in s.poll.registrations && b in Offered(s.poll.registrations[id], ready)
  }

  predicate Sleeps(s: State, t: Thread) {
    t in s.waiters && s.waiters[t].Asleep?
  }

  ghost predicate SleepsThrough(states: seq<State>, t: Thread, k: nat, l: nat) {
    k <= l < |states| && forall j :: k <= j <= l ==> Sleeps(states[j], t)
  }

  /** A step that nobody comes back in leaves the pipe no emptier, and a notice fills it. */
  lemma PipeStep(s: State, e: Event, t: Thread)
    requires Sound(s) && Enabled(s, e) && Sleeps(s, t) && !e.HostLooked?
    ensures Next(s, e).pipe >= s.pipe && (Notifies(s, e) ==> Next(s, e).pipe > 0)
  {
  }

  /** A step that announces news to the sleepers. */
  predicate Notice(s: State, e: Event) {
    Enabled(s, e) && Notifies(s, e)
  }

  /** A notice given at step n while a thread sleeps leaves a byte in the pipe for it, whatever
      it was about, until another waiter comes back from the host. */
  lemma {:induction false} NoticeWakes(states: seq<State>, events: seq<Event>, t: Thread, n: nat, l: nat)
    requires Run(states, events) && n < l && SleepsThrough(states, t, n, l) && Notice(states[n], events[n])
    requires forall j :: n <= j < l ==> !events[j].HostLooked?
    ensures states[l].pipe > 0
    decreases l
  {
    hide Next, Sound, Enabled, Notifies;
    RunsSound(states, events, l - 1);
    assert Step(states[l - 1], events[l - 1], states[l]);
    assert Sleeps(states[l - 1], t);
    PipeStep(states[l - 1], events[l - 1], t);
    if n < l - 1 {
      NoticeWakes(states, events, t, n, l - 1);
    }
  }

  /** What a sleeper has not been offered, since step k when it went to sleep, has been announced
      and finds a byte in the pipe, unless another waiter has come back from the host. */
  lemma {:induction false} NewsWakes(states: seq<State>, events: seq<Event>, t: Thread, k: nat, l: nat, id: Id,
      ready: Signals, b: Signal)
    returns (n: nat)
    requires Run(states, events) && SleepsThrough(states, t, k, l)
    requires OnOffer(states[l], id, ready, b) && !OnOffer(states[k], id, ready, b)
    requires forall j :: k <= j < l ==> !events[j].HostLooked?
    ensures k <= n < l && Notice(states[n], events[n]) && states[l].pipe > 0
    decreases l
  {
    hide Next, Sound, Enabled, Notifies, OnOffer;
    RunsSound(states, events, l - 1);
    assert Step(states[l - 1], events[l - 1], states[l]);
    OfferStep(states[l - 1], events[l - 1], id, ready, b);
    if OnOffer(states[l - 1], id, ready, b) {
      n := NewsWakes(states, events, t, k, l - 1, id, ready, b);
    } else {
      n := l - 1;
    }
    NoticeWakes(states, events, t, n, l);
  }

  lemma OfferStep(s: State, e: Event, id: Id, ready: Signals, b: Signal)
    requires Sound(s) && Enabled(s, e) && OnOffer(Next(s, e), id, ready, b) && !e.HostLooked?
    ensures Notifies(s, e) || OnOffer(s, id, ready, b)
  {
    NothingMissed(s, e, id, ready, b);
  }

  /** A signal-safe waiter is alone. */
  lemma Alone(s: State, e: Event, t: Thread)
    requires Sound(s) && Enabled(s, e) && s.exclusive && Sleeps(s, t) && Sleeps(Next(s, e), t)
    ensures Next(s, e).exclusive && !e.HostLooked?
  {
    var others := s.waiters.Keys - {t};
    assert s.waiters.Keys == {t} + others && |s.waiters.Keys| == |s.waiters|;
    assert others == {};
  }

  lemma {:induction false} AloneThrough(states: seq<State>, events: seq<Event>, t: Thread, k: nat, l: nat)
    requires Run(states, events) && SleepsThrough(states, t, k, l) && states[k].exclusive
    ensures states[l].exclusive && forall j :: k <= j < l ==> !events[j].HostLooked?
    decreases l
  {
    if k < l {
      hide Next, Sound, Enabled;
      AloneThrough(states, events, t, k, l - 1);
      RunsSound(states, events, l - 1);
      assert Step(states[l - 1], events[l - 1], states[l]);
      assert Sleeps(states[l - 1], t) && Sleeps(states[l], t);
      Alone(states[l - 1], events[l - 1], t);
    }
  }

  /** So over every run a signal-safe waiter misses no notice: from then on, while it sleeps,
      the pipe has a byte for it. */
  lemma SignalSafeWoken(states: seq<State>, events: seq<Event>, t: Thread, n: nat, l: nat)
    requires Run(states, events) && n < l && SleepsThrough(states, t, n, l) && states[n].exclusive
    requires Notice(states[n], events[n])
    ensures states[l].pipe > 0
  {
    AloneThrough(states, events, t, n, l);
    NoticeWakes(states, events, t, n, l);
  }

  /** And nothing that it has not been offered. */
  lemma SignalSafeOffered(states: seq<State>, events: seq<Event>, t: Thread, k: nat, l: nat, id: Id, ready: Signals,
      b: Signal)
    requires Run(states, events) && SleepsThrough(states, t, k, l) && states[k].exclusive
    requires OnOffer(states[l], id, ready, b) && !OnOffer(states[k], id, ready, b)
    ensures states[l].pipe > 0
  {
    AloneThrough(states, events, t, k, l);
    var n := NewsWakes(states, events, t, k, l, id, ready, b);
  }

  // ---- several waiters share the pipe ----

  /** The bytes taken by waiters that came back in steps k to l. */
  function Reads(states: seq<State>, events: seq<Event>, k: nat, l: nat): nat
    requires k <= l <= |events| && |states| == |events| + 1
    decreases l
  {
    if k == l then 0
    else
      Reads(states, events, k, l - 1)
      + (if events[l - 1].HostLooked? && !states[l - 1].poll.destroying then 1 else 0)
  }

  ghost predicate Quiet(states: seq<State>, events: seq<Event>, k: nat, l: nat) {
    |states| == |events| + 1 && l <= |events| && forall j :: k <= j < l && Enabled(states[j], events[j]) ==>
        !Notifies(states[j], events[j])
  }

  lemma ReadStep(s: State, e: Event, t: Thread)
    requires Sound(s) && Enabled(s, e) && Sleeps(s, t) && !Notifies(s, e)
    ensures Next(s, e).pipe == if e.HostLooked? && !s.poll.destroying && s.pipe > 0 then s.pipe - 1 else s.pipe
  {
  }

  /** After the last notice every waiter that comes back takes a byte, until there is none. */
  lemma {:induction false} PipeThrough(states: seq<State>, events: seq<Event>, t: Thread, k: nat, l: nat)
    requires Run(states, events) && SleepsThrough(states, t, k, l) && Quiet(states, events, k, l)
    ensures states[l].pipe == if Reads(states, events, k, l) < states[k].pipe
        then states[k].pipe - Reads(states, events, k, l) else 0
    decreases l
  {
    if k < l {
      hide Next, Sound, Enabled, Notifies;
      assert SleepsThrough(states, t, k, l - 1) && Quiet(states, events, k, l - 1);
      PipeThrough(states, events, t, k, l - 1);
      RunsSound(states, events, l - 1);
      assert Step(states[l - 1], events[l - 1], states[l]);
      assert Sleeps(states[l - 1], t);
      ReadStep(states[l - 1], events[l - 1], t);
    }
  }

  /** A sleeper finds the pipe empty after a notice if and only if as many other waiters have
      come back since as there were bytes. */
  lemma SleeperMissesIff(states: seq<State>, events: seq<Event>, t: Thread, n: nat, l: nat)
    requires Run(states, events) && n < l && SleepsThrough(states, t, n, l)
    requires Enabled(states[n], events[n]) && Notifies(states[n], events[n]) && Quiet(states, events, n + 1, l)
    ensures states[n + 1].pipe > 0
    ensures states[l].pipe == 0 <==> Reads(states, events, n + 1, l) >= states[n + 1].pipe
  {
    RunsSound(states, events, n);
    assert Step(states[n], events[n], states[n + 1]);
    assert Sleeps(states[n], t);
    PipeStep(states[n], events[n], t);
    hide Sound, Next, Enabled, Notifies;
    assert SleepsThrough(states, t, n + 1, l);
    PipeThrough(states, events, t, n + 1, l);
  }

  /** The poll with one registration, two threads that wait, and bytes in the pipe. */
  function Two(r: Registration, first: Waiter, second: Waiter, held: bool, pipe: nat): State {
    State(Poll([0], map[0 := r], {}, false), map[0 := first, 1 := second], false, pipe,
          if held then map[0 := 0] else map[], false)
  }

  function One(r: Registration, first: Waiter): State {
    State(Poll([0], map[0 := r], {}, false), map[0 := first], false, 0, map[], false)
  }

  const QUIET: Registration := Fresh(0, Interest({Read}, false, false), 0, WakeOnly)
  const NEWS: Registration := QUIET.(forced := {Read})
  const BACK: Waiter := Returned([(None, {Read})])

  /** It happens: two waiters scan and sleep, a wakeup writes one byte, the first comes back for
      it and refuses the event, and the second sleeps on beside it. */
  lemma SleeperLeftBehind() returns (states: seq<State>, events: seq<Event>)
    ensures Run(states, events) && |events| == 12 && SleepsThrough(states, 1, 7, 12)
    ensures events[8] == WakeAt(0, {Read}, false)
    ensures !OnOffer(states[7], 0, {}, Read) && OnOffer(states[12], 0, {}, Read) && states[12].pipe == 0
  {
    Registrations();
    hide Sound, Step, Next, Enabled, Offered;
    var s0, s1 := State(Poll([], map[], {}, false), map[], false, 0, map[], false),
      State(Poll([0], map[0 := QUIET], {}, false), map[], false, 0, map[], false);
    states := [s0, s1, One(QUIET, Awake), One(QUIET, Awake), One(QUIET, Asleep),
               Two(QUIET, Asleep, Awake, false, 0), Two(QUIET, Asleep, Awake, false, 0),
               Two(QUIET, Asleep, Asleep, false, 0), Two(QUIET, Asleep, Asleep, true, 0),
               Two(NEWS, Asleep, Asleep, false, 1), Two(NEWS, BACK, Asleep, false, 1),
               Two(NEWS, Awake, Asleep, false, 0), Two(NEWS, Awake, Asleep, false, 0)];
    events := [Add(0, 0, QUIET.interest, 0, WakeOnly), BeginWait(0, false), ScanAt(0, 0, {}, true), Sleep(0),
               BeginWait(1, false), ScanAt(1, 0, {}, true), Sleep(1),
               Approach(0, 0), WakeAt(0, {Read}, false), HostReturns(0, BACK.events), HostLooked(0),
               ScanAt(0, 0, {}, false)];
    StartSound();
    FirstSleeps(s0, s1);
    SecondSleeps();
    Announces();
    ComesBack();
    Scans(Two(NEWS, Awake, Asleep, false, 0), 0, false);
    forall k | 0 <= k < |events|
      ensures Step(states[k], events[k], states[k + 1])
    {
      assert k == 0 || k == 1 || k == 2 || k == 3 || k == 4 || k == 5 || k == 6 || k == 7 || k == 8 || k == 9
          || k == 10 || k == 11;
    }
    forall j | 7 <= j <= 12
      ensures Sleeps(states[j], 1)
    {
      assert j == 7 || j == 8 || j == 9 || j == 10 || j == 11 || j == 12;
    }
  }

  lemma Registrations()
    ensures Woken(QUIET, {Read}, false) == NEWS && Offered(QUIET, {}) == {} && Offered(NEWS, {}) == {Read}
    ensures Scanned(QUIET, {}, true) == QUIET && Scanned(NEWS, {}, false) == NEWS && QUIET.Valid() && NEWS.Valid()
  {
    assert {Read} * QUIET.Mask() == {Read};
  }

  /** A scan with nothing to deliver. */
  lemma Scans(s: State, t: Thread, accepts: bool)
    requires t in s.waiters && s.waiters[t].Awake? && 0 in s.poll.registrations
    requires Scanned(s.poll.registrations[0], {}, accepts) == s.poll.registrations[0]
    ensures Step(s, ScanAt(t, 0, {}, accepts), s)
  {
    hide Sound, Scanned;
    assert s.poll.registrations[0 := s.poll.registrations[0]] == s.poll.registrations;
  }

  lemma FirstSleeps(s0: State, s1: State)
    requires s0 == State(Poll([], map[], {}, false), map[], false, 0, map[], false)
    requires s1 == State(Poll([0], map[0 := QUIET], {}, false), map[], false, 0, map[], false)
    ensures Step(s0, Add(0, 0, QUIET.interest, 0, WakeOnly), s1) && Step(s1, BeginWait(0, false), One(QUIET, Awake))
    ensures Step(One(QUIET, Awake), ScanAt(0, 0, {}, true), One(QUIET, Awake))
    ensures Step(One(QUIET, Awake), Sleep(0), One(QUIET, Asleep))
  {
    Registrations();
    Scans(One(QUIET, Awake), 0, true);
    hide Sound, Scanned;
    assert [0] + s0.poll.list == [0];
  }

  lemma SecondSleeps()
    ensures Step(One(QUIET, Asleep), BeginWait(1, false), Two(QUIET, Asleep, Awake, false, 0))
    ensures Step(Two(QUIET, Asleep, Awake, false, 0), ScanAt(1, 0, {}, true), Two(QUIET, Asleep, Awake, false, 0))
    ensures Step(Two(QUIET, Asleep, Awake, false, 0), Sleep(1), Two(QUIET, Asleep, Asleep, false, 0))
  {
    Registrations();
    Scans(Two(QUIET, Asleep, Awake, false, 0), 1, true);
    hide Sound, Scanned;
    assert map[0 := Asleep][1 := Awake] == map[0 := Asleep, 1 := Awake];
    assert map[0 := Asleep, 1 := Awake][1 := Asleep] == map[0 := Asleep, 1 := Asleep];
  }

  lemma Announces()
    ensures Step(Two(QUIET, Asleep, Asleep, false, 0), Approach(0, 0), Two(QUIET, Asleep, Asleep, true, 0))
    ensures Step(Two(QUIET, Asleep, Asleep, true, 0), WakeAt(0, {Read}, false), Two(NEWS, Asleep, Asleep, false, 1))
  {
    Registrations();
    hide Sound, Woken;
    assert Two(QUIET, Asleep, Asleep, true, 0).holds - {0} == map[];
    assert map[0 := QUIET][0 := NEWS] == map[0 := NEWS];
    assert 0 in map[0 := Asleep, 1 := Asleep];
  }

  lemma ComesBack()
    ensures Step(Two(NEWS, Asleep, Asleep, false, 1), HostReturns(0, BACK.events), Two(NEWS, BACK, Asleep, false, 1))
    ensures Step(Two(NEWS, BACK, Asleep, false, 1), HostLooked(0), Two(NEWS, Awake, Asleep, false, 0))
  {
    ValidPoll();
    NoneSeen(Two(NEWS, BACK, Asleep, false, 1));
    hide Sound, Seen, Poll.Valid;
    assert map[0 := Asleep, 1 := Asleep][0 := BACK] == map[0 := BACK, 1 := Asleep];
    assert map[0 := BACK, 1 := Asleep][0 := Awake] == map[0 := Awake, 1 := Asleep];
  }

  lemma ValidPoll()
    ensures Two(NEWS, BACK, Asleep, false, 1).poll.Valid()
  {
    Registrations();
  }

  lemma NoneSeen(s: State)
    ensures s.poll.Valid() ==> Seen(s.poll, [(None, {Read})]) == s.poll
  {
    if s.poll.Valid() {
      assert Seen(SeenOne(s.poll, None, {Read}), []) == s.poll;
    }
  }
}
