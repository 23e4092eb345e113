/** The registrations of fs/poll.c: what one registration offers a waiter, and how each
    operation changes it. */
module Polls {
  import opened Options

  type Fd = nat     // identity of a struct fd
  type Id = nat     // identity of a struct poll_fd

  datatype Signal = Read | Pri | Write | Err | Hup | Nval

  type Signals = set<Signal>

  /** What poll_add_fd, poll_add_fd_host and poll_add_fd_wake make. */
  datatype Kind = Guest | HostOnly | WakeOnly

  /** The events asked for, with the POLL_ONESHOT and POLL_EDGETRIGGERED bits. */
  datatype Interest = Interest(types: Signals, oneshot: bool, edge: bool)

  datatype Registration = Registration(fd: Option<Fd>, interest: Interest, info: nat, kind: Kind, triggered: Signals,
    forced: Signals, enabled: bool) {
    function Mask(): Signals {
      interest.types + {Hup, Err}
    }

    /** Only a wake-only registration outlives its fd; explicit events are ones asked for
        and only host-only and wake-only registrations have them; only an edge-triggered
        one remembers what it delivered. */
    predicate Valid() {
      && (fd == None ==> kind.WakeOnly?)
      && forced <= Mask()
      && (kind.Guest? ==> forced == {})
      && (!interest.edge ==> triggered == {})
    }
  }

  function Fresh(fd: Fd, interest: Interest, info: nat, kind: Kind): (r: Registration)
    ensures r.Valid()
  {
    Registration(Some(fd), interest, info, kind, {}, {}, true)
  }

  /** poll_mod_fd */
  function Modified(r: Registration, interest: Interest, info: nat): (q: Registration)
    ensures r.Valid() ==> q.Valid()
  {
    r.(interest := interest, info := info, triggered := {}, forced := {}, enabled := true)
  }

  /** poll_cleanup_fd on a wake-only registration. */
  function Tombstone(r: Registration): (q: Registration)
    requires r.kind.WakeOnly?
    ensures r.Valid() ==> q.Valid()
  {
    r.(fd := None, forced := r.forced + {Hup})
  }

  /** poll_wakeup_impl */
  function Woken(r: Registration, events: Signals, internalOnly: bool): (q: Registration)
    ensures r.Valid() ==> q.Valid()
  {
    if !r.enabled || (internalOnly && r.kind.Guest?) then r
    else r.(forced := if r.kind.Guest? then r.forced else r.forced + (events * r.Mask()),
            triggered := if !internalOnly && r.interest.edge then r.triggered - events else r.triggered)
  }

  /** A host event on the registration, in poll_wait_deadline. */
  function HostSeen(r: Registration, events: Signals): (q: Registration)
    ensures r.Valid() ==> q.Valid()
  {
    if r.enabled && r.interest.edge then r.(triggered := r.triggered - events) else r
  }

  /** What the scan of poll_wait_deadline offers the callback. The scan looks at the fd, where
      ready is what it finds, unless the registration is wake-only. */
  function Offered(r: Registration, ready: Signals): (o: Signals)
    ensures o <= r.Mask() && (r.interest.edge ==> o !! r.triggered) && (!r.enabled ==> o == {})
  {
    if !r.enabled then {}
    else
      var found := (if r.kind.WakeOnly? then r.forced else r.forced + ready) * r.Mask();
      if r.interest.edge then found - r.triggered else found
  }

  /** The registration once the callback has taken what it was offered. */
  function Taken(r: Registration, offered: Signals): (q: Registration)
    ensures r.Valid() ==> q.Valid()
  {
    r.(forced := if r.kind.Guest? then r.forced else r.forced - offered,
       enabled := r.enabled && !r.interest.oneshot,
       triggered := if r.interest.edge then r.triggered + offered else r.triggered)
  }

  predicate Delivers(r: Registration, ready: Signals, accepts: bool) {
    Offered(r, ready) != {} && accepts
  }

  /** One registration after the scan has passed it. */
  function Scanned(r: Registration, ready: Signals, accepts: bool): (q: Registration)
    ensures r.Valid() ==> q.Valid()
  {
    if Delivers(r, ready, accepts) then Taken(r, Offered(r, ready)) else r
  }

  // ---- one poll ----

  /** registrations holds those in the poll_fds list; free those on the freelist. */
  datatype Poll = Poll(list: seq<Id>, registrations: map<Id, Registration>, free: set<Id>, destroying: bool) {
    ghost predicate Valid() {
      && Distinct(list)
      && (forall id :: id in list <==> id in registrations)
      && registrations.Keys !! free
      && (forall id :: id in registrations ==> registrations[id].Valid())
    }

    /** What has been allocated and not returned to the allocator. */
    function Allocated(): set<Id> {
      registrations.Keys + free
    }
  }

  predicate Distinct(list: seq<Id>) {
    forall i, j :: 0 <= i < j < |list| ==> list[i] != list[j]
  }

  predicate Holds(p: Poll, id: Id, fd: Fd) {
    id in p.registrations && p.registrations[id].fd == Some(fd)
  }

  /** poll_find_fd, over the registrations from list position k on. */
  function Find(p: Poll, fd: Fd, k: nat): (r: Option<Id>)
    requires k <= |p.list|
    ensures r.Some? ==> r.value in p.list && Holds(p, r.value, fd)
    ensures r == None ==> forall i :: k <= i < |p.list| ==> !Holds(p, p.list[i], fd)
    decreases |p.list| - k
  {
    if k == |p.list| then None
    else if Holds(p, p.list[k], fd) then Some(p.list[k])
    else Find(p, fd, k + 1)
  }

  /** The fd is found if and only if something is registered for it. */
  lemma FindIff(p: Poll, fd: Fd)
    requires p.Valid()
    ensures Find(p, fd, 0).Some? <==> exists id :: Holds(p, id, fd)
  {
    if id :| Holds(p, id, fd) {
      assert id in p.list;
    }
  }

  function Without(list: seq<Id>, id: Id): (r: seq<Id>)
    ensures forall x :: x in r <==> x in list && x != id
  {
    if list == [] then []
    else if list[0] == id then Without(list[1..], id)
    else [list[0]] + Without(list[1..], id)
  }

  lemma {:induction false} WithoutDistinct(list: seq<Id>, id: Id)
    requires Distinct(list)
    ensures Distinct(Without(list, id))
  {
    if list != [] {
      assert Distinct(list[1..]) && list[0] !in list[1..];
      WithoutDistinct(list[1..], id);
    }
  }

  function Inserted(p: Poll, id: Id, r: Registration): (q: Poll)
    requires p.Valid() && r.Valid() && id !in p.registrations
    ensures q.Valid()
  {
    p.(list := [id] + p.list, registrations := p.registrations[id := r], free := p.free - {id})
  }

  function Replaced(p: Poll, id: Id, r: Registration): (q: Poll)
    requires p.Valid() && r.Valid() && id in p.registrations
    ensures q.Valid()
  {
    p.(registrations := p.registrations[id := r])
  }

  /** Taken off the list and put on the freelist. */
  function Removed(p: Poll, id: Id): (q: Poll)
    requires p.Valid() && id in p.registrations
    ensures q.Valid() && q.Allocated() == p.Allocated()
  {
    WithoutDistinct(p.list, id);
    p.(list := Without(p.list, id), registrations := p.registrations - {id}, free := p.free + {id})
  }
}
