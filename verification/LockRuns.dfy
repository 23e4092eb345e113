/** fcntl_setlk and its waiters over every run, and the guest's struct flock. */
module LockRuns {
  import opened FileLocks
  import opened RecordLocks

  // ---- runs ----

  type Thread = nat

  /** The lock list, and the threads asleep on posix_unlock with what they asked for. */
  datatype World = World(locks: seq<FileLock>, sleepers: map<Thread, FileLock>)

  datatype Event =
    | SetLock(thread: Thread, request: FileLock, blocking: bool)  // one turn of the loop in fcntl_setlk
    | Interrupted(thread: Thread)                                 // wait_for returned an error
    | Closed(owner: Owner)                                        // file_lock_remove_owned_by

  /** Each turn runs under inode->lock; notify wakes every sleeper, and a woken
      thread is one that will take another turn. */
  function Next(w: World, e: Event): World {
    match e
    case SetLock(t, r, blocking) =>
      if r.kind != Unlock && Conflicts(w.locks, r) then
        if blocking then w.(sleepers := w.sleepers[t := r]) else w.(sleepers := w.sleepers - {t})
      else
        World(Place(r, w.locks, false), if Notifies(r, w.locks, false) then map[] else w.sleepers - {t})
    case Interrupted(t) => w.(sleepers := w.sleepers - {t})
    case Closed(o) => World(Without(w.locks, o), if Absent(o, w.locks) then w.sleepers else map[])
  }

  predicate Legal(e: Event) {
    e.SetLock? ==> Request(e.request)
  }

  function Run(events: seq<Event>): World {
    if events == [] then World([], map[])
    else Next(Run(events[..|events| - 1]), events[|events| - 1])
  }

  /** The list is canonical and compatible, and whoever sleeps still has to. */
  ghost predicate Sound(w: World) {
    && Canonical(w.locks) && Compatible(w.locks)
    && forall t :: t in w.sleepers ==>
         Request(w.sleepers[t]) && w.sleepers[t].kind != Unlock && Conflicts(w.locks, w.sleepers[t])
  }

  /** A grant that notifies nobody leaves every conflict in place. */
  lemma SilentGrantKeepsConflicts(locks: seq<FileLock>, r: FileLock, q: FileLock)
    requires Canonical(locks) && Request(r) && Request(q)
    requires !Notifies(r, locks, false) && Conflicts(locks, q)
    ensures Conflicts(Place(r, locks, false), q)
  {
    var after := Place(r, locks, false);
    PlaceIsGrant(r, locks);
    PlaceCanonical(r, locks, false);
    ConflictsByByte(locks, q);
    ConflictsByByte(after, q);
    var o: Owner, b: int, k: Kind :|
      Holds(locks, o, b, k) && o != q.owner && q.Has(b) && (k == WriteLock || q.kind == WriteLock);
    if o == r.owner && r.Has(b) {
      NotifiesGiven(r, locks);
      var i :| 0 <= i < |locks| && locks[i].owner == o && locks[i].Has(b) && locks[i].kind == k;
      CanonicalAt(locks, i);
    }
    assert Holds(after, o, b, k);
  }

  lemma {:induction false} WithoutAbsent(locks: seq<FileLock>, o: Owner)
    requires Absent(o, locks)
    ensures Without(locks, o) == locks
  {
    if locks != [] {
      WithoutAbsent(locks[1..], o);
    }
  }

  lemma NextSound(w: World, e: Event)
    requires Sound(w) && Legal(e)
    ensures Sound(Next(w, e))
  {
    match e
    case SetLock(t, r, blocking) =>
      if !(r.kind != Unlock && Conflicts(w.locks, r)) {
        PlaceIsGrant(r, w.locks);
        PlaceCanonical(r, w.locks, false);
        GrantCompatible(w.locks, r, Place(r, w.locks, false));
        if !Notifies(r, w.locks, false) {
          forall u | u in w.sleepers - {t}
            ensures Conflicts(Place(r, w.locks, false), w.sleepers[u])
          {
            SilentGrantKeepsConflicts(w.locks, r, w.sleepers[u]);
          }
        }
      }
    case Interrupted(t) =>
    case Closed(o) =>
      WithoutCanonical(w.locks, o);
      WithoutMeans(w.locks, o);
      if Absent(o, w.locks) {
        WithoutAbsent(w.locks, o);
      }
  }

  /** Over every run the list stays canonical, no byte is write-locked against
      another holder, and no sleeper has missed its wakeup: each one asleep still
      conflicts with the list. */
  lemma {:induction false} RunsSound(events: seq<Event>)
    requires forall i :: 0 <= i < |events| ==> Legal(events[i])
    ensures Sound(Run(events))
  {
    if events != [] {
      RunsSound(events[..|events| - 1]);
      NextSound(Run(events[..|events| - 1]), events[|events| - 1]);
    }
  }

  // ---- what a turn does, byte by byte ----

  /** Another owner holds a byte of the request, one of the two for writing. */
  ghost predicate Blocked(locks: seq<FileLock>, r: FileLock) {
    r.kind != Unlock && exists o: Owner, b: int, k: Kind ::
      Holds(locks, o, b, k) && o != r.owner && r.Has(b) && (k == WriteLock || r.kind == WriteLock)
  }

  /** The requester loses a lock of another kind on a byte of the request. */
  ghost predicate Gives(locks: seq<FileLock>, r: FileLock) {
    exists b: int, k: Kind :: Holds(locks, r.owner, b, k) && r.Has(b) && k != r.kind
  }

  /** A blocked request changes no lock and sleeps, or fails; any other is granted byte by
      byte. All sleepers are woken exactly when the requester gave a byte up. */
  lemma TurnMeans(w: World, t: Thread, r: FileLock, blocking: bool)
    requires Sound(w) && Request(r)
    ensures var after := Next(w, SetLock(t, r, blocking));
      if Blocked(w.locks, r) then
        after.locks == w.locks && after.sleepers == if blocking then w.sleepers[t := r] else w.sleepers - {t}
      else
        && Granted(w.locks, r, after.locks)
        && after.sleepers == if Gives(w.locks, r) then map[] else w.sleepers - {t}
  {
    ConflictsByByte(w.locks, r);
    PlaceIsGrant(r, w.locks);
    NotifiesGiven(r, w.locks);
  }

  lemma NotifiesGiven(r: FileLock, locks: seq<FileLock>)
    requires Canonical(locks) && Request(r)
    ensures Notifies(r, locks, false) <==> Gives(locks, r)
  {
    NotifiesIff(r, locks, false);
    if Notifies(r, locks, false) {
      var i :| 0 <= i < |locks| && locks[i].owner == r.owner && locks[i].kind != r.kind && Overlap(locks[i], r);
      CanonicalAt(locks, i);
      var b := if locks[i].start < r.start then r.start else locks[i].start;
      assert Holds(locks, r.owner, b, locks[i].kind) && r.Has(b);
    }
    if Gives(locks, r) {
      var b: int, k: Kind :| Holds(locks, r.owner, b, k) && r.Has(b) && k != r.kind;
      var i :| 0 <= i < |locks| && locks[i].owner == r.owner && locks[i].Has(b) && locks[i].kind == k;
      assert Overlap(locks[i], r);
    }
  }

  /** A closed owner's locks are gone, all sleepers woken when there were any, and an
      interrupted thread merely stops waiting. */
  lemma OthersMean(w: World, o: Owner, t: Thread)
    requires Sound(w)
    ensures var after := Next(w, Closed(o));
      && (forall p: Owner, b: int, k: Kind :: Holds(after.locks, p, b, k) <==> p != o && Holds(w.locks, p, b, k))
      && after.sleepers == if exists b: int, k: Kind :: Holds(w.locks, o, b, k) then map[] else w.sleepers
    ensures Next(w, Interrupted(t)) == w.(sleepers := w.sleepers - {t})
  {
    WithoutMeans(w.locks, o);
    if !Absent(o, w.locks) {
      var i :| 0 <= i < |w.locks| && w.locks[i].owner == o;
      CanonicalAt(w.locks, i);
      assert Holds(w.locks, o, w.locks[i].start, w.locks[i].kind);
    }
  }

  // ---- struct flock ----

  datatype Error = EINVAL | EOVERFLOW | Provider(code: int)

  datatype Outcome<T> = Ok(value: T) | Err(error: Error)

  /** The offset that whence stands for: 0, the file position, or the size. The
      first two cases of failure come from the file; an unknown whence is EINVAL. */
  datatype Whence = Start | Position(at: Outcome<int>) | End(size: Outcome<nat>) | Unknown

  function Base(whence: Whence): Outcome<int> {
    match whence
    case Start => Ok(0)
    case Position(at) => at
    case End(Err(e)) => Err(e)
    case End(Ok(size)) => if size > OFF_MAX then Err(EOVERFLOW) else Ok(size)
    case Unknown => Err(EINVAL)
  }

  datatype Flock = Flock(kind: Kind, whence: Whence, start: int, len: int, pid: int)

  predicate Int64(x: int) {
    -OFF_MAX - 1 <= x <= OFF_MAX
  }

  /** file_lock_from_flock */
  function FromFlock(f: Flock, owner: Owner, pid: int): Outcome<FileLock> {
    match Base(f.whence)
    case Err(e) => Err(e)
    case Ok(offset) =>
      var start := f.start + offset;
      if !Int64(start) then Err(EOVERFLOW)
      else if start < 0 then Err(EINVAL)
      else if f.len > 0 then
        if !Int64(start + (f.len - 1)) then Err(EOVERFLOW)
        else Ok(FileLock(start, start + (f.len - 1), f.kind, owner, pid))
      else if f.len < 0 then
        if !Int64(start + f.len) then Err(EOVERFLOW)
        else if start + f.len < 0 || start == 0 then Err(EINVAL)
        else Ok(FileLock(start + f.len, start - 1, f.kind, owner, pid))
      else Ok(FileLock(start, OFF_MAX, f.kind, owner, pid))
  }

  /** flock_from_file_lock */
  function ToFlock(l: FileLock): Flock {
    Flock(l.kind, Start, l.start, if l.end != OFF_MAX then l.end - l.start + 1 else 0, l.pid)
  }

  /** b is one of the bytes fcntl() says the structure describes, s being the
      resolved start: len of them from s, -len of them before s, or all from s on. */
  predicate Describes(s: int, len: int, b: int) {
    if len > 0 then s <= b < s + len
    else if len < 0 then s + len <= b < s
    else s <= b <= 0x7fff_ffff_ffff_ffff
  }

  ghost predicate WithinFile(s: int, len: int) {
    forall b: int :: Describes(s, len, b) ==> 0 <= b <= 0x7fff_ffff_ffff_ffff
  }

  lemma WithinFileByEdges(s: int, len: int)
    requires 0 <= s <= OFF_MAX
    ensures WithinFile(s, len) <==> if len > 0 then s + len - 1 <= OFF_MAX else 0 <= s + len
  {
    var edge := if len > 0 then s + len - 1 else s + len;
    assert len != 0 ==> Describes(s, len, edge);
  }

  /** The offset is resolved from whence. */
  predicate From(whence: Whence, offset: int) {
    (whence == Start && offset == 0) || whence == Position(Ok(offset))
    || (0 <= offset <= OFF_MAX && whence == End(Ok(offset)))
  }

  /** A structure is accepted exactly when its start and its bytes all are offsets
      a file can have. The lock then covers those bytes and no others, is of the kind asked
      for and the caller's, and is a request file_lock_acquire takes. A number that 64 bits do
      not hold is an overflow, anything else before the start of the file is invalid. */
  lemma FromFlockExact(f: Flock, owner: Owner, pid: int, offset: int)
    requires Int64(f.len) && From(f.whence, offset)
    ensures var s, lock := f.start + offset, FromFlock(f, owner, pid);
      && (lock.Ok? <==> 0 <= s <= 0x7fff_ffff_ffff_ffff && WithinFile(s, f.len))
      && (lock.Ok? ==> Request(lock.value) && forall b: int :: lock.value.Has(b) <==> Describes(s, f.len, b))
      && (lock.Ok? ==> lock.value.kind == f.kind && lock.value.owner == owner && lock.value.pid == pid)
      && (lock == Err(EOVERFLOW) <==> !Int64(s) || (s >= 0 && f.len > 0 && !WithinFile(s, f.len)))
      && (lock.Err? ==> lock.error == EOVERFLOW || lock.error == EINVAL)
  {
    var s := f.start + offset;
    if 0 <= s <= OFF_MAX {
      WithinFileByEdges(s, f.len);
    }
  }

  /** Without an offset there is no lock: the file's own error, a size no offset can have, or
      an unknown whence. */
  lemma FromFlockNowhere(f: Flock, owner: Owner, pid: int, e: Error, size: nat)
    ensures f.whence == Position(Err(e)) || f.whence == End(Err(e)) ==> FromFlock(f, owner, pid) == Err(e)
    ensures f.whence == End(Ok(size)) && size > OFF_MAX ==> FromFlock(f, owner, pid) == Err(EOVERFLOW)
    ensures f.whence == Unknown ==> FromFlock(f, owner, pid) == Err(EINVAL)
  {
  }

  /** What F_GETLK reports describes the lock it found, by its kind, bytes and process, and
      reading it back gives the same lock, also one that runs to the last offset. */
  lemma FlockRoundTrip(l: FileLock)
    requires Request(l)
    ensures Int64(ToFlock(l).len) && ToFlock(l).whence == Start && ToFlock(l).kind == l.kind && ToFlock(l).pid == l.pid
    ensures forall b: int :: l.Has(b) <==> Describes(ToFlock(l).start, ToFlock(l).len, b)
    ensures FromFlock(ToFlock(l), l.owner, l.pid) == Ok(l)
  {
  }
}
