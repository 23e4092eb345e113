/** fakefs metadata rows and interned inodes (fs/fake.c, fs/inode.c, fs/generic.c), as steps by
    many threads under two locks: the database lock, held for one transaction, and
    inodes_lock, held across several of them. One mount. */
module FakeFs {

  type Path = string
  type Ino = x: nat | x < 0x1_0000_0000_0000_0000
  type Device = x: nat | x < 0x1_0000_0000_0000_0000
  type Thread = nat
  type Meta = nat       // a struct ish_stat

  /** A row of the stats table. SQLite may give the number of a deleted row to a new one, so a
      row also carries when it was inserted. */
  datatype Row = Row(birth: nat, meta: Meta)

  /** What inode_data objects are interned by. */
  datatype Key = Key(device: Device, number: Ino)

  /** Who holds an inode reference: an open file, remembering the row it opened, or a socket
      or mapping that never looked at the row. */
  datatype Holder = Opened(key: Key, birth: nat) | Other(key: Key)

  /** An fd that provider_open has returned and generic_openat has not yet interned. */
  datatype Fetched = Fetched(number: Ino, birth: nat)

  /** inodes_lock: free, or how far its holder has come. */
  datatype InodesLock = Free | Statting(thread: Thread) | Found(thread: Thread) | Orphaning(number: Ino)

  datatype State = State(
    paths: map<Path, Ino>, stats: map<Ino, Row>, births: nat,
    opening: map<Thread, Fetched>, checks: map<Thread, Ino>,
    interned: map<Key, nat>, holders: map<nat, Holder>, lock: InodesLock)

  datatype Event =
    | Open(thread: Thread, path: Path, creates: bool, number: Ino, meta: Meta)
    | Create(path: Path, number: Ino, meta: Meta)
    | Link(src: Path, dst: Path)
    | Rename(paths: map<Path, Ino>)
    | Unlink(thread: Thread, path: Path)
    | Check(thread: Thread)
    | LockInodes(thread: Thread)
    | Fstat(thread: Thread)
    | Intern(thread: Thread, holder: nat, device: Device)
    | Reopen(thread: Thread)
    | GetInode(holder: nat, key: Key)
    | Retain(holder: nat, another: nat)
    | Release(holder: nat)
    | Cleanup
    | Setattr(path: Path, meta: Meta)
    | Fsetattr(holder: nat, meta: Meta)

  /** inode_number_is_live */
  predicate Live(interned: map<Key, nat>, number: Ino) {
    exists key :: key in interned && key.number == number
  }

  function HoldersOf(holders: map<nat, Holder>, key: Key): set<nat> {
    set h | h in holders && holders[h].key == key
  }

  ghost predicate Counted(interned: map<Key, nat>, holders: map<nat, Holder>) {
    && (forall h :: h in holders ==> holders[h].key in interned)
    && (forall key :: key in interned ==> interned[key] == |HoldersOf(holders, key)| > 0)
  }

  /** The row a file was opened on is still there. */
  predicate HasRow(stats: map<Ino, Row>, h: Holder)
    requires h.Opened?
  {
    h.key.number in stats && stats[h.key.number].birth == h.birth
  }

  predicate FilesHaveRows(stats: map<Ino, Row>, holders: map<nat, Holder>) {
    forall h :: h in holders && holders[h].Opened? ==> HasRow(stats, holders[h])
  }

  predicate PathsHaveRows(s: State) {
    && (forall p :: p in s.paths ==> s.paths[p] in s.stats)
    && (forall n :: n in s.stats ==> s.stats[n].birth < s.births)
  }

  ghost predicate LockSound(s: State) {
    && (s.lock.Statting? ==> s.lock.thread in s.opening)
    && (s.lock.Found? ==> s.lock.thread in s.opening && s.opening[s.lock.thread].number in s.stats)
    && (s.lock.Orphaning? ==> !Live(s.interned, s.lock.number))
  }

  ghost predicate Sound(s: State) {
    PathsHaveRows(s) && Counted(s.interned, s.holders) && FilesHaveRows(s.stats, s.holders) && LockSound(s)
  }

  predicate Enabled(s: State, e: Event) {
    match e
    case Open(t, path, creates, number, _) =>
      t !in s.opening && if path in s.paths then true else creates && number !in s.stats
    case Create(_, number, _) => number !in s.stats
    case Link(src, _) => src in s.paths
    case Rename(paths) => forall p :: p in paths ==> paths[p] in s.paths.Values
    case Unlink(t, path) => t !in s.checks && path in s.paths
    case Check(t) => s.lock.Free? && t in s.checks
    case LockInodes(t) => s.lock.Free? && t in s.opening
    case Fstat(t) => s.lock == Statting(t)
    case Intern(t, h, _) => s.lock == Found(t) && h !in s.holders
    case Reopen(t) => s.lock == Found(t)
    case GetInode(h, _) => s.lock.Free? && h !in s.holders
    case Retain(h, another) => h in s.holders && another !in s.holders
    case Release(h) => s.lock.Free? && h in s.holders
    case Cleanup => s.lock.Orphaning?
    case Setattr(_, _) => true
    case Fsetattr(h, _) => h in s.holders && s.holders[h].Opened?
  }

  /** path_create */
  function Inserted(s: State, path: Path, n: Ino, meta: Meta): State {
    s.(stats := s.stats[n := Row(s.births, meta)], births := s.births + 1, paths := s.paths[path := n])
  }

  /** inode_write_stat: an update, so nothing when the row is missing. */
  function Written(s: State, n: Ino, meta: Meta): State {
    if n in s.stats then s.(stats := s.stats[n := s.stats[n].(meta := meta)]) else s
  }

  /** inode_get_unlocked and inode_retain */
  function Taken(interned: map<Key, nat>, key: Key): map<Key, nat> {
    interned[key := (if key in interned then interned[key] else 0) + 1]
  }

  /** The last reference takes the inode out of the hash. */
  function Dropped(interned: map<Key, nat>, key: Key): map<Key, nat>
    requires key in interned
  {
    if interned[key] > 1 then interned[key := interned[key] - 1] else interned - {key}
  }

  /** A number that is not interned has its row looked at under the lock, others are left. */
  function Told(interned: map<Key, nat>, number: Ino): InodesLock {
    if Live(interned, number) then Free else Orphaning(number)
  }

  function Held(s: State, h: nat, holder: Holder): State {
    s.(interned := Taken(s.interned, holder.key), holders := s.holders[h := holder])
  }

  /** inode_release */
  function Released(s: State, h: nat): State
    requires h in s.holders && s.holders[h].key in s.interned
  {
    var rest := Dropped(s.interned, s.holders[h].key);
    s.(interned := rest, holders := s.holders - {h}, lock := Told(rest, s.holders[h].key.number))
  }

  /** Reopen: the file turned out not to be a regular one to truncate, and its fd is closed
      so that it can be opened again without. */
  ghost function Next(s: State, e: Event): State
    requires Sound(s) && Enabled(s, e)
  {
    match e
    case Open(t, path, _, number, meta) =>
      var r := if path in s.paths then s else Inserted(s, path, number, meta);
      r.(opening := r.opening[t := Fetched(r.paths[path], r.stats[r.paths[path]].birth)])
    case Create(path, number, meta) => Inserted(s, path, number, meta)
    case Link(src, dst) => s.(paths := s.paths[dst := s.paths[src]])
    case Rename(paths) => s.(paths := paths)
    case Unlink(t, path) => s.(paths := s.paths - {path}, checks := s.checks[t := s.paths[path]])
    case Check(t) => s.(checks := s.checks - {t}, lock := Told(s.interned, s.checks[t]))
    case LockInodes(t) => s.(lock := Statting(t))
    case Fstat(t) =>
      if s.opening[t].number in s.stats then s.(lock := Found(t))
      else s.(lock := Free, opening := s.opening - {t})
    case Intern(t, h, device) =>
      var n := s.opening[t].number;
      Held(s, h, Opened(Key(device, n), s.stats[n].birth)).(lock := Free, opening := s.opening - {t})
    case Reopen(t) => s.(lock := Free, opening := s.opening - {t})
    case GetInode(h, key) => Held(s, h, Other(key))
    case Retain(h, another) => Held(s, another, Other(s.holders[h].key))
    case Release(h) => Released(s, h)
    case Cleanup =>
      s.(stats := if s.lock.number in s.paths.Values then s.stats else s.stats - {s.lock.number}, lock := Free)
    case Setattr(path, meta) => if path in s.paths then Written(s, s.paths[path], meta) else s
    case Fsetattr(h, meta) => Written(s, s.holders[h].key.number, meta)
  }

  // ---- every step keeps it ----

  lemma HoldersAdd(holders: map<nat, Holder>, h: nat, holder: Holder, key: Key)
    requires h !in holders
    ensures |HoldersOf(holders[h := holder], key)| == |HoldersOf(holders, key)| + (if key == holder.key then 1 else 0)
  {
    assert HoldersOf(holders[h := holder], key) == HoldersOf(holders, key) + (if key == holder.key then {h} else {});
  }

  lemma HoldersRemove(holders: map<nat, Holder>, h: nat, key: Key)
    requires h in holders
    ensures |HoldersOf(holders - {h}, key)| == |HoldersOf(holders, key)| - (if key == holders[h].key then 1 else 0)
  {
    assert HoldersOf(holders, key) == HoldersOf(holders - {h}, key) + (if key == holders[h].key then {h} else {});
  }

  lemma HasHolder(holders: map<nat, Holder>, key: Key, h: nat)
    requires h in holders && holders[h].key == key
    ensures |HoldersOf(holders, key)| > 0
  {
    assert h in HoldersOf(holders, key);
  }

  lemma NoHolders(interned: map<Key, nat>, holders: map<nat, Holder>, key: Key)
    requires Counted(interned, holders) && key !in interned
    ensures |HoldersOf(holders, key)| == 0
  {
    assert HoldersOf(holders, key) == {};
  }

  lemma HeldCounted(s: State, h: nat, holder: Holder)
    requires Counted(s.interned, s.holders) && h !in s.holders
    ensures Counted(Held(s, h, holder).interned, Held(s, h, holder).holders)
  {
    hide HoldersOf;
    var r := Held(s, h, holder);
    forall key | key in r.interned
      ensures r.interned[key] == |HoldersOf(r.holders, key)| > 0
    {
      HoldersAdd(s.holders, h, holder, key);
      if key !in s.interned {
        NoHolders(s.interned, s.holders, key);
      }
    }
  }

  lemma ReleasedCounted(s: State, h: nat)
    requires Counted(s.interned, s.holders) && h in s.holders
    ensures Counted(Released(s, h).interned, Released(s, h).holders)
  {
    hide HoldersOf, Live;
    var r, k := Released(s, h), s.holders[h].key;
    HoldersRemove(s.holders, h, k);
    forall g | g in r.holders
      ensures r.holders[g].key in r.interned
    {
      if r.holders[g].key == k {
        HasHolder(r.holders, k, g);
      }
    }
    forall key | key in r.interned
      ensures r.interned[key] == |HoldersOf(r.holders, key)| > 0
    {
      HoldersRemove(s.holders, h, key);
    }
  }

  lemma HolderLive(s: State, h: nat)
    requires Counted(s.interned, s.holders) && h in s.holders
    ensures s.holders[h].key in s.interned && Live(s.interned, s.holders[h].key.number)
  {
    assert s.holders[h].key in s.interned;
  }

  lemma HeldSound(s: State, h: nat, holder: Holder, lock: InodesLock)
    requires Sound(s) && h !in s.holders
    requires holder.Opened? ==> HasRow(s.stats, holder)
    requires lock == Free || (lock == s.lock && Live(s.interned, holder.key.number))
    ensures Sound(Held(s, h, holder).(lock := lock))
  {
    hide Counted, PathsHaveRows;
    HeldCounted(s, h, holder);
    HeldLive(s, h, holder);
    assert PathsHaveRows(Held(s, h, holder).(lock := lock)) by {
      SamePaths(s, Held(s, h, holder).(lock := lock));
    }
    hide Held, Live;
    HeldRows(s, h, holder);
  }

  lemma SamePaths(s: State, r: State)
    requires PathsHaveRows(s) && r.paths == s.paths && r.stats == s.stats && r.births == s.births
    ensures PathsHaveRows(r)
  {
  }

  lemma HeldRows(s: State, h: nat, holder: Holder)
    requires FilesHaveRows(s.stats, s.holders) && (holder.Opened? ==> HasRow(s.stats, holder))
    ensures FilesHaveRows(s.stats, Held(s, h, holder).holders)
    ensures Held(s, h, holder).stats == s.stats && Held(s, h, holder).opening == s.opening
  {
    hide HasRow;
  }

  /** A reference makes its number live and no other. */
  lemma HeldLive(s: State, h: nat, holder: Holder)
    ensures forall n :: Live(Held(s, h, holder).interned, n) ==> n == holder.key.number || Live(s.interned, n)
  {
  }

  lemma ReleasedSound(s: State, h: nat)
    requires Sound(s) && s.lock.Free? && h in s.holders
    ensures Sound(Released(s, h))
  {
    hide Counted, HasRow;
    HolderLive(s, h);
    ReleasedCounted(s, h);
    SamePaths(s, Released(s, h));
  }

  /** Only an interned number gains a reference while its row is being cleaned up. */
  lemma InodeStepSound(s: State, e: Event)
    requires Sound(s) && Enabled(s, e) && (e.Intern? || e.GetInode? || e.Retain? || e.Release?)
    ensures Sound(Next(s, e))
  {
    hide Counted, PathsHaveRows, FilesHaveRows, Live;
    match e
    case Intern(t, h, device) =>
      var holder := Opened(Key(device, s.opening[t].number), s.stats[s.opening[t].number].birth);
      HeldSound(s, h, holder, Free);
      hide Held;
      StopsOpening(Held(s, h, holder).(lock := Free), t);
    case GetInode(h, key) =>
      HeldSound(s, h, Other(key), Free);
    case Retain(h, another) =>
      HolderLive(s, h);
      HeldSound(s, another, Other(s.holders[h].key), s.lock);
    case Release(h) =>
      ReleasedSound(s, h);
  }

  lemma StopsOpening(s: State, t: Thread)
    requires Sound(s) && s.lock == Free
    ensures Sound(s.(opening := s.opening - {t}))
  {
    hide Counted, FilesHaveRows, Live;
  }

  lemma InsertedSound(s: State, path: Path, n: Ino, meta: Meta)
    requires Sound(s) && n !in s.stats
    ensures Sound(Inserted(s, path, n, meta))
  {
    hide Counted, Live;
  }

  lemma CleanupSound(s: State)
    requires Sound(s) && s.lock.Orphaning?
    ensures Sound(Next(s, Cleanup))
  {
    forall h | h in s.holders
      ensures s.holders[h].key.number != s.lock.number
    {
      HolderLive(s, h);
    }
    hide Counted, Live;
    forall p | p in s.paths
      ensures s.paths[p] in Next(s, Cleanup).stats
    {
      assert s.paths[p] in s.paths.Values;
    }
  }

  lemma RenameSound(s: State, paths: map<Path, Ino>)
    requires Sound(s) && forall p :: p in paths ==> paths[p] in s.paths.Values
    ensures Sound(s.(paths := paths))
  {
    hide Counted, Live;
  }

  lemma WrittenSound(s: State, n: Ino, meta: Meta)
    requires Sound(s)
    ensures Sound(Written(s, n, meta))
  {
    hide Counted, Live;
  }

  lemma DatabaseStepSound(s: State, e: Event)
    requires Sound(s) && Enabled(s, e) && !(e.Intern? || e.GetInode? || e.Retain? || e.Release?)
    ensures Sound(Next(s, e))
  {
    hide Counted, FilesHaveRows, Written, Live;
    match e
    case Open(t, path, creates, number, meta) =>
      if path !in s.paths {
        InsertedSound(s, path, number, meta);
      }
    case Create(path, number, meta) => InsertedSound(s, path, number, meta);
    case Rename(paths) => RenameSound(s, paths);
    case Cleanup => CleanupSound(s);
    case Setattr(path, meta) =>
      if path in s.paths {
        WrittenSound(s, s.paths[path], meta);
      }
    case Fsetattr(h, meta) => WrittenSound(s, s.holders[h].key.number, meta);
    case _ =>
  }

  lemma NextSound(s: State, e: Event)
    requires Sound(s) && Enabled(s, e)
    ensures Sound(Next(s, e))
  {
    hide *;
    if e.Intern? || e.GetInode? || e.Retain? || e.Release? {
      InodeStepSound(s, e);
    } else {
      DatabaseStepSound(s, e);
    }
  }

  // ---- runs ----

  ghost predicate Step(s: State, e: Event, t: State) {
    Enabled(s, e) && (Sound(s) ==> t == Next(s, e))
  }

  ghost predicate Run(states: seq<State>, events: seq<Event>) {
    && |states| == |events| + 1 && Sound(states[0])
    && forall k :: 0 <= k < |events| ==> Step(states[k], events[k], states[k + 1])
  }

  /** A mount whose database is consistent, before anything is open. */
  lemma StartSound(paths: map<Path, Ino>, stats: map<Ino, Row>, births: nat)
    requires (forall p :: p in paths ==> paths[p] in stats) && forall n :: n in stats ==> stats[n].birth < births
    ensures Sound(State(paths, stats, births, map[], map[], map[], map[], Free))
  {
  }

  lemma {:induction false} RunsSound(states: seq<State>, events: seq<Event>, k: nat)
    requires Run(states, events) && k < |states|
    ensures Sound(states[k])
  {
    if k > 0 {
      RunsSound(states, events, k - 1);
      hide Sound, Next, Enabled;
      assert Step(states[k - 1], events[k - 1], states[k]);
      NextSound(states[k - 1], events[k - 1]);
    }
  }

  lemma HolderStays(s: State, e: Event, h: nat)
    requires Sound(s) && Enabled(s, e) && h in s.holders && e != Release(h)
    ensures h in Next(s, e).holders && Next(s, e).holders[h] == s.holders[h]
  {
    hide Sound, Live, Inserted, Written;
    match e
    case Open(_, path, _, number, meta) =>
      assert Inserted(s, path, number, meta).holders == s.holders by {
        InsertedHolders(s, path, number, meta);
      }
    case Create(path, number, meta) => InsertedHolders(s, path, number, meta);
    case Setattr(path, meta) =>
      if path in s.paths {
        WrittenHolders(s, s.paths[path], meta);
      }
    case Fsetattr(g, meta) => WrittenHolders(s, s.holders[g].key.number, meta);
    case _ =>
  }

  lemma InsertedHolders(s: State, path: Path, number: Ino, meta: Meta)
    ensures Inserted(s, path, number, meta).holders == s.holders
  {
  }

  lemma WrittenHolders(s: State, number: Ino, meta: Meta)
    ensures Written(s, number, meta).holders == s.holders
  {
  }

  /** From the moment open interns the inode until the file is released, the row it was
      opened on is in the database, whatever is unlinked, created or released meanwhile. */
  lemma {:induction false} RowOutlivesFile(states: seq<State>, events: seq<Event>, k: nat, l: nat, h: nat)
    requires Run(states, events) && k <= l < |states| && h in states[k].holders && states[k].holders[h].Opened?
    requires forall j :: k <= j < l ==> events[j] != Release(h)
    ensures h in states[l].holders && states[l].holders[h] == states[k].holders[h]
    ensures HasRow(states[l].stats, states[k].holders[h])
    decreases l
  {
    RunsSound(states, events, l);
    if k < l {
      RowOutlivesFile(states, events, k, l - 1, h);
      RunsSound(states, events, l - 1);
      hide Next, Enabled, Counted, PathsHaveRows, LockSound, HasRow;
      assert Step(states[l - 1], events[l - 1], states[l]);
      HolderStays(states[l - 1], events[l - 1], h);
    }
  }

  /** fakefs_fsetattr: inode_read_stat_or_die finds the row, and only its attributes change. */
  lemma FsetattrFindsRow(s: State, h: nat, meta: Meta)
    requires Sound(s) && Enabled(s, Fsetattr(h, meta))
    ensures var n, r := s.holders[h].key.number, Next(s, Fsetattr(h, meta));
      n in s.stats && r == s.(stats := s.stats[n := Row(s.holders[h].birth, meta)])
  {
    assert HasRow(s.stats, s.holders[h]);
  }

  // ---- the window between fetching a number and interning it ----

  /** The row of number n is deleted: nothing refers to it and it is not interned. */
  predicate Deletes(s: State, e: Event, n: Ino) {
    e.Cleanup? && s.lock == Orphaning(n) && n in s.stats && n !in s.paths.Values
  }

  predicate RowOf(s: State, n: Ino, birth: nat) {
    n in s.stats && s.stats[n].birth == birth
  }

  lemma RowStep(s: State, e: Event, n: Ino, birth: nat)
    requires Sound(s) && Enabled(s, e) && birth < s.births
    ensures s.births <= Next(s, e).births
    ensures RowOf(Next(s, e), n, birth) <==> RowOf(s, n, birth) && !Deletes(s, e, n)
  {
    hide Sound, Live, RowOf, Deletes;
    match e
    case Open(_, path, _, number, meta) =>
      if path !in s.paths {
        InsertedRow(s, path, number, meta, n, birth);
      }
      SameStats(if path in s.paths then s else Inserted(s, path, number, meta), Next(s, e), n, birth);
      KeptRow(s, e, n);
    case Create(path, number, meta) =>
      InsertedRow(s, path, number, meta, n, birth);
      KeptRow(s, e, n);
    case Cleanup => CleanedRow(s, n, birth);
    case Setattr(path, meta) =>
      if path in s.paths {
        WrittenRow(s, s.paths[path], meta, n, birth);
      }
      KeptRow(s, e, n);
    case Fsetattr(h, meta) =>
      WrittenRow(s, s.holders[h].key.number, meta, n, birth);
      KeptRow(s, e, n);
    case _ =>
      KeptRow(s, e, n);
      SameRows(s, e, n, birth);
  }

  lemma InsertedRow(s: State, path: Path, number: Ino, meta: Meta, n: Ino, birth: nat)
    requires number !in s.stats && birth < s.births
    ensures RowOf(Inserted(s, path, number, meta), n, birth) <==> RowOf(s, n, birth)
  {
  }

  lemma WrittenRow(s: State, number: Ino, meta: Meta, n: Ino, birth: nat)
    ensures RowOf(Written(s, number, meta), n, birth) <==> RowOf(s, n, birth)
    ensures Written(s, number, meta).births == s.births
  {
  }

  lemma KeptRow(s: State, e: Event, n: Ino)
    requires !e.Cleanup?
    ensures !Deletes(s, e, n)
  {
  }

  lemma CleanedRow(s: State, n: Ino, birth: nat)
    requires Sound(s) && Enabled(s, Cleanup)
    ensures Next(s, Cleanup).births == s.births
    ensures RowOf(Next(s, Cleanup), n, birth) <==> RowOf(s, n, birth) && !Deletes(s, Cleanup, n)
  {
    hide Sound;
  }

  lemma SameStats(s: State, r: State, n: Ino, birth: nat)
    requires r.stats == s.stats
    ensures RowOf(r, n, birth) <==> RowOf(s, n, birth)
  {
  }

  lemma SameRows(s: State, e: Event, n: Ino, birth: nat)
    requires Sound(s) && Enabled(s, e)
    requires !(e.Open? || e.Create? || e.Cleanup? || e.Setattr? || e.Fsetattr?)
    ensures Next(s, e).births == s.births && (RowOf(Next(s, e), n, birth) <==> RowOf(s, n, birth))
  {
    hide Counted, PathsHaveRows, FilesHaveRows, Live, Held, Released, RowOf;
    match e {
      case Intern(t, h, device) =>
        var f := s.opening[t];
        HeldTables(s, h, Opened(Key(device, f.number), s.stats[f.number].birth));
      case GetInode(h, key) => HeldTables(s, h, Other(key));
      case Retain(h, another) => HeldTables(s, another, Other(s.holders[h].key));
      case Release(h) =>
        HolderLive(s, h);
        ReleasedTables(s, h);
      case _ =>
    }
    SameStats(s, Next(s, e), n, birth);
  }

  lemma HeldTables(s: State, h: nat, holder: Holder)
    ensures var r := Held(s, h, holder); r.stats == s.stats && r.births == s.births && r.paths == s.paths
  {
  }

  lemma ReleasedTables(s: State, h: nat)
    requires h in s.holders && s.holders[h].key in s.interned
    ensures var r := Released(s, h); r.stats == s.stats && r.births == s.births && r.paths == s.paths
  {
  }

  lemma {:induction false} RowThrough(states: seq<State>, events: seq<Event>, k: nat, l: nat, n: Ino, birth: nat)
    requires Run(states, events) && k <= l < |states| && birth < states[k].births
    ensures birth < states[l].births
    ensures RowOf(states[l], n, birth)
        <==> RowOf(states[k], n, birth) && forall j :: k <= j < l ==> !Deletes(states[j], events[j], n)
    decreases l
  {
    if k < l {
      RowThrough(states, events, k, l - 1, n, birth);
      RunsSound(states, events, l - 1);
      hide Next, Enabled, Sound, RowOf, Deletes;
      assert Step(states[l - 1], events[l - 1], states[l]);
      RowStep(states[l - 1], events[l - 1], n, birth);
    }
  }

  /** An open that fetched its number at step k interns the row it fetched if and only if that
      row was not cleaned up before. */
  lemma OpenKeepsItsRow(states: seq<State>, events: seq<Event>, k: nat, l: nat, t: Thread)
    requires Run(states, events) && k < l < |events| && events[k].Open? && events[k].thread == t
    requires events[l].Intern? && events[l].thread == t && t in states[k + 1].opening && t in states[l].opening
    requires states[l].opening[t] == states[k + 1].opening[t]
    ensures events[l].holder in states[l + 1].holders && states[l + 1].holders[events[l].holder].Opened?
    ensures states[l + 1].holders[events[l].holder].birth == states[k + 1].opening[t].birth
      <==> forall j :: k < j < l ==> !Deletes(states[j], events[j], states[k + 1].opening[t].number)
  {
    var f := states[k + 1].opening[t];
    RunsSound(states, events, k);
    RunsSound(states, events, k + 1);
    RunsSound(states, events, l);
    assert Step(states[k], events[k], states[k + 1]) && Step(states[l], events[l], states[l + 1]);
    hide Run, Counted, FilesHaveRows, Live, Deletes;
    RowThrough(states, events, k + 1, l, f.number, f.birth);
  }

  /** The window is real: an open can intern the row of a file created after it. */
  lemma OpenTakesNewRow() returns (states: seq<State>, events: seq<Event>)
    ensures Run(states, events) && |events| == 8 && events[0] == Open(0, "a", false, 0, 0)
        && events[7] == Intern(0, 0, 0)
    ensures 0 in states[1].opening && 0 in states[8].holders
    ensures states[8].holders[0] == Opened(Key(0, 1), 1) && states[1].opening[0] == Fetched(1, 0)
  {
    hide Sound, Step, Next, Enabled;
    var s0 := State(map["a" := 1], map[1 := Row(0, 5)], 1, map[], map[], map[], map[], Free);
    var s1 := s0.(opening := map[0 := Fetched(1, 0)]);
    var s2 := s1.(paths := map[], checks := map[1 := 1]);
    var s3 := s2.(checks := map[], lock := Orphaning(1));
    var s4 := s3.(stats := map[], lock := Free);
    var s5 := s4.(stats := map[1 := Row(1, 7)], births := 2, paths := map["b" := 1]);
    var s6 := s5.(lock := Statting(0));
    var s7 := s6.(lock := Found(0));
    var s8 := s7.(interned := map[Key(0, 1) := 1], holders := map[0 := Opened(Key(0, 1), 1)], lock := Free,
        opening := map[]);
    states := [s0, s1, s2, s3, s4, s5, s6, s7, s8];
    events := [Open(0, "a", false, 0, 0), Unlink(1, "a"), Check(1), Cleanup, Create("b", 1, 7), LockInodes(0),
        Fstat(0), Intern(0, 0, 0)];
    StartSound(s0.paths, s0.stats, 1);
    FirstHalf(s0, s1, s2, s3, s4);
    SecondHalf(s4, s5, s6, s7, s8);
    forall k | 0 <= k < |events|
      ensures Step(states[k], events[k], states[k + 1])
    {
      assert k == 0 || k == 1 || k == 2 || k == 3 || k == 4 || k == 5 || k == 6 || k == 7;
    }
  }

  lemma FirstHalf(s0: State, s1: State, s2: State, s3: State, s4: State)
    requires s0 == State(map["a" := 1], map[1 := Row(0, 5)], 1, map[], map[], map[], map[], Free)
    requires s1 == s0.(opening := map[0 := Fetched(1, 0)])
    requires s2 == s1.(paths := map[], checks := map[1 := 1])
    requires s3 == s2.(checks := map[], lock := Orphaning(1))
    requires s4 == s3.(stats := map[], lock := Free)
    ensures Step(s0, Open(0, "a", false, 0, 0), s1) && Step(s1, Unlink(1, "a"), s2) && Step(s2, Check(1), s3)
        && Step(s3, Cleanup, s4)
  {
    hide Sound;
    assert s2.paths == s1.paths - {"a"} && s3.checks == s2.checks - {1} && s4.stats == s3.stats - {1};
  }

  lemma SecondHalf(s4: State, s5: State, s6: State, s7: State, s8: State)
    requires s4 == State(map[], map[], 1, map[0 := Fetched(1, 0)], map[], map[], map[], Free)
    requires s5 == s4.(stats := map[1 := Row(1, 7)], births := 2, paths := map["b" := 1])
    requires s6 == s5.(lock := Statting(0))
    requires s7 == s6.(lock := Found(0))
    requires s8 == s7.(interned := map[Key(0, 1) := 1], holders := map[0 := Opened(Key(0, 1), 1)], lock := Free,
        opening := map[])
    ensures Step(s4, Create("b", 1, 7), s5) && Step(s5, LockInodes(0), s6) && Step(s6, Fstat(0), s7)
        && Step(s7, Intern(0, 0, 0), s8)
  {
    hide Sound;
    assert s8.opening == s7.opening - {0};
  }

  // ---- what the steps do to the tables ----

  predicate Named(paths: map<Path, Ino>, n: Ino) {
    exists p :: p in paths && paths[p] == n
  }

  /** The paths after a step: one more, one fewer, or those that a rename leaves. */
  lemma PathsEffect(s: State, e: Event, p: Path)
    requires Sound(s) && Enabled(s, e) && !e.Rename?
    ensures var r := Next(s, e);
      var made := if e.Create? || (e.Open? && e.path !in s.paths) then p == e.path else e.Link? && p == e.dst;
      && (p in r.paths <==> made || (p in s.paths && !(e.Unlink? && p == e.path)))
      && (p in r.paths ==>
            r.paths[p] == if !made then s.paths[p] else if e.Link? then s.paths[e.src] else e.number)
      && (e.Open? ==> e.path in r.paths && r.opening[e.thread].number == r.paths[e.path])
      && (e.Unlink? ==> r.checks[e.thread] == s.paths[e.path])
  {
    hide Sound, Live;
  }

  /** The rows after a step: a new file has the attributes passed in, a change of attributes
      keeps the row, only a cleanup deletes one, and only when no path names it. */
  lemma RowsEffect(s: State, e: Event, n: Ino)
    requires Sound(s) && Enabled(s, e)
    ensures var r := Next(s, e);
      var made := (e.Create? || (e.Open? && e.path !in s.paths)) && n == e.number;
      var changed := (e.Setattr? && e.path in s.paths && n == s.paths[e.path])
        || (e.Fsetattr? && n == s.holders[e.holder].key.number);
      var dropped := e.Cleanup? && n == s.lock.number && !Named(s.paths, n);
      && (n in r.stats <==> made || (n in s.stats && !dropped))
      && (n in r.stats ==>
            r.stats[n] == if made then Row(s.births, e.meta)
                          else if changed then Row(s.stats[n].birth, e.meta) else s.stats[n])
      && (made ==> n !in s.stats)
  {
    hide Sound, Live;
    if e.Cleanup? && Named(s.paths, n) {
      var p :| p in s.paths && s.paths[p] == n;
      assert s.paths[p] in s.paths.Values;
    }
  }

  /** Who holds inodes after a step: one more for an open, a lookup or a retain, one fewer for a
      release, the others as they were. */
  lemma HoldersEffect(s: State, e: Event, h: nat)
    requires Sound(s) && Enabled(s, e)
    ensures var r := Next(s, e);
      var comes := if e.Retain? then h == e.another else (e.Intern? || e.GetInode?) && h == e.holder;
      && (h in r.holders <==> comes || (h in s.holders && !(e.Release? && h == e.holder)))
      && (h in r.holders ==>
            r.holders[h] ==
            if !comes then s.holders[h]
            else match e
              case Intern(t, _, device) =>
                var n := s.opening[t].number;
                Opened(Key(device, n), s.stats[n].birth)
              case GetInode(_, key) => Other(key)
              case Retain(g, _) => Other(s.holders[g].key)
              case _ => r.holders[h])
  {
    hide Counted, PathsHaveRows, FilesHaveRows, Live, Inserted, Written;
    match e
    case Open(_, path, _, number, meta) => InsertedHolders(s, path, number, meta);
    case Create(path, number, meta) => InsertedHolders(s, path, number, meta);
    case Setattr(path, meta) =>
      if path in s.paths {
        WrittenHolders(s, s.paths[path], meta);
      }
    case Fsetattr(g, meta) => WrittenHolders(s, s.holders[g].key.number, meta);
    case Release(g) => HolderLive(s, g);
    case _ =>
  }

  /** inodes_lock after a step: an open keeps it from the moment it takes it until it has interned
      its inode or given up; whoever finds a number that nobody has open keeps it for the
      cleanup; and nobody else has it. */
  lemma LockEffect(s: State, e: Event)
    requires Sound(s) && Enabled(s, e)
    ensures var r := Next(s, e);
      match e
      case LockInodes(t) => r.lock == Statting(t)
      case Fstat(t) =>
        if s.opening[t].number in s.stats then r.lock == Found(t) else r.lock == Free && t !in r.opening
      case Intern(t, _, _) => r.lock == Free && t !in r.opening
      case Reopen(t) => r.lock == Free && t !in r.opening
      case Cleanup => r.lock == Free
      case Check(t) =>
        t !in r.checks && r.lock == if Live(s.interned, s.checks[t]) then Free else Orphaning(s.checks[t])
      case Release(h) =>
        var n := s.holders[h].key.number;
        r.lock == if exists g :: g in s.holders && g != h && s.holders[g].key.number == n then Free else Orphaning(n)
      case _ => r.lock == s.lock
  {
    if e.Release? {
      hide PathsHaveRows, FilesHaveRows;
      HolderLive(s, e.holder);
      ReleaseLocks(s, e.holder);
    } else {
      hide Counted, PathsHaveRows, FilesHaveRows, Live;
    }
  }

  lemma ReleaseLocks(s: State, h: nat)
    requires Counted(s.interned, s.holders) && h in s.holders && s.holders[h].key in s.interned
    ensures var n := s.holders[h].key.number;
      Live(Released(s, h).interned, n) <==> exists g :: g in s.holders && g != h && s.holders[g].key.number == n
  {
    ReleasedCounted(s, h);
    var n, r := s.holders[h].key.number, Released(s, h);
    if g :| g in s.holders && g != h && s.holders[g].key.number == n {
      assert g in r.holders && r.holders[g].key in r.interned;
    }
    if Live(r.interned, n) {
      var key :| key in r.interned && key.number == n;
      assert |HoldersOf(r.holders, key)| > 0;
      var g :| g in HoldersOf(r.holders, key);
      assert g in s.holders && g != h;
    }
  }

  // ---- nothing is left behind ----

  predicate ToCheck(checks: map<Thread, Ino>, n: Ino) {
    exists t :: t in checks && checks[t] == n
  }

  /** Someone has the number open, or will see to its cleanup. */
  ghost predicate Watched(s: State, n: Ino) {
    Live(s.interned, n) || ToCheck(s.checks, n) || s.lock == Orphaning(n)
  }

  ghost predicate Accounted(s: State, n: Ino) {
    Named(s.paths, n) || Watched(s, n)
  }

  /** No row is left behind. */
  ghost predicate NoOrphans(s: State) {
    forall n :: n in s.stats ==> Accounted(s, n)
  }

  /** path is the only one of the number. */
  predicate OnlyPath(paths: map<Path, Ino>, path: Path, n: Ino) {
    path in paths && paths[path] == n && forall p :: p in paths && paths[p] == n ==> p == path
  }

  /** A transaction gives the last path of a number to another without an unlink, as a rename
      onto an existing path does. */
  predicate Displaces(s: State, e: Event, n: Ino) {
    match e
    case Rename(paths) => Named(s.paths, n) && !Named(paths, n)
    case Link(src, dst) => OnlyPath(s.paths, dst, n) && src in s.paths && s.paths[src] != n
    case Create(path, number, _) => OnlyPath(s.paths, path, n) && number != n
    case _ => false
  }

  lemma PutNamed(paths: map<Path, Ino>, path: Path, m: Ino, n: Ino)
    ensures Named(paths, n) && !Named(paths[path := m], n) <==> OnlyPath(paths, path, n) && m != n
  {
    var after := paths[path := m];
    if Named(paths, n) && m != n && !OnlyPath(paths, path, n) {
      var p :| p in paths && paths[p] == n && p != path;
      assert p in after && after[p] == n;
    }
    if m == n {
      assert path in after && after[path] == n;
    }
  }

  /** Which is to say that it takes away the last path. */
  lemma DisplacesIff(s: State, e: Event, n: Ino)
    requires Sound(s) && Enabled(s, e) && n in s.stats && !e.Unlink?
    ensures Displaces(s, e, n) <==> Named(s.paths, n) && !Named(Next(s, e).paths, n)
  {
    hide Sound, Named, OnlyPath, Live;
    match e
    case Rename(_) =>
    case Link(src, dst) => PutNamed(s.paths, dst, s.paths[src], n);
    case Create(path, number, _) => PutNamed(s.paths, path, number, n);
    case Open(_, path, _, number, _) =>
      PutNamed(s.paths, path, number, n);
      if path !in s.paths {
        NotOnly(s.paths, path, n);
      }
    case _ => SamePath(s, e);
  }

  lemma NotOnly(paths: map<Path, Ino>, path: Path, n: Ino)
    requires path !in paths
    ensures !OnlyPath(paths, path, n)
  {
  }

  lemma SamePath(s: State, e: Event)
    requires Sound(s) && Enabled(s, e) && !(e.Open? || e.Create? || e.Link? || e.Rename? || e.Unlink?)
    ensures Next(s, e).paths == s.paths
  {
    hide Sound, Live;
  }

  lemma AccountedStep(s: State, e: Event, n: Ino)
    requires Sound(s) && Enabled(s, e) && n in Next(s, e).stats && (n in s.stats ==> Accounted(s, n))
    requires Displaces(s, e, n) ==> Watched(s, n)
    ensures Accounted(Next(s, e), n)
  {
    if n !in s.stats {
      InsertedNamed(s, e, n);
    } else if Live(s.interned, n) {
      LiveAccounted(s, e, n);
    } else if ToCheck(s.checks, n) {
      var t :| t in s.checks && s.checks[t] == n;
      CheckAccounted(s, e, t, n);
    } else if s.lock == Orphaning(n) {
      hide Sound, Live, ToCheck;
      assert e.Cleanup? || Next(s, e).lock == s.lock;
    } else if e.Unlink? {
      var p :| p in s.paths && s.paths[p] == n;
      UnlinkAccounted(s, e.thread, e.path, p, n);
    } else {
      hide Sound, Live, ToCheck, Named, Displaces;
      DisplacesIff(s, e, n);
    }
  }

  lemma InsertedNamed(s: State, e: Event, n: Ino)
    requires Sound(s) && Enabled(s, e) && n !in s.stats && n in Next(s, e).stats
    ensures Named(Next(s, e).paths, n)
  {
    hide Sound, Live;
    assert e.Create? || e.Open?;
    assert e.path in Next(s, e).paths;
  }

  lemma UnlinkAccounted(s: State, t: Thread, path: Path, p: Path, n: Ino)
    requires Sound(s) && Enabled(s, Unlink(t, path)) && p in s.paths && s.paths[p] == n
    ensures Accounted(Next(s, Unlink(t, path)), n)
  {
    var r := Next(s, Unlink(t, path));
    if p == path {
      assert t in r.checks && r.checks[t] == n;
    } else {
      assert p in r.paths && r.paths[p] == n;
    }
  }

  lemma LiveAccounted(s: State, e: Event, n: Ino)
    requires Sound(s) && Enabled(s, e) && Live(s.interned, n)
    ensures Accounted(Next(s, e), n)
  {
    hide Named, ToCheck;
    if e.Release? {
      hide Sound, Accounted, Next;
      ReleaseAccounted(s, e.holder, n);
    } else {
      var key :| key in s.interned && key.number == n;
      hide Sound, Live;
      StaysInterned(s, e, key);
      hide Next;
      IsLive(Next(s, e).interned, key);
    }
  }

  lemma IsLive(interned: map<Key, nat>, key: Key)
    requires key in interned
    ensures Live(interned, key.number)
  {
  }

  lemma StaysInterned(s: State, e: Event, key: Key)
    requires Sound(s) && Enabled(s, e) && key in s.interned && !e.Release?
    ensures key in Next(s, e).interned
  {
    hide Sound, Live, Inserted, Written;
    match e
    case Open(_, path, _, number, meta) => InsertedInterned(s, path, number, meta);
    case Create(path, number, meta) => InsertedInterned(s, path, number, meta);
    case Setattr(path, meta) =>
      if path in s.paths {
        WrittenInterned(s, s.paths[path], meta);
      }
    case Fsetattr(g, meta) => WrittenInterned(s, s.holders[g].key.number, meta);
    case _ =>
  }

  lemma InsertedInterned(s: State, path: Path, number: Ino, meta: Meta)
    ensures Inserted(s, path, number, meta).interned == s.interned
  {
  }

  lemma WrittenInterned(s: State, number: Ino, meta: Meta)
    ensures Written(s, number, meta).interned == s.interned
  {
  }

  /** The last reference of a number leaves its cleanup to the releasing thread. */
  lemma ReleaseAccounted(s: State, h: nat, n: Ino)
    requires Sound(s) && Enabled(s, Release(h)) && Live(s.interned, n)
    ensures Accounted(Next(s, Release(h)), n)
  {
    var key :| key in s.interned && key.number == n;
    hide PathsHaveRows, FilesHaveRows, LockSound;
    var r := Next(s, Release(h));
    if key in r.interned {
      IsLive(r.interned, key);
    } else {
      assert key == s.holders[h].key;
    }
  }

  lemma CheckAccounted(s: State, e: Event, t: Thread, n: Ino)
    requires Sound(s) && Enabled(s, e) && t in s.checks && s.checks[t] == n
    ensures Accounted(Next(s, e), n)
  {
    hide Sound;
    var r := Next(s, e);
    if e != Check(t) {
      assert t in r.checks && r.checks[t] == n;
    }
  }

  lemma DisplacedLeaks(s: State, e: Event, n: Ino)
    requires Sound(s) && Enabled(s, e) && n in s.stats && Displaces(s, e, n) && !Watched(s, n)
    ensures n in Next(s, e).stats && !Accounted(Next(s, e), n)
  {
    DisplacesIff(s, e, n);
    hide Sound, Live, ToCheck, Named, OnlyPath;
  }

  /** A step leaves a row behind if and only if it displaces the last path of a number that
      nobody has open and nobody is about to clean up. */
  lemma NoOrphansIff(s: State, e: Event)
    requires Sound(s) && Enabled(s, e) && NoOrphans(s)
    ensures NoOrphans(Next(s, e)) <==> forall n :: n in s.stats && Displaces(s, e, n) ==> Watched(s, n)
  {
    hide Sound, Enabled, Next, Accounted, Watched, Displaces;
    if forall n :: n in s.stats && Displaces(s, e, n) ==> Watched(s, n) {
      forall n | n in Next(s, e).stats
        ensures Accounted(Next(s, e), n)
      {
        if Displaces(s, e, n) {
          DisplacesKnown(s, e, n);
        }
        AccountedStep(s, e, n);
      }
    } else {
      var n :| n in s.stats && Displaces(s, e, n) && !Watched(s, n);
      DisplacedLeaks(s, e, n);
    }
  }

  lemma DisplacesKnown(s: State, e: Event, n: Ino)
    requires Sound(s) && Enabled(s, e) && Displaces(s, e, n)
    ensures n in s.stats
  {
  }

  /** So a run that displaces no such path ends, when every file is closed and every cleanup
      done, with a path for every row. */
  lemma {:induction false} NamedAtRest(states: seq<State>, events: seq<Event>, l: nat)
    requires Run(states, events) && l < |states| && NoOrphans(states[0])
    requires forall k, n :: 0 <= k < l && n in states[k].stats && Displaces(states[k], events[k], n) ==>
        Watched(states[k], n)
    ensures NoOrphans(states[l])
    ensures states[l].holders == map[] && states[l].checks == map[] && states[l].lock.Free? ==>
              forall n :: n in states[l].stats <==> n in states[l].paths.Values
    decreases l
  {
    RunsSound(states, events, l);
    if l > 0 {
      hide Next, Enabled, Sound, NoOrphans, Displaces, Watched;
      NamedAtRest(states, events, l - 1);
      RunsSound(states, events, l - 1);
      assert Step(states[l - 1], events[l - 1], states[l]);
      NoOrphansIff(states[l - 1], events[l - 1]);
    }
    AtRest(states[l]);
  }

  lemma AtRest(s: State)
    requires Sound(s) && NoOrphans(s)
    ensures s.holders == map[] && s.checks == map[] && s.lock.Free? ==>
              forall n :: n in s.stats <==> n in s.paths.Values
  {
    if s.holders == map[] && s.checks == map[] && s.lock.Free? {
      forall key
        ensures key !in s.interned
      {
        assert HoldersOf(s.holders, key) == {};
      }
      forall n | n in s.stats
        ensures n in s.paths.Values
      {
        assert Accounted(s, n);
        var p :| p in s.paths && s.paths[p] == n;
        assert s.paths[p] in s.paths.Values;
      }
    }
  }

  /** A row is left behind in fact: a file is renamed onto another that nobody has open. */
  lemma RenameLeaks() returns (s: State, e: Event, r: State)
    ensures Sound(s) && NoOrphans(s) && s.holders == map[] && s.opening == map[]
    ensures e == Rename(map["b" := 1]) && s.paths == map["a" := 1, "b" := 2]
    ensures Step(s, e, r) && 2 in r.stats && !Accounted(r, 2) && !NoOrphans(r)
  {
    s := State(map["a" := 1, "b" := 2], map[1 := Row(0, 5), 2 := Row(1, 7)], 2, map[], map[], map[], map[], Free);
    StartSound(s.paths, s.stats, s.births);
    assert "a" in s.paths && "b" in s.paths;
    assert s.paths["a"] in s.paths.Values;
    e := Rename(map["b" := 1]);
    hide Sound;
    r := Next(s, e);
  }
}
