/** What each step of fs/fd.c does to every number of every table, apart from how it does it. */
module FdEffects {
  import opened Options
  import opened FdTable
  import opened FdTableOps
  import opened FdRefs
  import opened FdSteps
  import opened FdReservations
  import opened FdRuns

  // ---- one table ----

  lemma RoomAt(t: Table, n: nat, m: int)
    requires t.Valid()
    ensures Room(t, n).At(m) == t.At(m)
  {
  }

  lemma InstalledAt(t: Table, n: nat, fd: Fd, cloexec: bool, m: int)
    requires t.Valid() && n < |t.files| && t.files[n] == None && !t.reserved[n]
    ensures Installed(t, n, fd, cloexec).At(m)
         == if m == n then Slot(Some(fd), cloexec, false, t.At(n).installs + 1) else t.At(m)
  {
  }

  lemma EmptiedAt(t: Table, n: nat, m: int)
    requires t.Valid() && n < |t.files|
    ensures Emptied(t, n).At(m) == if m == n then t.At(m).(file := None, cloexec := false) else t.At(m)
  {
  }

  lemma SweptAt(t: Table, all: bool, m: int)
    requires t.Valid()
    ensures SweptBelow(t, |t.files|, all).At(m)
         == if all || t.At(m).cloexec then t.At(m).(file := None, cloexec := false) else t.At(m)
  {
  }

  lemma MarkedAt(t: Table, ns: seq<nat>, m: int)
    requires t.Valid() && forall i :: 0 <= i < |ns| ==> ns[i] < |t.files| && t.files[ns[i]] == None
    ensures MarkedAll(t, ns).At(m) == if m in ns then t.At(m).(reserved := true) else t.At(m)
  {
    var u := MarkedAll(t, ns);
    assert u.Reserved(m) <==> t.Reserved(m) || m in ns;
  }

  lemma UnmarkedAt(t: Table, ns: seq<nat>, m: int)
    requires t.Valid() && Ready(t, ns)
    ensures UnmarkedAll(t, ns).At(m) == if m in ns then t.At(m).(reserved := false) else t.At(m)
  {
    var u := UnmarkedAll(t, ns);
    assert u.Reserved(m) <==> t.Reserved(m) && m !in ns;
  }

  lemma PublishedAt(t: Table, ns: seq<nat>, fds: seq<Fd>, cloexec: bool, m: int)
    requires t.Valid() && Ready(t, ns) && |fds| == |ns|
    ensures m !in ns ==> PublishedAll(t, ns, fds, cloexec).At(m) == t.At(m)
    ensures forall j :: 0 <= j < |ns| && ns[j] == m ==>
              PublishedAll(t, ns, fds, cloexec).At(m) == Slot(Some(fds[j]), cloexec, false, t.At(m).installs + 1)
  {
    PublishedSlots(t, ns, fds, cloexec);
    PublishedMoves(t, ns, fds, cloexec);
    var u := PublishedAll(t, ns, fds, cloexec);
    assert u.Reserved(m) <==> t.Reserved(m) && m !in ns;
  }

  // ---- the system ----

  /** A step works on table i alone. */
  predicate Only(s: System, i: nat, r: System) {
    i < |s.tables| == |r.tables| && r.tables == s.tables[i := r.tables[i]]
  }

  /** f_install_start: the lowest free number from start on, with the flag asked for and one
      more install; refused for want of a free number below the limit, or of memory when there
      is none in the table either. */
  lemma InstallEffect(s: System, i: nat, fd: Fd, start: nat, limit: Limit, cloexec: bool, memory: bool)
    requires TablesValid(s) && i < |s.tables|
    ensures var (r, out) := Install(s, i, fd, start, limit, cloexec, memory);
      && var t := s.tables[i];
      && (out == Err(EMFILE) <==> forall n: int :: start <= n < limit ==> !t.Free(n))
      && (out == Err(ENOMEM) <==>
            !memory && out != Err(EMFILE) && forall n: int :: start <= n < limit && n < |t.files| ==> !t.Free(n))
      && match out
         case Err(e) => (e == EMFILE || e == ENOMEM) && r.tables == s.tables
         case Ok(n) =>
           && start <= n < limit && t.Free(n) && (forall m: int :: start <= m < n ==> !t.Free(m))
           && Only(s, i, r) && r.tables[i].Valid()
           && forall m: int :: r.tables[i].At(m) ==
                if m == n then Slot(Some(fd), cloexec, false, t.At(n).installs + 1) else t.At(m)
  {
    var n := LowestFree(s.tables[i], start);
    if n < limit && (n < |s.tables[i].files| || memory) {
      RoomMoves(s.tables[i], n);
      forall m: int
        ensures Installed(Room(s.tables[i], n), n, fd, cloexec).At(m) ==
                if m == n then Slot(Some(fd), cloexec, false, s.tables[i].At(n).installs + 1) else s.tables[i].At(m)
      {
        RoomAt(s.tables[i], n, m);
        RoomAt(s.tables[i], n, n);
        InstalledAt(Room(s.tables[i], n), n, fd, cloexec, m);
      }
    }
  }

  /** F_DUPFD: the same with the file of another number, from minimum on. */
  lemma DupfdEffect(s: System, i: nat, oldFd: int, minimum: int, limit: Limit, cloexec: bool, memory: bool)
    requires TablesValid(s) && i < |s.tables|
    ensures var (r, out) := Dupfd(s, i, oldFd, minimum, limit, cloexec, memory);
      && var t := s.tables[i];
      && (out == Err(EBADF) <==> t.Get(oldFd) == None)
      && (out == Err(EINVAL) <==> t.Get(oldFd).Some? && !(0 <= minimum < limit))
      && (out == Err(EMFILE) <==>
            t.Get(oldFd).Some? && 0 <= minimum < limit && forall n: int :: minimum <= n < limit ==> !t.Free(n))
      && (out == Err(ENOMEM) <==>
            && t.Get(oldFd).Some? && 0 <= minimum < limit && out != Err(EMFILE) && !memory
            && forall n: int :: minimum <= n < limit && n < |t.files| ==> !t.Free(n))
      && (out.Err? ==> out.error in {EBADF, EINVAL, EMFILE, ENOMEM})
      && match out
         case Err(_) => r.tables == s.tables
         case Ok(n) =>
           && 0 <= minimum <= n < limit && t.Free(n) && (forall m: int :: minimum <= m < n ==> !t.Free(m))
           && Only(s, i, r) && r.tables[i].Valid()
           && forall m: int :: r.tables[i].At(m) ==
                if m == n then Slot(t.Get(oldFd), cloexec, false, t.At(n).installs + 1) else t.At(m)
  {
    hide Install;
    if s.tables[i].Get(oldFd).Some? && 0 <= minimum < limit {
      InstallEffect(Retain(s, s.tables[i].Get(oldFd).value), i, s.tables[i].Get(oldFd).value, minimum, limit, cloexec,
          memory);
    }
  }

  lemma DupIntoEffect(s: System, i: nat, fd: Fd, n: nat, cloexec: bool)
    requires i < |s.tables| && s.tables[i].Valid() && n < |s.tables[i].files| && !s.tables[i].reserved[n]
    ensures var r, t := DupIntoSlot(s, i, fd, n, cloexec), s.tables[i];
      && Only(s, i, r) && r.tables[i].Valid()
      && forall m: int :: r.tables[i].At(m) ==
           if m == n then Slot(Some(fd), cloexec, false, t.At(m).installs + 1) else t.At(m)
  {
    hide DupIntoSlot, Installed, Emptied;
    var t := s.tables[i];
    EmptiedIs(t, n);
    forall m: int
      ensures Installed(Emptied(t, n), n, fd, cloexec).At(m)
           == if m == n then Slot(Some(fd), cloexec, false, t.At(m).installs + 1) else t.At(m)
    {
      EmptiedAt(t, n, m);
      EmptiedAt(t, n, n);
      InstalledAt(Emptied(t, n), n, fd, cloexec, m);
    }
  }

  lemma EmptiedIs(t: Table, n: nat)
    requires t.Valid() && n < |t.files|
    ensures Emptied(t, n).files[n] == None && Emptied(t, n).reserved == t.reserved
  {
  }

  /** dup2 and dup3: only the target changes, and it gets the old number's file, the flag asked
      for whatever the old number's is, and one more install. */
  lemma DupToEffect(s: System, i: nat, oldFd: int, newFd: int, limit: Limit, cloexec: bool, memory: bool)
    requires TablesValid(s) && i < |s.tables|
    ensures var (r, out) := DupTo(s, i, oldFd, newFd, limit, cloexec, memory);
      && var t := s.tables[i];
      && (out == Err(EBADF) <==> !(0 <= newFd < limit) || t.Get(oldFd) == None)
      && (out == Err(ENOMEM) <==> out != Err(EBADF) && oldFd != newFd && newFd >= |t.files| && !memory)
      && (out == Err(EBUSY) <==> out != Err(EBADF) && t.Reserved(newFd))
      && (if out.Ok? then out.value == newFd else out.error in {EBADF, ENOMEM, EBUSY})
      && Only(s, i, r) && r.tables[i].Valid()
      && forall m: int :: r.tables[i].At(m) ==
           if out.Ok? && oldFd != newFd && m == newFd then Slot(t.Get(oldFd), cloexec, false, t.At(m).installs + 1)
           else t.At(m)
  {
    hide DupIntoSlot, Room;
    var t := s.tables[i];
    if 0 <= newFd < limit && t.Get(oldFd).Some? && oldFd != newFd && (newFd < |t.files| || memory) {
      RoomMoves(t, newFd);
      GrowEffect(s, i, newFd);
      if !t.Reserved(newFd) {
        DupIntoEffect(Grow(s, i, newFd), i, t.Get(oldFd).value, newFd, cloexec);
      }
    }
  }

  lemma GrowEffect(s: System, i: nat, n: nat)
    requires i < |s.tables| && s.tables[i].Valid()
    ensures Only(s, i, Grow(s, i, n)) && forall m: int :: Grow(s, i, n).tables[i].At(m) == s.tables[i].At(m)
  {
    forall m: int
      ensures Room(s.tables[i], n).At(m) == s.tables[i].At(m)
    {
      RoomAt(s.tables[i], n, m);
    }
  }

  /** close: the number is empty and unmarked, and remembers its installs. */
  lemma CloseEffect(s: System, i: nat, n: int)
    requires TablesValid(s) && i < |s.tables|
    ensures var r := CloseSlot(s, i, n);
      && Only(s, i, r) && r.tables[i].Valid()
      && forall m: int :: r.tables[i].At(m) ==
           if m == n then s.tables[i].At(m).(file := None, cloexec := false) else s.tables[i].At(m)
  {
    if s.tables[i].Get(n).Some? {
      forall m: int
        ensures Emptied(s.tables[i], n).At(m) ==
                if m == n then s.tables[i].At(m).(file := None, cloexec := false) else s.tables[i].At(m)
      {
        EmptiedAt(s.tables[i], n, m);
      }
    }
  }

  /** f_setfd_task: the flag of an open number and nothing else. */
  lemma FlagEffect(s: System, i: nat, n: int, flag: bool)
    requires TablesValid(s) && i < |s.tables|
    ensures var r := Flagged(s, i, n, flag);
      && Only(s, i, r) && r.tables[i].Valid() && r == s.(tables := r.tables)
      && forall m: int :: r.tables[i].At(m) ==
           if m == n && s.tables[i].Get(n).Some? then s.tables[i].At(m).(cloexec := flag) else s.tables[i].At(m)
  {
  }

  /** exec closes the numbers marked for it, the end of a table all of them. */
  lemma SweepEffect(s: System, i: nat, all: bool)
    requires i < |s.tables| && s.tables[i].Valid()
    ensures var r := CloseBelow(s, i, |s.tables[i].files|, all);
      && Only(s, i, r) && r.tables[i].Valid()
      && forall m: int :: r.tables[i].At(m) ==
           if all || s.tables[i].At(m).cloexec then s.tables[i].At(m).(file := None, cloexec := false)
           else s.tables[i].At(m)
  {
    hide CloseBelow, SweptBelow;
    CloseBelowTables(s, i, |s.tables[i].files|, all);
    forall m: int
      ensures SweptBelow(s.tables[i], |s.tables[i].files|, all).At(m) ==
              if all || s.tables[i].At(m).cloexec then s.tables[i].At(m).(file := None, cloexec := false)
              else s.tables[i].At(m)
    {
      SweptAt(s.tables[i], all, m);
    }
  }

  lemma {:induction false} PickedBelow(t: Table, count: nat, start: nat, limit: nat, bound: nat)
    requires count >= 1 && Picked(t, count, start, limit).Some?
    ensures Picked(t, count, start, bound).Some? <==> Picked(t, count, start, limit).value[count - 1] < bound
    decreases count
  {
    if count > 1 {
      var n := LowestFree(t, start);
      PickedBelow(t, count - 1, n + 1, limit, bound);
      var rest := Picked(t, count - 1, n + 1, limit).value;
      assert Picked(t, count, start, limit).value == [n] + rest;
      assert n < rest[count - 2];
    }
  }

  lemma ReserveRefused(s: System, i: nat, rid: nat, count: nat, limit: Limit, memory: bool)
    requires TablesValid(s) && i < |s.tables| == |s.users| && 1 <= count
    ensures var (r, out) := Reserve(s, i, rid, count, limit, memory);
      && (out == Err(EMFILE) <==> |FreeBelow(s.tables[i], 0, limit)| < count)
      && (out == Err(ENOMEM) <==>
            |FreeBelow(s.tables[i], 0, limit)| >= count && !memory
                && |FreeBelow(s.tables[i], 0, |s.tables[i].files|)| < count)
      && (out.Err? ==> r == s && (out.error == EMFILE || out.error == ENOMEM))
      && (out.Ok? ==> Picked(s.tables[i], count, 0, limit) == Some(out.value))
  {
    hide Picked, FreeBelow;
    PickedFails(s.tables[i], count, 0, limit);
    if Picked(s.tables[i], count, 0, limit).Some? {
      PickedFails(s.tables[i], count, 0, |s.tables[i].files|);
      PickedBelow(s.tables[i], count, 0, limit, |s.tables[i].files|);
    }
  }

  /** A reservation marks the lowest free numbers, and is refused when there are not so many
      below the limit, or for want of memory when the table has not so many. */
  lemma ReserveEffect(s: System, i: nat, rid: nat, count: nat, limit: Limit, memory: bool)
    requires TablesValid(s) && i < |s.tables| == |s.users| && 1 <= count
    ensures var (r, out) := Reserve(s, i, rid, count, limit, memory);
      && var t := s.tables[i];
      && (out == Err(EMFILE) <==> |FreeBelow(t, 0, limit)| < count)
      && (out == Err(ENOMEM) <==> |FreeBelow(t, 0, limit)| >= count && !memory && |FreeBelow(t, 0, |t.files|)| < count)
      && match out
         case Err(e) => (e == EMFILE || e == ENOMEM) && r == s
         case Ok(ns) =>
           && |ns| == count && (forall j, k :: 0 <= j < k < count ==> ns[j] < ns[k])
           && (forall j :: 0 <= j < count ==> ns[j] < limit && t.Free(ns[j]))
           && (forall m: nat :: m < limit && t.Free(m) && m !in ns ==> forall j :: 0 <= j < count ==> ns[j] < m)
           && Only(s, i, r) && r.tables[i].Valid() && r.tasks == s.tasks && r.refs == s.refs
           && forall m: int :: r.tables[i].At(m) == if m in ns then t.At(m).(reserved := true) else t.At(m)
  {
    ReserveRefused(s, i, rid, count, limit, memory);
    var (r, out) := Reserve(s, i, rid, count, limit, memory);
    if out.Ok? {
      var t, ns := s.tables[i], out.value;
      ReserveGranted(s, i, rid, count, limit, memory, ns);
      hide Reserve, Picked, FreeBelow;
      forall m: nat | m < limit && t.Free(m) && m !in ns
        ensures forall j :: 0 <= j < count ==> ns[j] < m
      {
        PickedLowest(t, count, 0, limit, m);
      }
    }
  }

  lemma ReserveGranted(s: System, i: nat, rid: nat, count: nat, limit: Limit, memory: bool, ns: seq<nat>)
    requires TablesValid(s) && i < |s.tables| == |s.users| && 1 <= count
    requires Reserve(s, i, rid, count, limit, memory).1 == Ok(ns) && Picked(s.tables[i], count, 0, limit) == Some(ns)
    ensures var r, t := Reserve(s, i, rid, count, limit, memory).0, s.tables[i];
      && Only(s, i, r) && r.tables[i].Valid() && r.tasks == s.tasks && r.refs == s.refs
      && forall m: int :: r.tables[i].At(m) == if m in ns then t.At(m).(reserved := true) else t.At(m)
  {
    hide Picked, Room, MarkedAll;
    var t, last := s.tables[i], ns[count - 1];
    var grown := Room(t, last);
    PickedFree(t, ns, grown);
    forall m: int
      ensures MarkedAll(grown, ns).At(m) == if m in ns then t.At(m).(reserved := true) else t.At(m)
    {
      RoomAt(t, last, m);
      MarkedAt(grown, ns, m);
    }
  }

  /** Publishing fills each reserved number with its file, flag and one more install and takes its
      mark away; the last user's publish closes it all again. */
  lemma PublishEffect(s: System, rid: nat, fds: seq<Fd>, cloexec: bool)
    requires Sound(s) && rid in s.reservations && |fds| == |s.reservations[rid].numbers| && multiset(fds) <= s.held
    ensures var q := s.reservations[rid];
        q.table < |s.tables| && s.users[q.table] > 0 && Ready(s.tables[q.table], q.numbers)
    ensures var q := s.reservations[rid];
      var r, t, last := Publish(s, rid, fds, cloexec), s.tables[q.table], s.users[q.table] == 1;
      && Only(s, q.table, r) && r.tables[q.table].Valid()
      && (forall j :: 0 <= j < |fds| ==>
            r.tables[q.table].At(q.numbers[j]) ==
            Slot(if last then None else Some(fds[j]), cloexec && !last, false, t.At(q.numbers[j]).installs + 1))
      && (forall m: int :: m !in q.numbers ==>
            r.tables[q.table].At(m) == if last then t.At(m).(file := None, cloexec := false) else t.At(m))
  {
    ReservedTableUsed(s, rid);
    hide Sound, PublishedAll, Leave;
    var q := s.reservations[rid];
    var t := s.tables[q.table];
    var u := PublishedAll(t, q.numbers, fds, cloexec);
    var before := Retired(s, rid, u).(held := s.held - multiset(fds));
    forall m: int
      ensures m !in q.numbers ==> u.At(m) == t.At(m)
      ensures forall j :: 0 <= j < |fds| && q.numbers[j] == m ==>
                u.At(m) == Slot(Some(fds[j]), cloexec, false, t.At(m).installs + 1)
    {
      PublishedAt(t, q.numbers, fds, cloexec, m);
    }
    LeaveEffect(before, q.table);
  }

  /** Cancelling takes the marks away, and likewise. */
  lemma CancelEffect(s: System, rid: nat)
    requires Sound(s) && rid in s.reservations
    ensures var q := s.reservations[rid];
        q.table < |s.tables| && s.users[q.table] > 0 && Ready(s.tables[q.table], q.numbers)
    ensures var q := s.reservations[rid];
      var r, t, last := Cancel(s, rid), s.tables[q.table], s.users[q.table] == 1;
      && Only(s, q.table, r) && r.tables[q.table].Valid()
      && (forall m: int :: m in q.numbers ==> r.tables[q.table].At(m) == t.At(m).(reserved := false))
      && (forall m: int :: m !in q.numbers ==>
            r.tables[q.table].At(m) == if last then t.At(m).(file := None, cloexec := false) else t.At(m))
  {
    ReservedTableUsed(s, rid);
    hide Sound, UnmarkedAll, Leave;
    var q := s.reservations[rid];
    var t := s.tables[q.table];
    var u := UnmarkedAll(t, q.numbers);
    forall m: int
      ensures u.At(m) == if m in q.numbers then t.At(m).(reserved := false) else t.At(m)
    {
      UnmarkedAt(t, q.numbers, m);
    }
    LeaveEffect(Retired(s, rid, u), q.table);
  }

  /** A copied table has every file and flag, and no mark. */
  lemma CopyEffect(s: System, i: nat)
    requires TablesValid(s) && i < |s.tables| == |s.tasks|
    ensures var r, t := Copy(s, i), s.tables[i];
      && |r.tables| == |s.tables| + 1 && r.tables[..|s.tables|] == s.tables && r.tables[|s.tables|].Valid()
      && (forall m: int :: r.tables[|s.tables|].At(m) == t.At(m).(reserved := false))
      && r.tasks == s.tasks + [1] && r.held == s.held && r.reservations == s.reservations
  {
  }

  /** A task more or a task less, and with the last user every number is closed. */
  lemma UseEffect(s: System, i: nat)
    requires Sound(s) && i < |s.tables|
    ensures Share(s, i) == s.(users := Share(s, i).users, tasks := s.tasks[i := s.tasks[i] + 1])
    ensures s.tasks[i] > 0 ==> s.users[i] > 0
    ensures s.tasks[i] == 0 ||
      var r := Exit(s, i);
      && Only(s, i, r) && r.tables[i].Valid() && r.tasks == s.tasks[i := s.tasks[i] - 1] && r.held == s.held
      && forall m: int :: r.tables[i].At(m) ==
           if s.users[i] == 1 then s.tables[i].At(m).(file := None, cloexec := false) else s.tables[i].At(m)
  {
    if s.tasks[i] > 0 {
      ExitSound(s, i);
      var r := s.(users := s.users[i := s.users[i] - 1], tasks := s.tasks[i := s.tasks[i] - 1]);
      UsersSound(s, r);
      LeaveSound(r, i);
      hide Sound, Leave, Moves, Evolved;
      LeaveEffect(r, i);
    }
  }

  lemma LeaveEffect(s: System, i: nat)
    requires i < |s.tables| == |s.users| && s.tables[i].Valid()
    ensures var r := Leave(s, i); Only(s, i, r) && r.tables[i].Valid()
    ensures var r := Leave(s, i);
      forall m: int :: r.tables[i].At(m) ==
        if s.users[i] == 0 then s.tables[i].At(m).(file := None, cloexec := false) else s.tables[i].At(m)
  {
    SweepEffect(s, i, true);
    assert s.tables[i := s.tables[i]] == s.tables;
  }

  /** Number m of the table before and after a step that names a slot: an install takes the
      lowest free number, a dup too or its target, a close its own number, exec the marked ones,
      and none changes any other. */
  predicate SlotAfter(s: System, e: Event, m: int, before: Slot, after: Slot)
    requires TablesValid(s) && SlotStep(e) && e.table < |s.tables|
  {
    match e
    case DoInstall(i, fd, limit, cloexec, memory) =>
      if Lowest(s.tables[i], 0, m) && m < limit && (m < |s.tables[i].files| || memory)
      then after == Slot(Some(fd), cloexec, false, before.installs + 1)
      else after == before
    case DoClose(_, n) => after == if m == n then before.(file := None, cloexec := false) else before
    case DoCloseIfMatches(i, n, expected, generation) =>
      after == if m == n && before.file == Some(expected) && before.installs % GENERATIONS == generation
               then before.(file := None, cloexec := false)
               else before
    case SetCloexec(_, n, flag) => after == if m == n && before.file.Some? then before.(cloexec := flag) else before
    case Exec(_) => after == if before.cloexec then before.(file := None, cloexec := false) else before
    case DoDupfd(i, n, minimum, limit, cloexec, memory) =>
      if s.tables[i].Get(n).Some? && minimum >= 0 && Lowest(s.tables[i], minimum, m) && m < limit
         && (m < |s.tables[i].files| || memory)
      then after == Slot(s.tables[i].Get(n), cloexec, false, before.installs + 1)
      else after == before
    case DoDupTo(i, n, target, limit, cloexec, memory) =>
      if m == target && n != target && 0 <= m < limit && s.tables[i].Get(n).Some? && !before.reserved
         && (m < |s.tables[i].files| || memory)
      then after == Slot(s.tables[i].Get(n), cloexec, false, before.installs + 1)
      else after == before
  }

  predicate Lowest(t: Table, from: int, n: int) {
    from <= n && t.Free(n) && forall k: int :: from <= k < n ==> !t.Free(k)
  }

  lemma SlotEffect(s: System, e: Event)
    requires Sound(s) && Enabled(s, e) && SlotStep(e)
    ensures e.table < |s.tables| && Only(s, e.table, Next(s, e)) && Next(s, e).tables[e.table].Valid()
    ensures forall m: int :: SlotAfter(s, e, m, s.tables[e.table].At(m), Next(s, e).tables[e.table].At(m))
  {
    hide Conserved, ReservationsHold, UsersCounted, Install, Dupfd, DupTo, CloseSlot, CloseBelow, Flagged;
    match e
    case DoInstall(i, fd, limit, cloexec, memory) => InstallSlot(s, i, fd, limit, cloexec, memory);
    case DoDupfd(i, n, minimum, limit, cloexec, memory) => DupfdSlot(s, i, n, minimum, limit, cloexec, memory);
    case DoDupTo(i, n, target, limit, cloexec, memory) => DupToSlot(s, i, n, target, limit, cloexec, memory);
    case DoClose(i, n) => CloseEffect(s, i, n);
    case DoCloseIfMatches(i, n, expected, generation) => CloseEffect(s, i, n);
    case SetCloexec(i, n, flag) => FlagEffect(s, i, n, flag);
    case Exec(i) => SweepEffect(s, i, false);
  }

  lemma InstallSlot(s: System, i: nat, fd: Fd, limit: Limit, cloexec: bool, memory: bool)
    requires TablesValid(s) && i < |s.tables|
    ensures var r := Install(s, i, fd, 0, limit, cloexec, memory).0;
      && Only(s, i, r) && r.tables[i].Valid()
      && forall m: int :: SlotAfter(s, DoInstall(i, fd, limit, cloexec, memory), m, s.tables[i].At(m),
           r.tables[i].At(m))
  {
    hide Install;
    InstallEffect(s, i, fd, 0, limit, cloexec, memory);
    var (r, out) := Install(s, i, fd, 0, limit, cloexec, memory);
    forall m: int
      ensures Only(s, i, r)
           && SlotAfter(s, DoInstall(i, fd, limit, cloexec, memory), m, s.tables[i].At(m), r.tables[i].At(m))
    {
      if out.Ok? && Lowest(s.tables[i], 0, m) {
        assert m == out.value;
      }
    }
  }

  lemma DupfdSlot(s: System, i: nat, n: int, minimum: int, limit: Limit, cloexec: bool, memory: bool)
    requires TablesValid(s) && i < |s.tables|
    ensures var r, e := Dupfd(s, i, n, minimum, limit, cloexec, memory).0,
        DoDupfd(i, n, minimum, limit, cloexec, memory);
      && Only(s, i, r) && r.tables[i].Valid()
      && forall m: int :: SlotAfter(s, e, m, s.tables[i].At(m), r.tables[i].At(m))
  {
    hide Dupfd;
    DupfdEffect(s, i, n, minimum, limit, cloexec, memory);
    var (r, out) := Dupfd(s, i, n, minimum, limit, cloexec, memory);
    if out.Ok? && !memory {
      var k: int :| minimum <= k < limit && k < |s.tables[i].files| && s.tables[i].Free(k);
      assert out.value <= k;
    }
    forall m: int
      ensures Only(s, i, r)
      ensures SlotAfter(s, DoDupfd(i, n, minimum, limit, cloexec, memory), m, s.tables[i].At(m), r.tables[i].At(m))
    {
      if out.Ok? && Lowest(s.tables[i], minimum, m) {
        assert m == out.value;
      }
    }
  }

  lemma DupToSlot(s: System, i: nat, n: int, target: int, limit: Limit, cloexec: bool, memory: bool)
    requires TablesValid(s) && i < |s.tables|
    ensures var r, e := DupTo(s, i, n, target, limit, cloexec, memory).0, DoDupTo(i, n, target, limit, cloexec, memory);
      && Only(s, i, r) && r.tables[i].Valid()
      && forall m: int :: SlotAfter(s, e, m, s.tables[i].At(m), r.tables[i].At(m))
  {
    hide DupTo;
    DupToEffect(s, i, n, target, limit, cloexec, memory);
  }

  /** And passing references around changes no table. */
  lemma ReferenceEffect(s: System, e: Event)
    requires Sound(s) && Enabled(s, e) && ReferenceStep(e)
    ensures Next(s, e).tables == s.tables && SameUsers(s, Next(s, e))
  {
  }
}
