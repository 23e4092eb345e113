/** The operations of fs/fd.c as steps of a system of shared tables. A step is what one
    thread does under one table lock; memory says whether an allocation would succeed. */
module FdSteps {
  import opened Options
  import opened FdTable
  import opened FdTableOps
  import opened FdRefs

  /** f_install_start and f_install_finish: the reference passed in goes into the
      lowest free slot, or is dropped. */
  function Install(s: System, i: nat, fd: Fd, start: nat, limit: Limit, cloexec: bool,
      memory: bool): (r: (System, Outcome<nat>))
    requires i < |s.tables| && s.tables[i].Valid()
    ensures r.0.held == s.held - multiset{fd}
    ensures match r.1
      case Ok(n) => start <= n < limit && s.tables[i].Free(n)
        && r.0.tables == s.tables[i := Installed(Room(s.tables[i], n), n, fd, cloexec)]
      case Err(_) => r.0.tables == s.tables
  {
    var n := LowestFree(s.tables[i], start);
    if n >= limit then (Release(s, fd), Err(EMFILE))
    else if n >= |s.tables[i].files| && !memory then (Release(s, fd), Err(ENOMEM))
    else
      RoomMoves(s.tables[i], n);
      (Put(Grow(s, i, n), i, n, fd, cloexec), Ok(n))
  }

  lemma InstallSound(s: System, i: nat, fd: Fd, start: nat, limit: Limit, cloexec: bool, memory: bool)
    requires Sound(s) && i < |s.tables| && s.held[fd] > 0
    ensures Moves(s, Install(s, i, fd, start, limit, cloexec, memory).0)
  {
    hide Conserved, ReservationsHold, UsersCounted, Evolved, Evolves, InTable, Room, Installed;
    var n := LowestFree(s.tables[i], start);
    if n >= limit || (n >= |s.tables[i].files| && !memory) {
      ReleaseSound(s, fd);
    } else {
      RoomMoves(s.tables[i], n);
      GrowSound(s, i, n);
      var grown := Grow(s, i, n);
      PutSound(grown, i, n, fd, cloexec);
      MovesTransitive(s, grown, Put(grown, i, n, fd, cloexec));
    }
  }

  /** fdtable_close */
  function CloseSlot(s: System, i: nat, n: int): (r: System)
    requires i < |s.tables| && s.tables[i].Valid()
    ensures r.held == s.held
    ensures r.tables == if s.tables[i].Get(n).Some? then s.tables[i := Emptied(s.tables[i], n)] else s.tables
  {
    match s.tables[i].Get(n)
    case None => s
    case Some(fd) => Release(Take(s, i, n), fd)
  }

  lemma CloseSlotSound(s: System, i: nat, n: int)
    requires Sound(s) && i < |s.tables|
    ensures Moves(s, CloseSlot(s, i, n))
  {
    hide Conserved, ReservationsHold, UsersCounted, Evolved, Evolves, InTable, Emptied;
    match s.tables[i].Get(n)
    case None =>
      MovesRefl(s);
    case Some(fd) =>
      TakeSound(s, i, n);
      var taken := Take(s, i, n);
      ReleaseSound(taken, fd);
      MovesTransitive(s, taken, Release(taken, fd));
  }

  /** f_dupfd_task past its flag check. */
  function Dupfd(s: System, i: nat, oldFd: int, minimum: int, limit: Limit, cloexec: bool,
      memory: bool): (r: (System, Outcome<nat>))
    requires i < |s.tables| && s.tables[i].Valid()
    ensures r.0.held == s.held
    ensures match r.1
      case Ok(n) =>
        && minimum <= n < limit && s.tables[i].Free(n) && s.tables[i].Get(oldFd).Some?
        && r.0.tables == s.tables[i := Installed(Room(s.tables[i], n), n, s.tables[i].Get(oldFd).value, cloexec)]
      case Err(_) => r.0.tables == s.tables
  {
    match s.tables[i].Get(oldFd)
    case None => (s, Err(EBADF))
    case Some(fd) =>
      if minimum < 0 || minimum >= limit then (s, Err(EINVAL))
      else
        assert s.held + multiset{fd} - multiset{fd} == s.held;
        Install(Retain(s, fd), i, fd, minimum, limit, cloexec, memory)
  }

  lemma DupfdSound(s: System, i: nat, oldFd: int, minimum: int, limit: Limit, cloexec: bool, memory: bool)
    requires Sound(s) && i < |s.tables|
    ensures Moves(s, Dupfd(s, i, oldFd, minimum, limit, cloexec, memory).0)
  {
    hide Conserved, ReservationsHold, UsersCounted, Evolved, Evolves, InTable, Room, Installed, Install;
    if s.tables[i].Get(oldFd).Some? && 0 <= minimum < limit {
      var fd := s.tables[i].Get(oldFd).value;
      SlotCounted(s, i, oldFd);
      RetainSound(s, fd);
      var retained := Retain(s, fd);
      InstallSound(retained, i, fd, minimum, limit, cloexec, memory);
      MovesTransitive(s, retained, Install(retained, i, fd, minimum, limit, cloexec, memory).0);
    } else {
      MovesRefl(s);
    }
  }

  /** f_dup_to_task past its flag checks; the copy replaces whatever the slot held. */
  function DupTo(s: System, i: nat, oldFd: int, newFd: int, limit: Limit, cloexec: bool,
      memory: bool): (r: (System, Outcome<int>))
    requires i < |s.tables| && s.tables[i].Valid()
  {
    var t := s.tables[i];
    if newFd < 0 || newFd >= limit then (s, Err(EBADF))
    else if t.Get(oldFd) == None then (s, Err(EBADF))
    else if oldFd == newFd then (s, Ok(newFd))
    else if newFd >= |t.files| && !memory then (s, Err(ENOMEM))
    else
      var grown := Grow(s, i, newFd);
      RoomMoves(t, newFd);
      if grown.tables[i].reserved[newFd] then (grown, Err(EBUSY))
      else (DupIntoSlot(grown, i, t.Get(oldFd).value, newFd, cloexec), Ok(newFd))
  }

  function DupIntoSlot(s: System, i: nat, fd: Fd, n: nat, cloexec: bool): (r: System)
    requires i < |s.tables| && s.tables[i].Valid() && n < |s.tables[i].files| && !s.tables[i].reserved[n]
    ensures r.held == s.held
    ensures r.tables == s.tables[i := Installed(Emptied(s.tables[i], n), n, fd, cloexec)]
  {
    EmptiedTwice(s.tables[i], n);
    assert s.held + multiset{fd} - multiset{fd} == s.held;
    Put(CloseSlot(Retain(s, fd), i, n), i, n, fd, cloexec)
  }

  lemma DupIntoSlotSound(s: System, i: nat, from: nat, n: nat, cloexec: bool)
    requires Sound(s) && i < |s.tables| && s.tables[i].Get(from).Some?
    requires n < |s.tables[i].files| && !s.tables[i].reserved[n]
    ensures Moves(s, DupIntoSlot(s, i, s.tables[i].files[from].value, n, cloexec))
  {
    var fd := s.tables[i].files[from].value;
    SlotCounted(s, i, from);
    RetainSound(s, fd);
    hide Conserved, ReservationsHold, UsersCounted, Evolved, Evolves, InTable, CloseSlot, Installed;
    var retained := Retain(s, fd);
    CloseSlotSound(retained, i, n);
    var emptied := CloseSlot(retained, i, n);
    EmptiedTwice(s.tables[i], n);
    PutSound(emptied, i, n, fd, cloexec);
    MovesTransitive(s, retained, emptied);
    MovesTransitive(s, emptied, Put(emptied, i, n, fd, cloexec));
  }

  /** dup2 and dup3 leave a reserved slot alone and otherwise make the two numbers the same file. */
  lemma DupToSound(s: System, i: nat, oldFd: int, newFd: int, limit: Limit, cloexec: bool, memory: bool)
    requires Sound(s) && i < |s.tables|
    ensures var (r, out) := DupTo(s, i, oldFd, newFd, limit, cloexec, memory);
      && Moves(s, r) && r.held == s.held
      && (s.tables[i].Reserved(newFd) ==> out.Err?)
      && (out.Ok? ==>
            0 <= newFd < limit && r.tables[i].Get(newFd) == s.tables[i].Get(oldFd) && r.tables[i].Get(newFd).Some?)
      && (forall n: int :: n != newFd ==> r.tables[i].Get(n) == s.tables[i].Get(n))
  {
    hide Conserved, ReservationsHold, UsersCounted, Evolved, Evolves, InTable, Room, DupIntoSlot;
    var t := s.tables[i];
    MovesRefl(s);
    if 0 <= newFd < limit && t.Get(oldFd).Some? && oldFd != newFd && (newFd < |t.files| || memory) {
      GrowSound(s, i, newFd);
      RoomMoves(t, newFd);
      var grown := Grow(s, i, newFd);
      if !t.Reserved(newFd) {
        assert grown.tables[i].Get(oldFd) == t.Get(oldFd);
        DupIntoSlotSound(grown, i, oldFd, newFd, cloexec);
        MovesTransitive(s, grown, DupIntoSlot(grown, i, t.Get(oldFd).value, newFd, cloexec));
      }
    }
  }

  /** What f_close_task_if_matches tests. */
  predicate Matches(t: Table, n: int, expected: Fd, generation: nat)
    requires t.Valid()
  {
    t.Get(n) == Some(expected) && t.Generation(n) == generation
  }

  function CloseIfMatches(s: System, i: nat, n: int, expected: Fd, generation: nat): (r: System)
    requires i < |s.tables| && s.tables[i].Valid()
  {
    if Matches(s.tables[i], n, expected, generation) then CloseSlot(s, i, n) else s
  }

  /** The loops of fdtable_do_cloexec and fdtable_release, up to slot n. */
  function CloseBelow(s: System, i: nat, n: nat, all: bool): (r: System)
    requires i < |s.tables| && s.tables[i].Valid() && n <= |s.tables[i].files|
    ensures r.held == s.held && |r.tables| == |s.tables|
    ensures r.tables[i].Valid() && |r.tables[i].files| == |s.tables[i].files|
  {
    if n == 0 then s
    else
      var swept := CloseBelow(s, i, n - 1, all);
      if all || swept.tables[i].cloexec[n - 1] then CloseSlot(swept, i, n - 1) else swept
  }

  lemma {:induction false} CloseBelowTables(s: System, i: nat, n: nat, all: bool)
    requires i < |s.tables| && s.tables[i].Valid() && n <= |s.tables[i].files|
    ensures CloseBelow(s, i, n, all).tables == s.tables[i := SweptBelow(s.tables[i], n, all)]
  {
    hide CloseSlot, SweptBelow, Emptied, Table.Valid;
    if n == 0 {
      SweptNone(s.tables[i], all);
      assert s.tables == s.tables[i := s.tables[i]];
    } else {
      SweptStep(s.tables[i], n - 1, all);
      CloseBelowTables(s, i, n - 1, all);
      EmptiedTwice(CloseBelow(s, i, n - 1, all).tables[i], n - 1);
    }
  }

  lemma {:induction false} CloseBelowSound(s: System, i: nat, n: nat, all: bool)
    requires Sound(s) && i < |s.tables| && n <= |s.tables[i].files|
    ensures Moves(s, CloseBelow(s, i, n, all))
    ensures CloseBelow(s, i, n, all).tables == s.tables[i := SweptBelow(s.tables[i], n, all)]
  {
    hide Conserved, ReservationsHold, UsersCounted, Evolved, Evolves, CloseSlot, SweptBelow, Emptied, Table.Valid;
    MovesRefl(s);
    CloseBelowTables(s, i, n, all);
    if n > 0 {
      CloseBelowSound(s, i, n - 1, all);
      var swept := CloseBelow(s, i, n - 1, all);
      CloseSlotSound(swept, i, n - 1);
      MovesTransitive(s, swept, CloseSlot(swept, i, n - 1));
    }
  }

  lemma SweptStep(t: Table, n: nat, all: bool)
    requires t.Valid() && n < |t.files|
    ensures var u := SweptBelow(t, n, all);
      u.cloexec[n] == t.cloexec[n] && SweptBelow(t, n + 1, all) == if all || t.cloexec[n] then Emptied(u, n) else u
  {
    var u, v := SweptBelow(t, n, all), SweptBelow(t, n + 1, all);
    if all || t.cloexec[n] {
      assert v.files == u.files[n := None] && v.cloexec == u.cloexec[n := false];
    } else {
      assert v.files == u.files && v.cloexec == u.cloexec;
    }
  }

  lemma SweptNone(t: Table, all: bool)
    requires t.Valid()
    ensures SweptBelow(t, 0, all) == t
  {
    var u := SweptBelow(t, 0, all);
    assert u.files == t.files && u.cloexec == t.cloexec;
  }

  lemma EmptiedTwice(t: Table, n: nat)
    requires t.Valid() && n < |t.files|
    ensures t.files[n] == None ==> Emptied(t, n) == t
  {
    if t.files[n] == None {
      assert t.files[n := None] == t.files && t.cloexec[n := false] == t.cloexec;
    }
  }
}
