/** The references and reservations that the descriptor tables of fs/fd.c share, what
    always holds of them, and the moves of one reference that every operation is made of. */
module FdRefs {
  import opened Options
  import opened FdTable
  import opened FdTableOps

  datatype Reservation = Reservation(table: nat, numbers: seq<nat>)

  /** refs is the refcount of every struct fd not yet freed; held the references that
      callers own outside any table; users the refcount of each table and tasks how
      many tasks use it. A table whose last user has gone keeps its place, all empty. */
  datatype System = System(tables: seq<Table>, users: seq<nat>, tasks: seq<nat>, refs: map<Fd, nat>,
    held: multiset<Fd>, reservations: map<nat, Reservation>)

  // ---- counting ----

  ghost function InTable(t: Table, fd: Fd): nat {
    multiset(t.files)[Some(fd)]
  }

  ghost function InTables(ts: seq<Table>, fd: Fd): nat {
    if ts == [] then 0 else InTable(ts[0], fd) + InTables(ts[1..], fd)
  }

  function RefCount(s: System, fd: Fd): nat {
    if fd in s.refs then s.refs[fd] else 0
  }

  lemma {:induction false} InTablesUpdate(ts: seq<Table>, i: nat, t: Table, fd: Fd)
    requires i < |ts|
    ensures InTables(ts[i := t], fd) == InTables(ts, fd) - InTable(ts[i], fd) + InTable(t, fd)
  {
    if i == 0 {
      assert ts[i := t][1..] == ts[1..];
    } else {
      assert ts[i := t][1..] == ts[1..][i - 1 := t];
      InTablesUpdate(ts[1..], i - 1, t, fd);
    }
  }

  lemma {:induction false} InTablesAppend(ts: seq<Table>, t: Table, fd: Fd)
    ensures InTables(ts + [t], fd) == InTables(ts, fd) + InTable(t, fd)
  {
    if ts == [] {
      assert ts + [t] == [t];
    } else {
      assert (ts + [t])[1..] == ts[1..] + [t];
      InTablesAppend(ts[1..], t, fd);
    }
  }

  lemma {:induction false} InTablesAtLeast(ts: seq<Table>, i: nat, fd: Fd)
    requires i < |ts|
    ensures InTables(ts, fd) >= InTable(ts[i], fd)
  {
    if i > 0 {
      InTablesAtLeast(ts[1..], i - 1, fd);
    }
  }

  // ---- what always holds ----

  /** Every reference is in a slot or in a caller's hands. */
  ghost predicate Conserved(s: System) {
    forall fd: Fd :: RefCount(s, fd) == InTables(s.tables, fd) + s.held[fd]
  }

  predicate TablesValid(s: System) {
    forall i :: 0 <= i < |s.tables| ==> s.tables[i].Valid()
  }

  /** A reservation's slots are empty, marked, and its own. */
  predicate Holding(s: System, r: Reservation) {
    r.table < |s.tables| && Ready(s.tables[r.table], r.numbers)
  }

  predicate Disjoint(a: Reservation, b: Reservation) {
    a.table == b.table ==> forall i :: 0 <= i < |a.numbers| ==> a.numbers[i] !in b.numbers
  }

  predicate ReservationsHold(s: System) {
    && (forall r :: r in s.reservations ==> Holding(s, s.reservations[r]))
    && (forall r, q :: r in s.reservations && q in s.reservations && r != q ==>
        Disjoint(s.reservations[r], s.reservations[q]))
  }

  function On(reservations: map<nat, Reservation>, i: nat): set<nat> {
    set r | r in reservations && reservations[r].table == i
  }

  /** A table is kept by the tasks that use it and by its reservations, and by nothing else. */
  predicate UsersCounted(s: System) {
    && |s.users| == |s.tasks| == |s.tables|
    && forall i :: 0 <= i < |s.users| ==> s.users[i] == s.tasks[i] + |On(s.reservations, i)|
  }

  ghost predicate Sound(s: System) {
    Conserved(s) && TablesValid(s) && ReservationsHold(s) && UsersCounted(s)
  }

  // ---- what no step undoes ----

  /** Slots only gain installs, and a slot not installed into keeps its file or loses it. */
  ghost predicate Evolves(t: Table, u: Table) {
    && t.Valid() && u.Valid() && |u.files| >= |t.files|
    && forall n :: 0 <= n < |t.files| ==>
      && t.installs[n] <= u.installs[n]
      && (t.installs[n] == u.installs[n] ==> u.files[n] == t.files[n] || u.files[n] == None)
  }

  ghost predicate Evolved(s: System, r: System) {
    |r.tables| >= |s.tables| && forall i :: 0 <= i < |s.tables| ==> Evolves(s.tables[i], r.tables[i])
  }

  lemma EvolvesTransitive(t: Table, u: Table, v: Table)
    requires Evolves(t, u) && Evolves(u, v)
    ensures Evolves(t, v)
  {
    forall n | 0 <= n < |t.files|
      ensures t.installs[n] <= v.installs[n]
          && (t.installs[n] == v.installs[n] ==> v.files[n] == t.files[n] || v.files[n] == None)
    {
      assert t.installs[n] <= u.installs[n] <= v.installs[n];
    }
  }

  lemma EvolvedTransitive(a: System, b: System, c: System)
    requires Evolved(a, b) && Evolved(b, c)
    ensures Evolved(a, c)
  {
    forall i | 0 <= i < |a.tables|
      ensures Evolves(a.tables[i], c.tables[i])
    {
      hide Evolves;
      EvolvesTransitive(a.tables[i], b.tables[i], c.tables[i]);
    }
  }

  lemma EvolvedRefl(s: System)
    requires TablesValid(s)
    ensures Evolved(s, s)
  {
  }

  /** Nothing but the tables' slots and the references. */
  predicate SameUsers(s: System, r: System) {
    r.users == s.users && r.tasks == s.tasks && r.reservations == s.reservations && |r.tables| == |s.tables|
  }

  // ---- the moves of one reference that every operation is made of ----

  /** fd_retain, on behalf of a caller; it asserts that the count was not zero. */
  function Retain(s: System, fd: Fd): System {
    s.(refs := s.refs[fd := RefCount(s, fd) + 1], held := s.held + multiset{fd})
  }

  /** fd_close of a reference the caller holds; the last one frees. It asserts that
      the count was not zero. */
  function Release(s: System, fd: Fd): System {
    s.(refs := if RefCount(s, fd) <= 1 then s.refs - {fd} else s.refs[fd := RefCount(s, fd) - 1],
       held := s.held - multiset{fd})
  }

  /** A held reference moves into a slot. */
  function Put(s: System, i: nat, n: nat, fd: Fd, cloexec: bool): System
    requires i < |s.tables| && s.tables[i].Valid() && n < |s.tables[i].files|
    requires s.tables[i].files[n] == None && !s.tables[i].reserved[n]
  {
    s.(tables := s.tables[i := Installed(s.tables[i], n, fd, cloexec)], held := s.held - multiset{fd})
  }

  /** A slot's reference moves into the caller's hands. */
  function Take(s: System, i: nat, n: nat): System
    requires i < |s.tables| && s.tables[i].Valid() && n < |s.tables[i].files| && s.tables[i].files[n].Some?
  {
    s.(tables := s.tables[i := Emptied(s.tables[i], n)], held := s.held + multiset{s.tables[i].files[n].value})
  }

  /** What one or several moves keep. */
  ghost predicate Moves(s: System, r: System) {
    Sound(r) && Evolved(s, r) && SameUsers(s, r)
  }

  lemma MovesTransitive(a: System, b: System, c: System)
    requires Moves(a, b) && Moves(b, c)
    ensures Moves(a, c)
  {
    hide Sound, Evolved;
    EvolvedTransitive(a, b, c);
  }

  lemma MovesRefl(s: System)
    requires Sound(s)
    ensures Moves(s, s)
  {
    EvolvedRefl(s);
  }

  /** References change hands outside the tables. */
  lemma SameTables(s: System, r: System)
    requires s.tables == r.tables && SameUsers(s, r) && Sound(s) && Conserved(r)
    ensures Moves(s, r)
  {
    hide Conserved;
    EvolvedRefl(s);
    forall q | q in r.reservations
      ensures Holding(r, r.reservations[q])
    {
      assert Holding(s, s.reservations[q]);
    }
  }

  lemma RetainSound(s: System, fd: Fd)
    requires Sound(s)
    ensures Moves(s, Retain(s, fd))
  {
    var r := Retain(s, fd);
    forall g: Fd
      ensures RefCount(r, g) == InTables(r.tables, g) + r.held[g]
    {
      assert RefCount(s, g) == InTables(s.tables, g) + s.held[g];
    }
    hide Conserved, ReservationsHold, TablesValid;
    SameTables(s, r);
  }

  /** A held reference is counted: fd_close's assertion holds, and retaining is allowed. */
  lemma HeldCounted(s: System, fd: Fd)
    requires Conserved(s) && s.held[fd] > 0
    ensures fd in s.refs && s.refs[fd] > 0
  {
    assert RefCount(s, fd) == InTables(s.tables, fd) + s.held[fd];
  }

  lemma ReleaseSound(s: System, fd: Fd)
    requires Sound(s) && s.held[fd] > 0
    ensures fd in s.refs && s.refs[fd] > 0 && Moves(s, Release(s, fd))
  {
    HeldCounted(s, fd);
    var r := Release(s, fd);
    forall g: Fd
      ensures RefCount(r, g) == InTables(r.tables, g) + r.held[g]
    {
      assert RefCount(s, g) == InTables(s.tables, g) + s.held[g];
    }
    hide Conserved, ReservationsHold, TablesValid;
    SameTables(s, r);
  }

  /** Changing one table in ways that respect its reservations. */
  ghost predicate Respects(t: Table, u: Table) {
    && Evolves(t, u)
    && forall n: int :: t.Reserved(n) ==> u.Reserved(n)
  }

  lemma TableChange(s: System, i: nat, u: Table, r: System)
    requires Sound(s) && i < |s.tables| && Respects(s.tables[i], u)
    requires r.tables == s.tables[i := u] && SameUsers(s, r) && Conserved(r)
    ensures Moves(s, r)
  {
    hide Conserved;
    forall q | q in r.reservations
      ensures Holding(r, r.reservations[q])
    {
      hide Evolves;
      HoldingKept(s, i, u, r, r.reservations[q]);
    }
    hide ReservationsHold, Holding;
    EvolvedRefl(s);
  }

  lemma HoldingKept(s: System, i: nat, u: Table, r: System, q: Reservation)
    requires i < |s.tables| && r.tables == s.tables[i := u] && u.Valid() && |u.files| >= |s.tables[i].files|
    requires forall n: int :: s.tables[i].Reserved(n) ==> u.Reserved(n)
    requires Holding(s, q)
    ensures Holding(r, q)
  {
  }

  lemma InstalledMoves(t: Table, n: nat, fd: Fd, cloexec: bool)
    requires t.Valid() && n < |t.files| && t.files[n] == None && !t.reserved[n]
    ensures Respects(t, Installed(t, n, fd, cloexec))
    ensures forall g: Fd :: InTable(Installed(t, n, fd, cloexec), g) == InTable(t, g) + (if g == fd then 1 else 0)
  {
  }

  lemma EmptiedMoves(t: Table, n: nat)
    requires t.Valid() && n < |t.files|
    ensures Respects(t, Emptied(t, n))
    ensures forall g: Fd :: InTable(Emptied(t, n), g) == InTable(t, g) - (if t.files[n] == Some(g) then 1 else 0)
  {
  }

  /** A table that gained or lost one slot's reference, which a caller gave up or took. */
  lemma PutConserved(s: System, i: nat, u: Table, fd: Fd, r: System)
    requires Conserved(s) && i < |s.tables| && s.held[fd] > 0
    requires forall g: Fd :: InTable(u, g) == InTable(s.tables[i], g) + (if g == fd then 1 else 0)
    requires r == s.(tables := s.tables[i := u], held := s.held - multiset{fd})
    ensures Conserved(r)
  {
    hide InTables, InTable;
    forall g: Fd
      ensures RefCount(r, g) == InTables(r.tables, g) + r.held[g]
    {
      InTablesUpdate(s.tables, i, u, g);
      assert RefCount(s, g) == InTables(s.tables, g) + s.held[g];
    }
  }

  lemma TakeConserved(s: System, i: nat, u: Table, fd: Fd, r: System)
    requires Conserved(s) && i < |s.tables|
    requires forall g: Fd :: InTable(u, g) == InTable(s.tables[i], g) - (if g == fd then 1 else 0)
    requires r == s.(tables := s.tables[i := u], held := s.held + multiset{fd})
    ensures Conserved(r)
  {
    hide InTables, InTable;
    forall g: Fd
      ensures RefCount(r, g) == InTables(r.tables, g) + r.held[g]
    {
      InTablesUpdate(s.tables, i, u, g);
      assert RefCount(s, g) == InTables(s.tables, g) + s.held[g];
    }
  }

  lemma PutSound(s: System, i: nat, n: nat, fd: Fd, cloexec: bool)
    requires Sound(s) && s.held[fd] > 0
    requires i < |s.tables| && n < |s.tables[i].files|
    requires s.tables[i].files[n] == None && !s.tables[i].reserved[n]
    ensures Moves(s, Put(s, i, n, fd, cloexec))
  {
    hide Conserved, ReservationsHold, UsersCounted, InTable, Evolves, Respects, Installed, Moves;
    var u := Installed(s.tables[i], n, fd, cloexec);
    InstalledMoves(s.tables[i], n, fd, cloexec);
    var r := Put(s, i, n, fd, cloexec);
    PutConserved(s, i, u, fd, r);
    TableChange(s, i, u, r);
  }

  lemma TakeSound(s: System, i: nat, n: nat)
    requires Sound(s) && i < |s.tables| && n < |s.tables[i].files| && s.tables[i].files[n].Some?
    ensures Moves(s, Take(s, i, n)) && Take(s, i, n).held[s.tables[i].files[n].value] > 0
  {
    hide Conserved, ReservationsHold, UsersCounted, InTable, Evolves, Respects, Emptied, Moves;
    var u, fd := Emptied(s.tables[i], n), s.tables[i].files[n].value;
    EmptiedMoves(s.tables[i], n);
    var r := Take(s, i, n);
    TakeConserved(s, i, u, fd, r);
    TableChange(s, i, u, r);
  }

  lemma SlotCounted(s: System, i: nat, n: nat)
    requires Conserved(s) && i < |s.tables| && n < |s.tables[i].files| && s.tables[i].files[n].Some?
    ensures s.tables[i].files[n].value in s.refs && s.refs[s.tables[i].files[n].value] > 0
  {
    var fd := s.tables[i].files[n].value;
    assert s.tables[i].files[n] in multiset(s.tables[i].files);
    InTablesAtLeast(s.tables, i, fd);
    assert RefCount(s, fd) == InTables(s.tables, fd) + s.held[fd];
  }

  /** Growing a table for number n. */
  function Grow(s: System, i: nat, n: nat): System
    requires i < |s.tables| && s.tables[i].Valid()
  {
    s.(tables := s.tables[i := Room(s.tables[i], n)])
  }

  lemma RoomMoves(t: Table, n: nat)
    requires t.Valid()
    ensures Respects(t, Room(t, n)) && Room(t, n).Get(n) == t.Get(n) && (Room(t, n).Reserved(n) <==> t.Reserved(n))
    ensures forall g: Fd :: InTable(Room(t, n), g) == InTable(t, g)
  {
    if n >= |t.files| {
      var more := Filled<Option<Fd>>(None, n + 1 - |t.files|);
      assert multiset(t.files + more) == multiset(t.files) + multiset(more);
      forall g: Fd
        ensures InTable(Room(t, n), g) == InTable(t, g)
      {
        assert Some(g) !in more;
      }
    }
  }

  lemma GrowSound(s: System, i: nat, n: nat)
    requires Sound(s) && i < |s.tables|
    ensures Moves(s, Grow(s, i, n))
  {
    var u := Room(s.tables[i], n);
    RoomMoves(s.tables[i], n);
    hide InTables, InTable, ReservationsHold, TablesValid, UsersCounted, Evolves, Room;
    var r := Grow(s, i, n);
    forall g: Fd
      ensures RefCount(r, g) == InTables(r.tables, g) + r.held[g]
    {
      InTablesUpdate(s.tables, i, u, g);
      assert RefCount(s, g) == InTables(s.tables, g) + s.held[g];
    }
    hide Conserved, Respects;
    TableChange(s, i, u, r);
  }
}
