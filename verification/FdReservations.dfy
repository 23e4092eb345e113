/** Reserving, publishing and cancelling descriptor numbers, and the coming and going
    of whole tables, as steps of the system of fs/fd.c. */
module FdReservations {
  import opened Options
  import opened FdTable
  import opened FdTableOps
  import opened FdRefs
  import opened FdSteps

  // ---- reserve ----

  /** f_reserve_task past its argument check; rid names the caller's struct fd_reservation. */
  function Reserve(s: System, i: nat, rid: nat, count: nat, limit: Limit,
      memory: bool): (r: (System, Outcome<seq<nat>>))
    requires i < |s.tables| == |s.users| && s.tables[i].Valid() && 1 <= count
  {
    match Picked(s.tables[i], count, 0, limit)
    case None => (s, Err(EMFILE))
    case Some(ns) =>
      if ns[count - 1] >= |s.tables[i].files| && !memory then (s, Err(ENOMEM))
      else
        PickedFree(s.tables[i], ns, Room(s.tables[i], ns[count - 1]));
        (s.(tables := s.tables[i := MarkedAll(Room(s.tables[i], ns[count - 1]), ns)],
            users := s.users[i := s.users[i] + 1],
            reservations := s.reservations[rid := Reservation(i, ns)]), Ok(ns))
  }

  lemma OnAdd(reservations: map<nat, Reservation>, rid: nat, q: Reservation)
    requires rid !in reservations
    ensures forall i: nat :: |On(reservations[rid := q], i)| == |On(reservations, i)| + (if i == q.table then 1 else 0)
  {
    forall i: nat
      ensures |On(reservations[rid := q], i)| == |On(reservations, i)| + (if i == q.table then 1 else 0)
    {
      assert On(reservations[rid := q], i) == On(reservations, i) + (if i == q.table then {rid} else {});
    }
  }

  lemma OnRemove(reservations: map<nat, Reservation>, rid: nat)
    requires rid in reservations
    ensures forall i: nat ::
        |On(reservations - {rid}, i)| == |On(reservations, i)| - (if i == reservations[rid].table then 1 else 0)
  {
    forall i: nat
      ensures |On(reservations - {rid}, i)| == |On(reservations, i)| - (if i == reservations[rid].table then 1 else 0)
    {
      assert On(reservations, i) == On(reservations - {rid}, i) + (if i == reservations[rid].table then {rid} else {});
    }
  }

  /** All or nothing: a failed reservation changes nothing, a successful one marks free
      numbers that no other reservation has. */
  lemma ReserveSound(s: System, i: nat, rid: nat, count: nat, limit: Limit, memory: bool)
    requires Sound(s) && i < |s.tables| && 1 <= count && rid !in s.reservations
    ensures var (r, out) := Reserve(s, i, rid, count, limit, memory);
      && Sound(r) && Evolved(s, r) && r.held == s.held
      && (out.Err? ==> r == s)
      && (out.Ok? ==> r.reservations == s.reservations[rid := Reservation(i, out.value)])
  {
    hide Picked;
    var (r, out) := Reserve(s, i, rid, count, limit, memory);
    EvolvedRefl(s);
    if out.Ok? {
      var ns := out.value;
      var grown := Room(s.tables[i], ns[count - 1]);
      RoomMoves(s.tables[i], ns[count - 1]);
      PickedFree(s.tables[i], ns, grown);
      var u := MarkedAll(grown, ns);
      ReserveTables(s, i, rid, ns, grown, u, r);
    }
  }

  lemma ReserveTables(s: System, i: nat, rid: nat, ns: seq<nat>, grown: Table, u: Table, r: System)
    requires Sound(s) && i < |s.tables| && rid !in s.reservations
    requires Respects(s.tables[i], grown) && forall g: Fd :: InTable(grown, g) == InTable(s.tables[i], g)
    requires u.Valid() && u.files == grown.files && u.installs == grown.installs
    requires forall n: int :: u.Reserved(n) <==> grown.Reserved(n) || n in ns
    requires forall j :: 0 <= j < |ns| ==>
        ns[j] < |grown.files| && grown.files[ns[j]] == None && !s.tables[i].Reserved(ns[j])
    requires forall j, k :: 0 <= j < k < |ns| ==> ns[j] < ns[k]
    requires r == s.(tables := s.tables[i := u], users := s.users[i := s.users[i] + 1],
        reservations := s.reservations[rid := Reservation(i, ns)])
    ensures Sound(r) && Evolved(s, r)
  {
    hide Conserved, ReservationsHold, UsersCounted, TablesValid, Respects, Evolved, InTable, Disjoint, Holding;
    var middle := s.(tables := r.tables);
    var q := Reservation(i, ns);
    NewlyHolding(middle, q);
    MarkedRespects(s.tables[i], grown, u);
    SameFilesConserved(s, i, grown, u, middle);
    TableChange(s, i, u, middle);
    NewlyDisjoint(s, i, ns);
    ReservationAdded(middle, rid, q);
    EvolvedSame(s, middle, r);
  }

  lemma NewlyHolding(s: System, q: Reservation)
    requires q.table < |s.tables|
    requires forall n: int :: n in q.numbers ==> s.tables[q.table].Reserved(n)
    requires forall j :: 0 <= j < |q.numbers| ==> s.tables[q.table].Get(q.numbers[j]) == None
    requires s.tables[q.table].Valid() && forall j, k :: 0 <= j < k < |q.numbers| ==> q.numbers[j] < q.numbers[k]
    ensures Holding(s, q)
  {
    forall j | 0 <= j < |q.numbers|
      ensures s.tables[q.table].Reserved(q.numbers[j])
    {
      assert q.numbers[j] in q.numbers;
    }
  }

  /** What is not marked is in no reservation. */
  lemma NewlyDisjoint(s: System, i: nat, ns: seq<nat>)
    requires ReservationsHold(s) && i < |s.tables| && forall j :: 0 <= j < |ns| ==> !s.tables[i].Reserved(ns[j])
    ensures forall p :: p in s.reservations ==>
        Disjoint(s.reservations[p], Reservation(i, ns)) && Disjoint(Reservation(i, ns), s.reservations[p])
  {
    forall p | p in s.reservations
      ensures Disjoint(s.reservations[p], Reservation(i, ns)) && Disjoint(Reservation(i, ns), s.reservations[p])
    {
      assert Holding(s, s.reservations[p]);
    }
  }

  lemma ReservationAdded(s: System, rid: nat, q: Reservation)
    requires Sound(s) && rid !in s.reservations && Holding(s, q)
    requires forall p :: p in s.reservations ==> Disjoint(s.reservations[p], q) && Disjoint(q, s.reservations[p])
    ensures Sound(s.(users := s.users[q.table := s.users[q.table] + 1], reservations := s.reservations[rid := q]))
  {
    hide Disjoint;
    var r := s.(users := s.users[q.table := s.users[q.table] + 1], reservations := s.reservations[rid := q]);
    OnAdd(s.reservations, rid, q);
    assert Conserved(r) by {
      SameRefs(s, r);
    }
    hide Conserved, On;
    forall p | p in r.reservations
      ensures Holding(r, r.reservations[p])
    {
      assert p != rid ==> Holding(s, s.reservations[p]);
    }
  }

  lemma SameRefs(s: System, r: System)
    requires Conserved(s) && r.tables == s.tables && r.refs == s.refs && r.held == s.held
    ensures Conserved(r)
  {
    forall g: Fd
      ensures RefCount(r, g) == InTables(r.tables, g) + r.held[g]
    {
      assert RefCount(s, g) == InTables(s.tables, g) + s.held[g];
    }
  }

  lemma EvolvedSame(s: System, a: System, b: System)
    requires Evolved(s, a) && a.tables == b.tables
    ensures Evolved(s, b)
  {
  }

  lemma MarkedRespects(t: Table, grown: Table, u: Table)
    requires Respects(t, grown) && u.Valid() && u.files == grown.files && u.installs == grown.installs
    requires forall n: int :: grown.Reserved(n) ==> u.Reserved(n)
    ensures Respects(t, u)
  {
  }

  lemma SameFilesConserved(s: System, i: nat, grown: Table, u: Table, r: System)
    requires Conserved(s) && i < |s.tables| && u.files == grown.files
    requires forall g: Fd :: InTable(grown, g) == InTable(s.tables[i], g)
    requires r == s.(tables := s.tables[i := u])
    ensures Conserved(r)
  {
    forall g: Fd
      ensures RefCount(r, g) == InTables(r.tables, g) + r.held[g]
    {
      InTablesUpdate(s.tables, i, u, g);
      assert InTable(u, g) == InTable(grown, g);
      assert RefCount(s, g) == InTables(s.tables, g) + s.held[g];
    }
  }

  // ---- publish and cancel ----

  /** A reservation ends: its numbers are no longer marked, and its table loses a user. */
  function Retired(s: System, rid: nat, u: Table): System
    requires rid in s.reservations && s.reservations[rid].table < |s.tables| == |s.users|
        && s.users[s.reservations[rid].table] > 0
  {
    var i := s.reservations[rid].table;
    s.(tables := s.tables[i := u], users := s.users[i := s.users[i] - 1], reservations := s.reservations - {rid})
  }

  lemma ReservedTableUsed(s: System, rid: nat)
    requires Sound(s) && rid in s.reservations
    ensures var i := s.reservations[rid].table;
      i < |s.tables| == |s.users| && s.users[i] > 0 && Ready(s.tables[i], s.reservations[rid].numbers)
  {
    assert Holding(s, s.reservations[rid]);
    assert rid in On(s.reservations, s.reservations[rid].table);
  }

  /** Every other reservation keeps its marks when one is retired. */
  lemma RetiredSound(s: System, rid: nat, u: Table, r: System)
    requires Sound(s) && rid in s.reservations && s.reservations[rid].table < |s.tables| == |s.users|
        && s.users[s.reservations[rid].table] > 0
    requires var i := s.reservations[rid].table;
      Evolves(s.tables[i], u) && forall n: int :: s.tables[i].Reserved(n) && n !in s.reservations[rid].numbers ==>
          u.Reserved(n)
    requires var q := Retired(s, rid, u); r == q.(refs := r.refs, held := r.held) && Conserved(r)
    ensures Sound(r) && Evolved(s, r)
  {
    hide Conserved, ReservationsHold, UsersCounted, Evolves, Evolved;
    RetiredHolds(s, rid, u, r);
    RetiredUsers(s, rid, u, r);
    RetiredEvolves(s, rid, u, r);
  }

  lemma RetiredHolds(s: System, rid: nat, u: Table, r: System)
    requires ReservationsHold(s) && rid in s.reservations && s.reservations[rid].table < |s.tables|
    requires var i := s.reservations[rid].table;
      && Evolves(s.tables[i], u)
      && forall n: int :: s.tables[i].Reserved(n) && n !in s.reservations[rid].numbers ==> u.Reserved(n)
    requires r.tables == s.tables[s.reservations[rid].table := u] && r.reservations == s.reservations - {rid}
    ensures ReservationsHold(r)
  {
    forall p | p in r.reservations
      ensures Holding(r, r.reservations[p])
    {
      assert Holding(s, s.reservations[p]) && Disjoint(s.reservations[p], s.reservations[rid]);
    }
  }

  lemma RetiredUsers(s: System, rid: nat, u: Table, r: System)
    requires UsersCounted(s) && rid in s.reservations && s.reservations[rid].table < |s.tables|
    requires s.users[s.reservations[rid].table] > 0
    requires var q := Retired(s, rid, u); r == q.(refs := r.refs, held := r.held)
    ensures UsersCounted(r)
  {
    hide On;
    OnRemove(s.reservations, rid);
  }

  lemma RetiredEvolves(s: System, rid: nat, u: Table, r: System)
    requires TablesValid(s) && rid in s.reservations && s.reservations[rid].table < |s.tables|
    requires Evolves(s.tables[s.reservations[rid].table], u) && r.tables == s.tables[s.reservations[rid].table := u]
    ensures TablesValid(r) && Evolved(s, r)
  {
    EvolvedRefl(s);
  }

  /** The end of fdtable_release: the last user closes every slot. */
  function Leave(s: System, i: nat): (r: System)
    requires i < |s.tables| == |s.users| && s.tables[i].Valid()
    ensures r.held == s.held && |r.tables| == |s.tables|
  {
    if s.users[i] == 0 then CloseBelow(s, i, |s.tables[i].files|, true) else s
  }

  lemma LeaveSound(s: System, i: nat)
    requires Sound(s) && i < |s.tables|
    ensures Moves(s, Leave(s, i))
    ensures Leave(s, i).users[i] == 0 ==> forall n: int :: Leave(s, i).tables[i].Get(n) == None
    ensures Leave(s, i).users[i] != 0 ==> Leave(s, i) == s
  {
    hide Conserved, ReservationsHold, Evolved, Evolves, CloseBelow;
    MovesRefl(s);
    if s.users[i] == 0 {
      CloseBelowSound(s, i, |s.tables[i].files|, true);
    }
  }

  /** f_reservation_cancel */
  function Cancel(s: System, rid: nat): (r: System)
    requires rid in s.reservations
    requires var i := s.reservations[rid].table;
      i < |s.tables| == |s.users| && s.users[i] > 0 && s.tables[i].Valid()
          && Ready(s.tables[i], s.reservations[rid].numbers)
    ensures r.held == s.held
  {
    var q := s.reservations[rid];
    Leave(Retired(s, rid, UnmarkedAll(s.tables[q.table], q.numbers)), q.table)
  }

  lemma CancelSound(s: System, rid: nat)
    requires Sound(s) && rid in s.reservations
    ensures var i := s.reservations[rid].table;
        i < |s.tables| && s.users[i] > 0 && Ready(s.tables[i], s.reservations[rid].numbers)
    ensures Sound(Cancel(s, rid)) && Evolved(s, Cancel(s, rid)) && Cancel(s, rid).reservations == s.reservations - {rid}
  {
    ReservedTableUsed(s, rid);
    var q := s.reservations[rid];
    var u := UnmarkedAll(s.tables[q.table], q.numbers);
    var r := Retired(s, rid, u);
    hide UnmarkedAll, Leave;
    assert Conserved(r) by {
      SameFilesConserved(s, q.table, s.tables[q.table], u, s.(tables := r.tables));
      SameRefs(s.(tables := r.tables), r);
    }
    RetiredSound(s, rid, u, r);
    hide Sound, Evolved;
    LeaveSound(r, q.table);
    EvolvedTransitive(s, r, Leave(r, q.table));
  }

  /** f_reservation_publish: one reference goes into each reserved slot. */
  function Publish(s: System, rid: nat, fds: seq<Fd>, cloexec: bool): (r: System)
    requires rid in s.reservations && |fds| == |s.reservations[rid].numbers|
    requires var i := s.reservations[rid].table;
      i < |s.tables| == |s.users| && s.users[i] > 0 && s.tables[i].Valid()
          && Ready(s.tables[i], s.reservations[rid].numbers)
    ensures r.held == s.held - multiset(fds)
  {
    var q := s.reservations[rid];
    var published := Retired(s, rid, PublishedAll(s.tables[q.table], q.numbers, fds, cloexec));
    Leave(published.(held := s.held - multiset(fds)), q.table)
  }

  lemma {:induction false} PublishedMoves(t: Table, ns: seq<nat>, fds: seq<Fd>, cloexec: bool)
    requires t.Valid() && Ready(t, ns) && |fds| == |ns|
    ensures var u := PublishedAll(t, ns, fds, cloexec);
      && Evolves(t, u) && |u.files| == |t.files|
      && (forall n: int :: u.Reserved(n) <==> t.Reserved(n) && n !in ns)
      && (forall g: Fd :: InTable(u, g) == InTable(t, g) + multiset(fds)[g])
    decreases |ns|
  {
    if ns != [] {
      ReadyStep(t, ns);
      var u := Installed(Unmarked(t, ns[0]), ns[0], fds[0], cloexec);
      FirstPublished(t, ns[0], fds[0], cloexec);
      PublishedStep(t, ns, fds, cloexec);
      PublishedMoves(u, ns[1..], fds[1..], cloexec);
      hide PublishedAll, Installed, Unmarked, InTable;
      assert fds == [fds[0]] + fds[1..];
      EvolvesTransitive(t, u, PublishedAll(u, ns[1..], fds[1..], cloexec));
    }
  }

  /** Each number gets its file, one install and its flag; every other slot is untouched. */
  lemma {:induction false} PublishedSlots(t: Table, ns: seq<nat>, fds: seq<Fd>, cloexec: bool)
    requires t.Valid() && Ready(t, ns) && |fds| == |ns|
    ensures var u := PublishedAll(t, ns, fds, cloexec);
      && |u.files| == |t.files|
      && (forall j :: 0 <= j < |ns| ==>
            ns[j] < |u.files| && u.files[ns[j]] == Some(fds[j]) && u.installs[ns[j]] == t.installs[ns[j]] + 1
                && u.cloexec[ns[j]] == cloexec)
      && (forall n :: 0 <= n < |t.files| && n !in ns ==>
            u.files[n] == t.files[n] && u.installs[n] == t.installs[n] && u.cloexec[n] == t.cloexec[n])
    decreases |ns|
  {
    if ns != [] {
      ReadyStep(t, ns);
      var u := Installed(Unmarked(t, ns[0]), ns[0], fds[0], cloexec);
      FirstPublished(t, ns[0], fds[0], cloexec);
      PublishedStep(t, ns, fds, cloexec);
      PublishedSlots(u, ns[1..], fds[1..], cloexec);
      hide PublishedAll, Installed, Unmarked, InTable, Evolves;
      PublishedJoin(t, ns, fds, cloexec, u, PublishedAll(u, ns[1..], fds[1..], cloexec));
    }
  }

  lemma FirstPublished(t: Table, n: nat, fd: Fd, cloexec: bool)
    requires t.Valid() && n < |t.files| && t.files[n] == None
    ensures var u := Installed(Unmarked(t, n), n, fd, cloexec);
      && Evolves(t, u) && |u.files| == |t.files|
      && (forall m: int :: u.Reserved(m) <==> t.Reserved(m) && m != n)
      && (forall g: Fd :: InTable(u, g) == InTable(t, g) + (if g == fd then 1 else 0))
      && u.files[n] == Some(fd) && u.installs[n] == t.installs[n] + 1 && u.cloexec[n] == cloexec
      && (forall m :: 0 <= m < |t.files| && m != n ==>
          u.files[m] == t.files[m] && u.installs[m] == t.installs[m] && u.cloexec[m] == t.cloexec[m])
  {
  }

  /** The first slot and the rest together. */
  lemma PublishedJoin(t: Table, ns: seq<nat>, fds: seq<Fd>, cloexec: bool, u: Table, v: Table)
    requires t.Valid() && u.Valid() && v.Valid() && |fds| == |ns| > 0 && |t.files| == |u.files| == |v.files|
    requires ns[0] < |t.files| && ns[0] !in ns[1..]
    requires u.files[ns[0]] == Some(fds[0]) && u.installs[ns[0]] == t.installs[ns[0]] + 1 && u.cloexec[ns[0]] == cloexec
    requires forall m :: 0 <= m < |t.files| && m != ns[0] ==>
        u.files[m] == t.files[m] && u.installs[m] == t.installs[m] && u.cloexec[m] == t.cloexec[m]
    requires forall j :: 0 <= j < |ns[1..]| ==>
        ns[1..][j] < |v.files| && v.files[ns[1..][j]] == Some(fds[1..][j])
            && v.installs[ns[1..][j]] == u.installs[ns[1..][j]] + 1 && v.cloexec[ns[1..][j]] == cloexec
    requires forall n :: 0 <= n < |u.files| && n !in ns[1..] ==>
        v.files[n] == u.files[n] && v.installs[n] == u.installs[n] && v.cloexec[n] == u.cloexec[n]
    ensures forall j :: 0 <= j < |ns| ==>
        ns[j] < |v.files| && v.files[ns[j]] == Some(fds[j]) && v.installs[ns[j]] == t.installs[ns[j]] + 1
            && v.cloexec[ns[j]] == cloexec
    ensures forall n :: 0 <= n < |t.files| && n !in ns ==>
        v.files[n] == t.files[n] && v.installs[n] == t.installs[n] && v.cloexec[n] == t.cloexec[n]
  {
    forall j | 0 <= j < |ns|
      ensures ns[j] < |v.files| && v.files[ns[j]] == Some(fds[j]) && v.installs[ns[j]] == t.installs[ns[j]] + 1
          && v.cloexec[ns[j]] == cloexec
    {
      if j > 0 {
        assert ns[1..][j - 1] == ns[j] && fds[1..][j - 1] == fds[j];
        assert ns[j] in ns[1..];
      }
    }
  }

  lemma PublishedConserved(s: System, i: nat, u: Table, fds: seq<Fd>, r: System)
    requires Conserved(s) && i < |s.tables| && multiset(fds) <= s.held
    requires forall g: Fd :: InTable(u, g) == InTable(s.tables[i], g) + multiset(fds)[g]
    requires r.tables == s.tables[i := u] && r.refs == s.refs && r.held == s.held - multiset(fds)
    ensures Conserved(r)
  {
    forall g: Fd
      ensures RefCount(r, g) == InTables(r.tables, g) + r.held[g]
    {
      InTablesUpdate(s.tables, i, u, g);
      assert RefCount(s, g) == InTables(s.tables, g) + s.held[g];
    }
  }

  /** The assertions of f_reservation_publish hold, and it hands over exactly the references passed in. */
  lemma PublishSound(s: System, rid: nat, fds: seq<Fd>, cloexec: bool)
    requires Sound(s) && rid in s.reservations && |fds| == |s.reservations[rid].numbers| && multiset(fds) <= s.held
    ensures var i := s.reservations[rid].table;
        i < |s.tables| && s.users[i] > 0 && Ready(s.tables[i], s.reservations[rid].numbers)
    ensures var r := Publish(s, rid, fds, cloexec);
        Sound(r) && Evolved(s, r) && r.reservations == s.reservations - {rid}
  {
    ReservedTableUsed(s, rid);
    var q := s.reservations[rid];
    var u := PublishedAll(s.tables[q.table], q.numbers, fds, cloexec);
    PublishedMoves(s.tables[q.table], q.numbers, fds, cloexec);
    var r := Retired(s, rid, u).(held := s.held - multiset(fds));
    hide PublishedAll, Leave, InTable, Evolves;
    PublishedConserved(s, q.table, u, fds, r);
    RetiredSound(s, rid, u, r);
    hide Sound, Evolved;
    LeaveSound(r, q.table);
    EvolvedTransitive(s, r, Leave(r, q.table));
  }

  /** While a task still uses the table, publishing leaves the files in the reserved slots
      under new generations. */
  lemma PublishInstalls(s: System, rid: nat, fds: seq<Fd>, cloexec: bool, j: nat)
    requires Sound(s) && rid in s.reservations && |fds| == |s.reservations[rid].numbers| && multiset(fds) <= s.held
        && j < |fds|
    requires s.reservations[rid].table < |s.tables| && s.tasks[s.reservations[rid].table] > 0
    ensures var q := s.reservations[rid];
      Ready(s.tables[q.table], q.numbers)
    ensures var q := s.reservations[rid];
      && s.users[q.table] > 0
      && var t, u := s.tables[q.table], Publish(s, rid, fds, cloexec).tables[q.table];
      && q.numbers[j] < |u.files| == |u.installs| && u.files[q.numbers[j]] == Some(fds[j])
           && u.installs[q.numbers[j]] == t.installs[q.numbers[j]] + 1
  {
    ReservedTableUsed(s, rid);
    var q := s.reservations[rid];
    PublishedSlots(s.tables[q.table], q.numbers, fds, cloexec);
    assert rid in On(s.reservations, q.table);
    OnRemove(s.reservations, rid);
  }

  // ---- tables ----

  /** fdtable_copy: the new table shares every file and no reservation. */
  function Copy(s: System, i: nat): System
    requires i < |s.tables| && s.tables[i].Valid()
  {
    var t := s.tables[i];
    System(s.tables + [t.(reserved := Filled(false, |t.files|))], s.users + [1], s.tasks + [1],
           map fd | fd in s.refs :: s.refs[fd] + multiset(t.files)[Some(fd)], s.held, s.reservations)
  }

  lemma CopySound(s: System, i: nat)
    requires Sound(s) && i < |s.tables|
    ensures Sound(Copy(s, i)) && Evolved(s, Copy(s, i))
  {
    var t := s.tables[i];
    var u := t.(reserved := Filled(false, |t.files|));
    var r := Copy(s, i);
    assert Conserved(r) by {
      CopyConserved(s, i, u, r);
    }
    hide Conserved;
    EvolvedRefl(s);
    NoneOn(s);
    hide Evolves;
    forall p | p in r.reservations
      ensures Holding(r, r.reservations[p])
    {
      assert Holding(s, s.reservations[p]);
    }
  }

  lemma NoneOn(s: System)
    requires ReservationsHold(s)
    ensures |On(s.reservations, |s.tables|)| == 0
  {
    forall p | p in s.reservations
      ensures s.reservations[p].table != |s.tables|
    {
      assert Holding(s, s.reservations[p]);
    }
    assert On(s.reservations, |s.tables|) == {};
  }

  lemma CopyConserved(s: System, i: nat, u: Table, r: System)
    requires Conserved(s) && i < |s.tables| && u.files == s.tables[i].files
    requires r.tables == s.tables + [u] && r.held == s.held
        && r.refs == (map fd | fd in s.refs :: s.refs[fd] + multiset(u.files)[Some(fd)])
    ensures Conserved(r)
  {
    forall g: Fd
      ensures RefCount(r, g) == InTables(r.tables, g) + r.held[g]
    {
      InTablesAppend(s.tables, u, g);
      InTablesAtLeast(s.tables, i, g);
      assert RefCount(s, g) == InTables(s.tables, g) + s.held[g];
      assert InTable(u, g) == InTable(s.tables[i], g) == multiset(u.files)[Some(g)];
    }
  }

  /** A task starts to share a table, or (fdtable_release) stops using it. */
  function Share(s: System, i: nat): System
    requires i < |s.tables| == |s.users| == |s.tasks|
  {
    s.(users := s.users[i := s.users[i] + 1], tasks := s.tasks[i := s.tasks[i] + 1])
  }

  function Exit(s: System, i: nat): System
    requires i < |s.tables| == |s.users| == |s.tasks| && s.users[i] > 0 && s.tasks[i] > 0 && s.tables[i].Valid()
  {
    Leave(s.(users := s.users[i := s.users[i] - 1], tasks := s.tasks[i := s.tasks[i] - 1]), i)
  }

  lemma UsersSound(s: System, r: System)
    requires Sound(s) && r == s.(users := r.users, tasks := r.tasks) && UsersCounted(r)
    ensures Sound(r) && Evolved(s, r)
  {
    assert Conserved(r) by {
      SameRefs(s, r);
    }
    hide Conserved, UsersCounted;
    EvolvedRefl(s);
    forall p | p in r.reservations
      ensures Holding(r, r.reservations[p])
    {
      assert Holding(s, s.reservations[p]);
    }
  }

  lemma ExitSound(s: System, i: nat)
    requires Sound(s) && i < |s.tables| && s.tasks[i] > 0
    ensures s.users[i] > 0 && Sound(Exit(s, i)) && Evolved(s, Exit(s, i)) && Exit(s, i).reservations == s.reservations
  {
    hide Conserved, ReservationsHold, Evolved, Leave;
    var r := s.(users := s.users[i := s.users[i] - 1], tasks := s.tasks[i := s.tasks[i] - 1]);
    UsersSound(s, r);
    LeaveSound(r, i);
    EvolvedTransitive(s, r, Leave(r, i));
  }
}
