/** Every run of descriptor operations by any number of threads: references are conserved,
    reserved slots stay reserved, and a generation names one installation. */
module FdRuns {
  import opened Options
  import opened FdTable
  import opened FdTableOps
  import opened FdRefs
  import opened FdSteps
  import opened FdReservations

  datatype Event =
    | Create(fd: Fd)
    | RetainHeld(fd: Fd)
    | GetRetain(table: nat, number: int)
    | Drop(fd: Fd)
    | DoInstall(table: nat, fd: Fd, limit: Limit, cloexec: bool, memory: bool)
    | DoDupfd(table: nat, number: int, minimum: int, limit: Limit, cloexec: bool, memory: bool)
    | DoDupTo(table: nat, number: int, target: int, limit: Limit, cloexec: bool, memory: bool)
    | DoClose(table: nat, number: int)
    | DoCloseIfMatches(table: nat, number: int, expected: Fd, generation: nat)
    | SetCloexec(table: nat, number: int, flag: bool)
    | Exec(table: nat)
    | DoReserve(table: nat, rid: nat, count: nat, limit: Limit, memory: bool)
    | DoPublish(rid: nat, fds: seq<Fd>, cloexec: bool)
    | DoCancel(rid: nat)
    | DoCopy(table: nat)
    | DoShare(table: nat)
    | DoExit(table: nat)

  /** A caller passes references it holds, uses a table a task still has, and ends a
      reservation it made. A struct fd's address may be taken again once it is freed. */
  predicate Enabled(s: System, e: Event) {
    match e
    case Create(fd) => fd !in s.refs
    case RetainHeld(fd) => s.held[fd] > 0
    case Drop(fd) => s.held[fd] > 0
    case DoInstall(i, fd, _, _, _) => Used(s, i) && s.held[fd] > 0
    case DoReserve(i, rid, count, _, _) => Used(s, i) && rid !in s.reservations && 1 <= count <= 2
    case DoPublish(rid, fds, _) =>
      rid in s.reservations && |fds| == |s.reservations[rid].numbers| && multiset(fds) <= s.held
    case DoCancel(rid) => rid in s.reservations
    case _ => Used(s, e.table)
  }

  predicate Used(s: System, i: nat) {
    i < |s.tables| && i < |s.tasks| && s.tasks[i] > 0
  }

  /** fd_create, held by its creator. */
  function Created(s: System, fd: Fd): System {
    s.(refs := s.refs[fd := 1], held := s.held + multiset{fd})
  }

  /** f_setfd_task */
  function Flagged(s: System, i: nat, n: int, flag: bool): System
    requires i < |s.tables| && s.tables[i].Valid()
  {
    if s.tables[i].Get(n) == None then s
    else s.(tables := s.tables[i := s.tables[i].(cloexec := s.tables[i].cloexec[n := flag])])
  }

  ghost function Next(s: System, e: Event): System
    requires Sound(s) && Enabled(s, e)
  {
    if SlotStep(e) then SlotNext(s, e)
    else if ReferenceStep(e) then ReferenceNext(s, e)
    else TableNext(s, e)
  }

  predicate SlotStep(e: Event) {
    || e.DoInstall? || e.DoDupfd? || e.DoDupTo? || e.DoClose? || e.DoCloseIfMatches? || e.SetCloexec? || e.Exec?
  }

  predicate ReferenceStep(e: Event) {
    e.Create? || e.RetainHeld? || e.GetRetain? || e.Drop?
  }

  /** Steps on the slots of one table. */
  function SlotNext(s: System, e: Event): System
    requires TablesValid(s) && Enabled(s, e) && SlotStep(e)
  {
    match e
    case DoInstall(i, fd, limit, cloexec, memory) => Install(s, i, fd, 0, limit, cloexec, memory).0
    case DoDupfd(i, n, minimum, limit, cloexec, memory) => Dupfd(s, i, n, minimum, limit, cloexec, memory).0
    case DoDupTo(i, n, target, limit, cloexec, memory) => DupTo(s, i, n, target, limit, cloexec, memory).0
    case DoClose(i, n) => CloseSlot(s, i, n)
    case DoCloseIfMatches(i, n, expected, generation) => CloseIfMatches(s, i, n, expected, generation)
    case SetCloexec(i, n, flag) => Flagged(s, i, n, flag)
    case Exec(i) => CloseBelow(s, i, |s.tables[i].files|, false)
  }

  /** Steps on references outside the tables. */
  function ReferenceNext(s: System, e: Event): System
    requires TablesValid(s) && Enabled(s, e) && ReferenceStep(e)
  {
    match e
    case Create(fd) => Created(s, fd)
    case RetainHeld(fd) => Retain(s, fd)
    case GetRetain(i, n) => if s.tables[i].Get(n).Some? then Retain(s, s.tables[i].Get(n).value) else s
    case Drop(fd) => Release(s, fd)
  }

  /** Steps on reservations and whole tables. */
  ghost function TableNext(s: System, e: Event): System
    requires Sound(s) && Enabled(s, e) && !SlotStep(e) && !ReferenceStep(e)
  {
    match e
    case DoReserve(i, rid, count, limit, memory) => Reserve(s, i, rid, count, limit, memory).0
    case DoPublish(rid, fds, cloexec) =>
      ReservedTableUsed(s, rid);
      Publish(s, rid, fds, cloexec)
    case DoCancel(rid) =>
      ReservedTableUsed(s, rid);
      Cancel(s, rid)
    case DoCopy(i) => Copy(s, i)
    case DoShare(i) => Share(s, i)
    case DoExit(i) => Exit(s, i)
  }

  /** The references a step takes from its caller, whether it succeeds or fails, and those it gives. */
  function Spent(e: Event): multiset<Fd> {
    match e
    case Drop(fd) => multiset{fd}
    case DoInstall(_, fd, _, _, _) => multiset{fd}
    case DoPublish(_, fds, _) => multiset(fds)
    case _ => multiset{}
  }

  function Gained(s: System, e: Event): multiset<Fd> {
    match e
    case Create(fd) => multiset{fd}
    case RetainHeld(fd) => multiset{fd}
    case GetRetain(i, n) =>
      if i < |s.tables| && s.tables[i].Get(n).Some? then multiset{s.tables[i].Get(n).value} else multiset{}
    case _ => multiset{}
  }

  predicate Ends(e: Event, rid: nat) {
    (e.DoPublish? || e.DoCancel?) && e.rid == rid
  }

  lemma FlaggedSound(s: System, i: nat, n: int, flag: bool)
    requires Sound(s) && i < |s.tables|
    ensures Moves(s, Flagged(s, i, n, flag))
  {
    MovesRefl(s);
    if s.tables[i].Get(n).Some? {
      var u := s.tables[i].(cloexec := s.tables[i].cloexec[n := flag]);
      var r := Flagged(s, i, n, flag);
      SameFilesConserved(s, i, s.tables[i], u, r);
      hide Conserved, ReservationsHold, UsersCounted;
      TableChange(s, i, u, r);
    }
  }

  lemma SlotStepSound(s: System, e: Event)
    requires Sound(s) && Enabled(s, e) && SlotStep(e)
    ensures Moves(s, Next(s, e)) && Next(s, e).held == s.held - Spent(e)
  {
    hide Conserved, ReservationsHold, UsersCounted, Evolved, SweptBelow, Emptied, Moves;
    hide Install, Dupfd, DupTo, CloseSlot, CloseBelow, Installed, Room;
    match e
    case DoInstall(i, fd, limit, cloexec, memory) => InstallSound(s, i, fd, 0, limit, cloexec, memory);
    case DoDupfd(i, n, minimum, limit, cloexec, memory) => DupfdSound(s, i, n, minimum, limit, cloexec, memory);
    case DoDupTo(i, n, target, limit, cloexec, memory) => DupToSound(s, i, n, target, limit, cloexec, memory);
    case DoClose(i, n) => CloseSlotSound(s, i, n);
    case DoCloseIfMatches(i, n, expected, generation) =>
      CloseSlotSound(s, i, n);
      MovesRefl(s);
    case SetCloexec(i, n, flag) => FlaggedSound(s, i, n, flag);
    case Exec(i) => CloseBelowSound(s, i, |s.tables[i].files|, false);
  }

  lemma CreatedIs(s: System, fd: Fd)
    requires fd !in s.refs
    ensures Created(s, fd) == Retain(s, fd)
  {
  }

  lemma ReferenceStepSound(s: System, e: Event)
    requires Sound(s) && Enabled(s, e) && ReferenceStep(e)
    ensures Moves(s, Next(s, e)) && Next(s, e).held == s.held - Spent(e) + Gained(s, e)
  {
    hide Conserved, ReservationsHold, UsersCounted, Evolved, TablesValid, Moves;
    match e
    case Create(fd) =>
      RetainSound(s, fd);
      CreatedIs(s, fd);
    case RetainHeld(fd) => RetainSound(s, fd);
    case GetRetain(i, n) =>
      MovesRefl(s);
      if s.tables[i].Get(n).Some? {
        RetainSound(s, s.tables[i].Get(n).value);
      }
    case Drop(fd) => ReleaseSound(s, fd);
  }

  /** Nothing but its owner's publish or cancel ends or changes a reservation. */
  ghost predicate KeepsReservations(s: System, e: Event, r: System) {
    forall rid :: rid in s.reservations && !Ends(e, rid) ==>
        rid in r.reservations && r.reservations[rid] == s.reservations[rid]
  }

  lemma MovesKeep(s: System, e: Event, r: System)
    requires Moves(s, r)
    ensures Sound(r) && Evolved(s, r) && KeepsReservations(s, e, r)
  {
  }

  lemma ShareSound(s: System, i: nat)
    requires Sound(s) && i < |s.tables|
    ensures Sound(Share(s, i)) && Evolved(s, Share(s, i))
  {
    UsersSound(s, Share(s, i));
  }

  lemma EndSound(s: System, e: Event)
    requires Sound(s) && Enabled(s, e) && (e.DoPublish? || e.DoCancel?)
    ensures var r := Next(s, e); Sound(r) && Evolved(s, r) && r.held == s.held - Spent(e) && KeepsReservations(s, e, r)
  {
    hide Conserved, ReservationsHold, TablesValid, UsersCounted, Evolved, Publish, Cancel;
    match e
    case DoPublish(rid, fds, cloexec) => PublishSound(s, rid, fds, cloexec);
    case DoCancel(rid) => CancelSound(s, rid);
  }

  lemma TableStepSound(s: System, e: Event)
    requires Sound(s) && Enabled(s, e) && !SlotStep(e) && !ReferenceStep(e) && !e.DoPublish? && !e.DoCancel?
    ensures var r := Next(s, e); Sound(r) && Evolved(s, r) && r.held == s.held - Spent(e) && KeepsReservations(s, e, r)
  {
    hide Conserved, ReservationsHold, TablesValid, UsersCounted, Evolved, Leave, Picked, Reserve;
    match e
    case DoReserve(i, rid, count, limit, memory) => ReserveSound(s, i, rid, count, limit, memory);
    case DoCopy(i) => CopySound(s, i);
    case DoShare(i) => ShareSound(s, i);
    case DoExit(i) => ExitSound(s, i);
  }

  /** Every step keeps the counts and the reservations, and spends exactly what it was given. */
  lemma NextSound(s: System, e: Event)
    requires Sound(s) && Enabled(s, e)
    ensures var r := Next(s, e);
      Sound(r) && Evolved(s, r) && KeepsReservations(s, e, r) && r.held == s.held - Spent(e) + Gained(s, e)
  {
    hide Sound, Evolved, Next, Enabled, KeepsReservations, Moves;
    if SlotStep(e) {
      SlotStepSound(s, e);
      MovesKeep(s, e, Next(s, e));
    } else if ReferenceStep(e) {
      ReferenceStepSound(s, e);
      MovesKeep(s, e, Next(s, e));
    } else if e.DoPublish? || e.DoCancel? {
      EndSound(s, e);
    } else {
      TableStepSound(s, e);
    }
  }

  // ---- runs ----

  /** One table of the given size, as fdtable_new makes it, and nothing else. */
  function Start(size: nat): System {
    System([Table(Filled(None, size), Filled(false, size), Filled(false, size), Filled(0, size))], [1], [1], map[],
        multiset{}, map[])
  }

  lemma StartSound(size: nat)
    ensures Sound(Start(size))
  {
    var s := Start(size);
    assert On(s.reservations, 0) == {};
    forall fd: Fd
      ensures InTables(s.tables, fd) == 0
    {
      assert Some(fd) !in s.tables[0].files;
      assert s.tables[1..] == [];
    }
  }

  ghost predicate Possible(s: System, es: seq<Event>)
    requires Sound(s)
    decreases |es|
  {
    es == [] || (Enabled(s, es[0]) && (NextSound(s, es[0]); Possible(Next(s, es[0]), es[1..])))
  }

  /** The state after a run of steps, in whatever order the threads' steps came. */
  ghost function After(s: System, es: seq<Event>): (r: System)
    requires Sound(s) && Possible(s, es)
    ensures Sound(r)
    decreases |es|
  {
    if es == [] then s
    else
      NextSound(s, es[0]);
      After(Next(s, es[0]), es[1..])
  }

  /** Over every run, references are conserved, installs only accumulate, and a reservation
      not ended by its owner is still there, its slots empty and marked. */
  lemma {:induction false} RunsSound(s: System, es: seq<Event>, rid: nat)
    requires Sound(s) && Possible(s, es)
    ensures Conserved(After(s, es)) && Evolved(s, After(s, es))
    ensures rid in s.reservations && (forall k :: 0 <= k < |es| ==> !Ends(es[k], rid)) ==>
      var r := After(s, es);
      rid in r.reservations && r.reservations[rid] == s.reservations[rid] && Holding(r, r.reservations[rid])
    decreases |es|
  {
    hide Next, Evolved, Enabled;
    if es == [] {
      EvolvedRefl(s);
    } else {
      NextSound(s, es[0]);
      var n := Next(s, es[0]);
      RunsSound(n, es[1..], rid);
      hide Sound;
      EvolvedTransitive(s, n, After(n, es[1..]));
    }
  }

  /** A reference is spent or gained only by the steps that say so. */
  ghost function Ledger(s: System, es: seq<Event>, held: multiset<Fd>): multiset<Fd>
    requires Sound(s) && Possible(s, es)
    decreases |es|
  {
    if es == [] then held
    else
      NextSound(s, es[0]);
      Ledger(Next(s, es[0]), es[1..], held - Spent(es[0]) + Gained(s, es[0]))
  }

  lemma {:induction false} RunsLedger(s: System, es: seq<Event>)
    requires Sound(s) && Possible(s, es)
    ensures After(s, es).held == Ledger(s, es, s.held)
    decreases |es|
  {
    if es != [] {
      hide Next, Evolved, Enabled;
      NextSound(s, es[0]);
      RunsLedger(Next(s, es[0]), es[1..]);
    }
  }

  lemma PossibleStep(s: System, e: Event, es: seq<Event>)
    requires Sound(s)
    ensures Possible(s, [e] + es) <==> Enabled(s, e) && Sound(Next(s, e)) && Possible(Next(s, e), es)
    ensures Possible(s, [e] + es) ==> After(s, [e] + es) == After(Next(s, e), es)
  {
    hide Next, Enabled, Evolved, Sound;
    assert ([e] + es)[0] == e && ([e] + es)[1..] == es;
    if Enabled(s, e) {
      NextSound(s, e);
    }
  }

  lemma PossibleNone(s: System)
    requires Sound(s)
    ensures Possible(s, []) && After(s, []) == s
  {
  }

  lemma {:induction false} PossibleConcat(s: System, a: seq<Event>, b: seq<Event>)
    requires Sound(s) && Possible(s, a) && Possible(After(s, a), b)
    ensures Possible(s, a + b) && After(s, a + b) == After(After(s, a), b)
    decreases |a|
  {
    hide *;
    if a == [] {
      PossibleNone(s);
      assert a + b == b;
    } else {
      var e, rest := a[0], a[1..];
      assert a == [e] + rest && a + b == [e] + (rest + b);
      PossibleStep(s, e, rest);
      PossibleStep(s, e, rest + b);
      PossibleConcat(Next(s, e), rest, b);
    }
  }

  lemma GenerationsApart(a: nat, b: nat)
    requires a <= b < a + GENERATIONS
    ensures a % GENERATIONS == b % GENERATIONS <==> a == b
  {
  }

  /** A generation-matched close closes the installation that returned the generation, and
      only that one: not another file at the same number, not the same file put there
      again. The slot must not see 2^64 installs in between. */
  lemma TokenNamesInstallation(s: System, es: seq<Event>, i: nat, n: nat, fd: Fd)
    requires Sound(s) && Possible(s, es) && i < |s.tables| && s.tables[i].Get(n) == Some(fd)
    ensures i < |After(s, es).tables| && n < |After(s, es).tables[i].files|
    ensures var t, u := s.tables[i], After(s, es).tables[i];
      u.installs[n] < t.installs[n] + 0x1_0000_0000_0000_0000 ==>
        (Matches(u, n, fd, t.Generation(n)) <==> u.installs[n] == t.installs[n] && u.files[n].Some?)
  {
    RunsSound(s, es, 0);
    hide Possible, After;
    var t, u := s.tables[i], After(s, es).tables[i];
    assert Evolves(t, u);
    if u.installs[n] < t.installs[n] + GENERATIONS {
      GenerationsApart(t.installs[n], u.installs[n]);
    }
  }
}
