/** Clients of the descriptor table: f_receive_task and f_install_pair_task_tracked in
    fs/fd.c, file_pipe2_task and its rollback in fs/pipe.c. Each is a few steps with
    any run of other threads' steps between them. */
module FdClients {
  import opened Options
  import opened FdTable
  import opened FdTableOps
  import opened FdRefs
  import opened FdSteps
  import opened FdReservations
  import opened FdRuns

  function Drops(fds: seq<Fd>): seq<Event> {
    if fds == [] then [] else [Drop(fds[0])] + Drops(fds[1..])
  }

  lemma {:induction false} DropsConsume(s: System, fds: seq<Fd>)
    requires Sound(s) && multiset(fds) <= s.held
    ensures Possible(s, Drops(fds))
    ensures var r := After(s, Drops(fds));
      r.held == s.held - multiset(fds) && r.tables == s.tables && SameUsers(s, r)
    decreases |fds|
  {
    hide Sound, Next, Enabled, Possible, After;
    if fds == [] {
      PossibleNone(s);
    } else {
      var fd, rest := fds[0], fds[1..];
      HeadHeld(fds, s.held);
      DropStep(s, fd);
      var r := Next(s, Drop(fd));
      DropsConsume(r, rest);
      PossibleStep(s, Drop(fd), Drops(rest));
    }
  }

  lemma HeadHeld(fds: seq<Fd>, held: multiset<Fd>)
    requires |fds| > 0 && multiset(fds) <= held
    ensures held[fds[0]] > 0 && multiset(fds) == multiset{fds[0]} + multiset(fds[1..])
    ensures multiset(fds[1..]) <= held - multiset{fds[0]}
  {
    assert fds == [fds[0]] + fds[1..];
    assert fds[0] in multiset(fds);
  }

  lemma DropStep(s: System, fd: Fd)
    requires Sound(s) && s.held[fd] > 0
    ensures Enabled(s, Drop(fd))
    ensures var r := Next(s, Drop(fd));
        Sound(r) && r.held == s.held - multiset{fd} && r.tables == s.tables && SameUsers(s, r)
  {
    NextSound(s, Drop(fd));
  }

  /** No number to be had: f_receive_task and f_install_pair_task_tracked close what they
      were given and leave every table as it was. */
  lemma RefusedConsumes(s: System, i: nat, rid: nat, fds: seq<Fd>, limit: Limit, memory: bool)
    requires Sound(s) && Used(s, i) && rid !in s.reservations && 1 <= |fds| <= 2 && multiset(fds) <= s.held
    requires Reserve(s, i, rid, |fds|, limit, memory).1.Err?
    ensures var es := [DoReserve(i, rid, |fds|, limit, memory)] + Drops(fds);
      && Possible(s, es)
      && var r := After(s, es); r.held == s.held - multiset(fds) && r.tables == s.tables && SameUsers(s, r)
  {
    hide Conserved, ReservationsHold, UsersCounted, Next, Enabled, Possible, After, Reserve;
    RefusedStep(s, i, rid, |fds|, limit, memory);
    DropsConsume(s, fds);
    PossibleStep(s, DoReserve(i, rid, |fds|, limit, memory), Drops(fds));
  }

  /** A refused reservation changes nothing. */
  lemma RefusedStep(s: System, i: nat, rid: nat, count: nat, limit: Limit, memory: bool)
    requires Sound(s) && Used(s, i) && rid !in s.reservations && 1 <= count <= 2
    requires Reserve(s, i, rid, count, limit, memory).1.Err?
    ensures var e := DoReserve(i, rid, count, limit, memory); Enabled(s, e) && Next(s, e) == s
  {
    hide Conserved, ReservationsHold, UsersCounted, Reserve;
    ReserveSound(s, i, rid, count, limit, memory);
  }

  /** A reservation outlasts whatever other threads do before its owner ends it. */
  lemma ReservedLater(s: System, i: nat, rid: nat, count: nat, limit: Limit, memory: bool, es: seq<Event>)
    requires Sound(s) && Used(s, i) && rid !in s.reservations && 1 <= count <= 2
    requires var (r, out) := Reserve(s, i, rid, count, limit, memory);
      out.Ok? && Sound(r) && Possible(r, es) && forall k :: 0 <= k < |es| ==> !Ends(es[k], rid)
    ensures var (r, out) := Reserve(s, i, rid, count, limit, memory);
      var m := After(r, es);
      rid in m.reservations && m.reservations[rid] == Reservation(i, out.value) && |out.value| == count
          && i < |m.tables|
  {
    var (r, out) := Reserve(s, i, rid, count, limit, memory);
    ReserveSound(s, i, rid, count, limit, memory);
    assert |out.value| == count;
    hide Reserve, Possible, After, Sound;
    RunsSound(r, es, rid);
  }

  /** Publishing succeeds, takes exactly the references passed in, and puts each file
      under its number. */
  lemma PublishConsumes(m: System, rid: nat, fds: seq<Fd>, cloexec: bool)
    requires Sound(m) && rid in m.reservations && |fds| == |m.reservations[rid].numbers| && multiset(fds) <= m.held
    ensures Enabled(m, DoPublish(rid, fds, cloexec))
    ensures var q, p := m.reservations[rid], Next(m, DoPublish(rid, fds, cloexec));
      && Sound(p) && p.held == m.held - multiset(fds)
      && (Used(m, q.table) ==> q.table < |p.tables| && forall j :: 0 <= j < |fds| ==>
          p.tables[q.table].Get(q.numbers[j]) == Some(fds[j]))
  {
    var q, e := m.reservations[rid], DoPublish(rid, fds, cloexec);
    hide Next, Publish, Conserved, ReservationsHold;
    PublishStep(m, rid, fds, cloexec);
    PublishSound(m, rid, fds, cloexec);
    if Used(m, q.table) {
      forall j | 0 <= j < |fds|
        ensures q.table < |Next(m, e).tables| && Next(m, e).tables[q.table].Get(q.numbers[j]) == Some(fds[j])
      {
        PublishInstalls(m, rid, fds, cloexec, j);
      }
    }
  }

  lemma CancelStep(m: System, rid: nat)
    requires Sound(m) && rid in m.reservations
    ensures Enabled(m, DoCancel(rid))
    ensures m.reservations[rid].table < |m.tables| && m.users[m.reservations[rid].table] > 0
        && Ready(m.tables[m.reservations[rid].table], m.reservations[rid].numbers)
    ensures Next(m, DoCancel(rid)) == Cancel(m, rid)
  {
    ReservedTableUsed(m, rid);
  }

  lemma PublishStep(m: System, rid: nat, fds: seq<Fd>, cloexec: bool)
    requires Sound(m) && rid in m.reservations && |fds| == |m.reservations[rid].numbers| && multiset(fds) <= m.held
    ensures Enabled(m, DoPublish(rid, fds, cloexec))
    ensures m.reservations[rid].table < |m.tables| && m.users[m.reservations[rid].table] > 0
        && Ready(m.tables[m.reservations[rid].table], m.reservations[rid].numbers)
    ensures Next(m, DoPublish(rid, fds, cloexec)) == Publish(m, rid, fds, cloexec)
  {
    ReservedTableUsed(m, rid);
  }

  /** Cancelling empties nothing and fills nothing. */
  lemma CancelConsumes(m: System, rid: nat, fd: Fd)
    requires Sound(m) && rid in m.reservations && m.held[fd] > 0 && |m.reservations[rid].numbers| == 1
    ensures Possible(m, [DoCancel(rid), Drop(fd)])
    ensures var q, p := m.reservations[rid], After(m, [DoCancel(rid), Drop(fd)]);
      && p.held == m.held - multiset{fd} && p.reservations == m.reservations - {rid}
      && q.table < |p.tables| && p.tables[q.table].Get(q.numbers[0]) == None
  {
    hide Cancel, Conserved, ReservationsHold, Possible, After, Next, Enabled;
    CancelSound(m, rid);
    CancelledSlot(m, rid, 0);
    CancelStep(m, rid);
    var c := Cancel(m, rid);
    DropStep(c, fd);
    PossibleNone(Next(c, Drop(fd)));
    PossibleStep(c, Drop(fd), []);
    PossibleStep(m, DoCancel(rid), [Drop(fd)]);
    assert [Drop(fd)] + [] == [Drop(fd)] && [DoCancel(rid)] + [Drop(fd)] == [DoCancel(rid), Drop(fd)];
  }

  /** f_install_pair_task_tracked (two files) and f_receive_task (one): the numbers reserved
      at first are the ones published, whatever other threads do in between. */
  lemma ReservedPublishes(s: System, i: nat, rid: nat, fds: seq<Fd>, limit: Limit, memory: bool, es: seq<Event>,
      cloexec: bool)
    requires Sound(s) && Used(s, i) && rid !in s.reservations && 1 <= |fds| <= 2
    requires var (r, out) := Reserve(s, i, rid, |fds|, limit, memory);
      out.Ok? && Sound(r) && Possible(r, es) && multiset(fds) <= After(r, es).held && forall k :: 0 <= k < |es| ==>
          !Ends(es[k], rid)
    ensures var (r, out) := Reserve(s, i, rid, |fds|, limit, memory);
      var m, e := After(r, es), DoPublish(rid, fds, cloexec);
      && Enabled(m, e)
      && var p := Next(m, e);
      && Sound(p) && p.held == m.held - multiset(fds)
      && (Used(m, i) ==> i < |p.tables| && |out.value| == |fds| && forall j :: 0 <= j < |fds| ==>
          p.tables[i].Get(out.value[j]) == Some(fds[j]))
  {
    hide Possible, After, Reserve, Conserved, ReservationsHold, Next, Publish, Cancel;
    ReservedLater(s, i, rid, |fds|, limit, memory, es);
    PublishConsumes(After(Reserve(s, i, rid, |fds|, limit, memory).0, es), rid, fds, cloexec);
  }

  /** The number could not be written out: f_receive_task gives the number back and
      closes the file. */
  lemma UnwrittenCancels(s: System, i: nat, rid: nat, fd: Fd, limit: Limit, memory: bool, es: seq<Event>)
    requires Sound(s) && Used(s, i) && rid !in s.reservations
    requires var (r, out) := Reserve(s, i, rid, 1, limit, memory);
      out.Ok? && Sound(r) && Possible(r, es) && After(r, es).held[fd] > 0 && forall k :: 0 <= k < |es| ==>
          !Ends(es[k], rid)
    ensures var (r, out) := Reserve(s, i, rid, 1, limit, memory);
      var m := After(r, es);
      && Possible(m, [DoCancel(rid), Drop(fd)])
      && var p := After(m, [DoCancel(rid), Drop(fd)]);
      && p.held == m.held - multiset{fd} && p.reservations == m.reservations - {rid}
      && i < |p.tables| && |out.value| == 1 && p.tables[i].Get(out.value[0]) == None
  {
    hide Possible, After, Reserve, Conserved, ReservationsHold, Next, Publish, Cancel;
    ReservedLater(s, i, rid, 1, limit, memory, es);
    CancelConsumes(After(Reserve(s, i, rid, 1, limit, memory).0, es), rid, fd);
  }

  lemma CancelledSlot(s: System, rid: nat, j: nat)
    requires Sound(s) && rid in s.reservations && j < |s.reservations[rid].numbers|
    ensures var q := s.reservations[rid];
      q.table < |s.tables| && s.users[q.table] > 0 && Ready(s.tables[q.table], q.numbers)
          && |Cancel(s, rid).tables| == |s.tables| && Cancel(s, rid).tables[q.table].Get(q.numbers[j]) == None
  {
    CancelSound(s, rid);
    var q := s.reservations[rid];
    var r := Retired(s, rid, UnmarkedAll(s.tables[q.table], q.numbers));
    LeaveNone(r, q.table, q.numbers[j]);
  }

  lemma LeaveNone(s: System, i: nat, n: nat)
    requires i < |s.tables| == |s.users| && s.tables[i].Valid() && s.tables[i].Get(n) == None
    ensures Leave(s, i).tables[i].Get(n) == None
  {
    if s.users[i] == 0 {
      CloseBelowNone(s, i, |s.tables[i].files|, n);
    }
  }

  lemma StillNone(s: System, i: nat, k: nat, n: nat)
    requires i < |s.tables| && s.tables[i].Valid() && s.tables[i].Get(n) == None
    ensures CloseSlot(s, i, k).tables[i].Get(n) == None
  {
    hide Release, Take;
  }

  lemma {:induction false} CloseBelowNone(s: System, i: nat, k: nat, n: nat)
    requires i < |s.tables| && s.tables[i].Valid() && k <= |s.tables[i].files| && s.tables[i].Get(n) == None
    ensures CloseBelow(s, i, k, true).tables[i].Get(n) == None
  {
    if k > 0 {
      hide Release, Take, CloseSlot, Table.Valid, Table.Get;
      var swept := CloseBelow(s, i, k - 1, true);
      assert CloseBelow(s, i, k, true) == CloseSlot(swept, i, k - 1);
      hide CloseBelow;
      CloseBelowNone(s, i, k - 1, n);
      StillNone(swept, i, k - 1, n);
    }
  }

  // ---- pipes ----

  /** The ends of a new pipe: one reference to return and one to install, each. */
  function PipeEnds(r: Fd, w: Fd): seq<Event> {
    [Create(r), Create(w), RetainHeld(r), RetainHeld(w)]
  }

  /** What f_install_pair_task_tracked does when it gets no numbers: the refused reservation,
      and the two closes. */
  function PairRefusal(i: nat, rid: nat, r: Fd, w: Fd, limit: Limit, memory: bool): seq<Event> {
    [DoReserve(i, rid, 2, limit, memory)] + Drops([r, w])
  }

  /** When the pair cannot be installed, file_pipe2_task leaves no trace at all: the pair
      install closed its two references, and the caller its own. */
  lemma PipeFails(s: System, i: nat, rid: nat, r: Fd, w: Fd, limit: Limit, memory: bool)
    requires Sound(s) && Used(s, i) && rid !in s.reservations && r != w && r !in s.refs && w !in s.refs
    requires Reserve(s, i, rid, 2, limit, memory).1.Err?
    ensures var es := PipeEnds(r, w) + PairRefusal(i, rid, r, w, limit, memory) + Drops([r, w]);
      Possible(s, es) && After(s, es) == s
  {
    hide Sound, Next, Enabled, Possible, After, Created, Retain, Release, Reserve, Drops;
    var d := Retain(Retain(Created(Created(s, r), w), r), w);
    var f := Release(Release(d, r), w);
    ReferencesUndone(s, r, w);
    PipeEndsStep(s, r, w);
    SameRefusal(s, r, w, i, rid, limit, memory);
    PairRefused(d, i, rid, r, w, limit, memory);
    DropPair(f, r, w);
    PossibleConcat(s, PipeEnds(r, w), PairRefusal(i, rid, r, w, limit, memory));
    PossibleConcat(s, PipeEnds(r, w) + PairRefusal(i, rid, r, w, limit, memory), Drops([r, w]));
  }

  /** New files do not change what can be reserved. */
  lemma SameRefusal(s: System, r: Fd, w: Fd, i: nat, rid: nat, limit: Limit, memory: bool)
    requires Sound(s) && Used(s, i) && rid !in s.reservations && Reserve(s, i, rid, 2, limit, memory).1.Err?
    ensures var d := Retain(Retain(Created(Created(s, r), w), r), w);
      Used(d, i) && rid !in d.reservations && i < |d.tables| == |d.users| && d.tables[i].Valid()
          && Reserve(d, i, rid, 2, limit, memory).1.Err?
  {
  }

  lemma PairDropped(s: System, r: Fd, w: Fd)
    requires Sound(s) && multiset{r, w} <= s.held
    ensures Possible(s, Drops([r, w])) && After(s, Drops([r, w])) == Release(Release(s, r), w)
    ensures Release(Release(s, r), w).held == s.held - multiset{r, w} && Release(Release(s, r), w).tables == s.tables
  {
    hide Sound, Possible, After, Drops;
    DropPair(s, r, w);
  }

  lemma PairRefused(s: System, i: nat, rid: nat, r: Fd, w: Fd, limit: Limit, memory: bool)
    requires Sound(s) && Used(s, i) && rid !in s.reservations && multiset{r, w} <= s.held
    requires Reserve(s, i, rid, 2, limit, memory).1.Err?
    ensures Possible(s, PairRefusal(i, rid, r, w, limit, memory))
    ensures var f := Release(Release(s, r), w);
      After(s, PairRefusal(i, rid, r, w, limit, memory)) == f && f.held == s.held - multiset{r, w}
          && f.tables == s.tables
  {
    hide Conserved, ReservationsHold, UsersCounted, Next, Enabled, Possible, After, Reserve, Drops;
    RefusedStep(s, i, rid, 2, limit, memory);
    PairDropped(s, r, w);
    PossibleStep(s, DoReserve(i, rid, 2, limit, memory), Drops([r, w]));
  }

  /** The same among other threads' steps: they may run after the ends are made and between
      the pair's closes and the caller's. The failed pair consumes its references, the caller
      drops its own, and neither touches a table. */
  lemma PipeFailsAmong(s: System, i: nat, rid: nat, r: Fd, w: Fd, limit: Limit, memory: bool, before: seq<Event>,
      between: seq<Event>)
    requires Sound(s) && r != w && r !in s.refs && w !in s.refs
    requires Possible(s, PipeEnds(r, w)) && Possible(After(s, PipeEnds(r, w)), before)
    requires var m := After(After(s, PipeEnds(r, w)), before);
      && Used(m, i) && rid !in m.reservations && multiset{r, w} <= m.held && Reserve(m, i, rid, 2, limit, memory).1.Err?
      && Possible(m, PairRefusal(i, rid, r, w, limit, memory))
      && var k := After(m, PairRefusal(i, rid, r, w, limit, memory));
      Possible(k, between) && multiset{r, w} <= After(k, between).held
    ensures var m := After(After(s, PipeEnds(r, w)), before);
      var k := After(m, PairRefusal(i, rid, r, w, limit, memory));
      var n := After(k, between);
      && k.held == m.held - multiset{r, w} && k.tables == m.tables
      && Possible(n, Drops([r, w]))
      && var z := After(n, Drops([r, w]));
      && Sound(z) && z.held == n.held - multiset{r, w} && z.tables == n.tables
      && RefCount(z, r) == InTables(z.tables, r) + z.held[r] && RefCount(z, w) == InTables(z.tables, w) + z.held[w]
  {
    hide Next, Enabled, Possible, After, Reserve, Drops, TablesValid, ReservationsHold, UsersCounted;
    var m := After(After(s, PipeEnds(r, w)), before);
    PairRefused(m, i, rid, r, w, limit, memory);
    var n := After(After(m, PairRefusal(i, rid, r, w, limit, memory)), between);
    DropPair(n, r, w);
  }

  lemma ReferencesUndone(s: System, r: Fd, w: Fd)
    requires r != w && r !in s.refs && w !in s.refs
    ensures var d := Retain(Retain(Created(Created(s, r), w), r), w);
        Release(Release(Release(Release(d, r), w), r), w) == s
  {
    var d := Retain(Retain(Created(Created(s, r), w), r), w);
    var h := Release(Release(Release(Release(d, r), w), r), w);
    assert h.refs == s.refs && h.held == s.held;
  }

  lemma PairOfDrops(r: Fd, w: Fd)
    ensures Drops([r, w]) == [Drop(r)] + [Drop(w)]
  {
    assert [r, w][1..] == [w] && [w][1..] == [];
    assert Drops([w]) == [Drop(w)] + Drops([]);
  }

  lemma PipeEndsStep(s: System, r: Fd, w: Fd)
    requires Sound(s) && r != w && r !in s.refs && w !in s.refs
    ensures var d := Retain(Retain(Created(Created(s, r), w), r), w);
      Possible(s, PipeEnds(r, w)) && After(s, PipeEnds(r, w)) == d && d.held == s.held + multiset{r, r, w, w}
  {
    hide Sound, Next, Enabled, Possible, After;
    var a := Created(s, r);
    Creates(s, r);
    var b := Created(a, w);
    Creates(a, w);
    var c := Retain(b, r);
    Retains(b, r);
    var d := Retain(c, w);
    Retains(c, w);
    hide Created, Retain;
    PossibleNone(d);
    PossibleStep(c, RetainHeld(w), []);
    PossibleStep(b, RetainHeld(r), [RetainHeld(w)]);
    PossibleStep(a, Create(w), [RetainHeld(r), RetainHeld(w)]);
    PossibleStep(s, Create(r), [Create(w), RetainHeld(r), RetainHeld(w)]);
    assert [RetainHeld(w)] + [] == [RetainHeld(w)];
    assert [RetainHeld(r)] + [RetainHeld(w)] == [RetainHeld(r), RetainHeld(w)];
    assert [Create(w)] + [RetainHeld(r), RetainHeld(w)] == [Create(w), RetainHeld(r), RetainHeld(w)];
    assert [Create(r)] + [Create(w), RetainHeld(r), RetainHeld(w)] == PipeEnds(r, w);
  }

  lemma DropPair(s: System, r: Fd, w: Fd)
    requires Sound(s) && multiset{r, w} <= s.held
    ensures Possible(s, Drops([r, w])) && After(s, Drops([r, w])) == Release(Release(s, r), w)
    ensures Release(Release(s, r), w).held == s.held - multiset{r, w}
  {
    hide Sound, Next, Enabled, Possible, After, Drops;
    PairOfDrops(r, w);
    assert r in multiset{r, w} && s.held[r] >= multiset{r, w}[r];
    assert s.held[w] >= multiset{r, w}[w];
    var a := Release(s, r);
    Releases(s, r);
    Releases(a, w);
    PossibleNone(Release(a, w));
    PossibleStep(a, Drop(w), []);
    PossibleStep(s, Drop(r), [Drop(w)]);
    assert [Drop(w)] + [] == [Drop(w)];
  }

  lemma Creates(s: System, fd: Fd)
    requires Sound(s) && fd !in s.refs
    ensures Enabled(s, Create(fd)) && Next(s, Create(fd)) == Created(s, fd) && Sound(Created(s, fd))
  {
    NextSound(s, Create(fd));
  }

  lemma Retains(s: System, fd: Fd)
    requires Sound(s) && s.held[fd] > 0
    ensures Enabled(s, RetainHeld(fd)) && Next(s, RetainHeld(fd)) == Retain(s, fd) && Sound(Retain(s, fd))
  {
    NextSound(s, RetainHeld(fd));
  }

  lemma Releases(s: System, fd: Fd)
    requires Sound(s) && s.held[fd] > 0
    ensures Enabled(s, Drop(fd)) && Next(s, Drop(fd)) == Release(s, fd) && Sound(Release(s, fd))
  {
    NextSound(s, Drop(fd));
  }

  /** The steps of file_pipe_result_rollback. */
  function Rollback(i: nat, r: Fd, w: Fd, numbers: (nat, nat), generations: (nat, nat)): seq<Event> {
    [DoCloseIfMatches(i, numbers.1, w, generations.1)] + [DoCloseIfMatches(i, numbers.0, r, generations.0)]
        + Drops([w, r])
  }

  lemma MatchedSlot(s: System, i: nat, n: nat, fd: Fd, generation: nat)
    requires i < |s.tables| && s.tables[i].Valid()
    ensures var r := CloseIfMatches(s, i, n, fd, generation);
      && |r.tables| == |s.tables| && r.tables[i].installs == s.tables[i].installs
           && |r.tables[i].files| == |s.tables[i].files|
      && r.tables[i].Get(n) == (if Matches(s.tables[i], n, fd, generation) then None else s.tables[i].Get(n))
      && (forall m: int :: m != n ==> r.tables[i].Get(m) == s.tables[i].Get(m))
  {
    hide Release, Take;
    if Matches(s.tables[i], n, fd, generation) {
      hide Matches;
      EmptiedSlot(s.tables[i], n);
      hide Emptied;
    }
  }

  lemma EmptiedSlot(t: Table, n: nat)
    requires t.Valid() && n < |t.files|
    ensures var u := Emptied(t, n);
      u.installs == t.installs && u.Get(n) == None && forall m: int :: m != n ==> u.Get(m) == t.Get(m)
  {
  }

  /** A token that matched no longer does, and nothing but its slot changed. */
  lemma ClosesMatched(s: System, i: nat, n: nat, fd: Fd, generation: nat)
    requires Sound(s) && Used(s, i)
    ensures var e := DoCloseIfMatches(i, n, fd, generation);
      && Enabled(s, e)
      && var r := Next(s, e);
      && Sound(r) && r.held == s.held && SameUsers(s, r) && Used(r, i)
      && r.tables[i].Get(n) == (if Matches(s.tables[i], n, fd, generation) then None else s.tables[i].Get(n))
      && r.tables[i].installs == s.tables[i].installs && |r.tables[i].files| == |s.tables[i].files|
      && (forall m: int :: m != n ==> r.tables[i].Get(m) == s.tables[i].Get(m))
  {
    hide Conserved, ReservationsHold, UsersCounted, Evolved, CloseIfMatches, Matches;
    SlotStepSound(s, DoCloseIfMatches(i, n, fd, generation));
    MatchedSlot(s, i, n, fd, generation);
  }

  /** Rolling back gives up both references, closes each slot that still holds the pipe's own
      installation, and leaves a slot that someone else has reused alone. */
  lemma RollbackConsumes(s: System, i: nat, r: Fd, w: Fd, numbers: (nat, nat), generations: (nat, nat))
    requires Sound(s) && Used(s, i) && numbers.0 != numbers.1 && multiset{r, w} <= s.held
    ensures Possible(s, Rollback(i, r, w, numbers, generations))
    ensures var p := After(s, Rollback(i, r, w, numbers, generations));
      && p.held == s.held - multiset{r, w} && |p.tables| == |s.tables|
      && p.tables[i].Get(numbers.0)
           == (if Matches(s.tables[i], numbers.0, r, generations.0) then None else s.tables[i].Get(numbers.0))
      && p.tables[i].Get(numbers.1)
           == (if Matches(s.tables[i], numbers.1, w, generations.1) then None else s.tables[i].Get(numbers.1))
      && (forall m: int :: m != numbers.0 && m != numbers.1 ==> p.tables[i].Get(m) == s.tables[i].Get(m))
  {
    hide Conserved, ReservationsHold, UsersCounted, Next, Enabled, Possible, After, Drops;
    var e1, e0 := DoCloseIfMatches(i, numbers.1, w, generations.1), DoCloseIfMatches(i, numbers.0, r, generations.0);
    ClosesMatched(s, i, numbers.1, w, generations.1);
    var a := Next(s, e1);
    ClosesMatched(a, i, numbers.0, r, generations.0);
    var b := Next(a, e0);
    assert multiset([w, r]) == multiset{r, w};
    DropsConsume(b, [w, r]);
    PossibleStep(a, e0, Drops([w, r]));
    PossibleStep(s, e1, [e0] + Drops([w, r]));
    assert [e1] + ([e0] + Drops([w, r])) == Rollback(i, r, w, numbers, generations);
  }

  /** Slot n after a rollback in state m of an installation made in state p: gone if it was
      still there, and whatever was installed there since is kept. */
  predicate OwnClosed(p: Table, m: Table, q: Table, n: nat)
    requires n < |p.installs| && n < |m.installs|
  {
    q.Get(n) == if m.installs[n] == p.installs[n] then None else m.Get(n)
  }

  /** From the installation of a pipe's ends, through any run of other steps, to the
      rollback: it closes the pipe's own two installations and no others. */
  lemma RollbackClosesItsOwn(p: System, es: seq<Event>, i: nat, r: Fd, w: Fd, numbers: (nat, nat))
    requires Sound(p) && Possible(p, es) && i < |p.tables| && numbers.0 != numbers.1
    requires p.tables[i].Get(numbers.0) == Some(r) && p.tables[i].Get(numbers.1) == Some(w)
    requires var m := After(p, es);
      && Used(m, i) && multiset{r, w} <= m.held && numbers.0 < |m.tables[i].installs|
           && numbers.1 < |m.tables[i].installs|
      && m.tables[i].installs[numbers.0] < p.tables[i].installs[numbers.0] + GENERATIONS
      && m.tables[i].installs[numbers.1] < p.tables[i].installs[numbers.1] + GENERATIONS
    ensures var t, m := p.tables[i], After(p, es);
      var rollback := Rollback(i, r, w, numbers, (t.Generation(numbers.0), t.Generation(numbers.1)));
      && Possible(m, rollback)
      && var q := After(m, rollback);
      && q.held == m.held - multiset{r, w} && i < |q.tables|
      && OwnClosed(t, m.tables[i], q.tables[i], numbers.0) && OwnClosed(t, m.tables[i], q.tables[i], numbers.1)
      && (forall k: int :: k != numbers.0 && k != numbers.1 ==> q.tables[i].Get(k) == m.tables[i].Get(k))
  {
    hide Possible, After, Rollback, Conserved, ReservationsHold;
    var t, m := p.tables[i], After(p, es);
    TokenNamesInstallation(p, es, i, numbers.0, r);
    TokenNamesInstallation(p, es, i, numbers.1, w);
    RollbackConsumes(m, i, r, w, numbers, (t.Generation(numbers.0), t.Generation(numbers.1)));
  }
}
