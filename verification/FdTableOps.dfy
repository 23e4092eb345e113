/** The operations of fs/fd.c on one table, in place, under its lock. */
module FdTableOps {
  import opened Options
  import opened FdTable

  /** The slots below n closed, all of them or those marked close-on-exec. */
  function SweptBelow(t: Table, n: nat, all: bool): (r: Table)
    requires t.Valid() && n <= |t.files|
    ensures r.Valid() && |r.files| == |t.files|
  {
    t.(files := seq(|t.files|, m requires 0 <= m < |t.files| =>
         if m < n && (all || t.cloexec[m]) then None else t.files[m]),
       cloexec := seq(|t.files|, m requires 0 <= m < |t.files| => m >= n && t.cloexec[m]))
  }

  /** fdtable_do_cloexec: what stays. */
  function Swept(t: Table): (r: Table)
    requires t.Valid()
    ensures r.Valid()
  {
    SweptBelow(t, |t.files|, false)
  }

  /** The files in marked slots below n. */
  function Marks(t: Table, n: nat): seq<Fd>
    requires t.Valid() && n <= |t.files|
  {
    if n == 0 then []
    else Marks(t, n - 1) + (if t.cloexec[n - 1] then [t.files[n - 1].value] else [])
  }

  class Fds {
    var files: seq<Option<Fd>>
    var cloexec: seq<bool>
    var reserved: seq<bool>
    var generations: seq<nat>
    ghost var installs: seq<nat>     // what the 64-bit generations count

    ghost function View(): Table
      reads this
    {
      Table(files, cloexec, reserved, installs)
    }

    ghost predicate Valid()
      reads this
    {
      && View().Valid() && |generations| == |installs|
      && forall n :: 0 <= n < |installs| ==> generations[n] == installs[n] % GENERATIONS
    }

    constructor (size: nat)
      ensures Valid() && View() == Table(Filled(None, size), Filled(false, size), Filled(false, size), Filled(0, size))
    {
      files, cloexec, reserved := Filled(None, size), Filled(false, size), Filled(false, size);
      generations, installs := Filled(0, size), Filled(0, size);
    }

    /** fdtable_resize; memory says whether its allocations succeed. */
    method Resize(size: nat, memory: bool) returns (done: bool)
      requires Valid() && size > |files|
      modifies this
      ensures Valid() && done == memory
      ensures View() == if memory then Resized(old(View()), size) else old(View())
    {
      if !memory {
        return false;
      }
      var more := size - |files|;
      files, cloexec, reserved := files + Filled(None, more), cloexec + Filled(false, more),
          reserved + Filled(false, more);
      generations, installs := generations + Filled(0, more), installs + Filled(0, more);
      done := true;
    }

    /** f_install_find: the lowest free number from start on, if the limit allows it. */
    method InstallFind(start: nat, limit: Limit, memory: bool) returns (f: Outcome<nat>)
      requires Valid()
      modifies this
      ensures Valid()
      ensures var n := LowestFree(old(View()), start);
        if n >= limit then f == Err(EMFILE) && View() == old(View())
        else if n >= |old(files)| && !memory then f == Err(ENOMEM) && View() == old(View())
        else f == Ok(n) && View() == Room(old(View()), n)
    {
      hide Resized;
      var size: nat := if limit > |files| then |files| else limit;
      var n := start;
      while n < size && !(files[n] == None && !reserved[n])
        invariant start <= n && (n <= size || n == start)
        invariant forall m: int :: start <= m < n ==> !View().Free(m)
        decreases size - n
      {
        n := n + 1;
      }
      if n < size {
        LowestFreeIs(View(), start, n);
        return Ok(n);
      }
      if n < limit {
        LowestFreeIs(View(), start, n);
      }
      f := Expand(n, limit, memory);
    }

    /** fdtable_expand */
    method Expand(n: nat, limit: Limit, memory: bool) returns (f: Outcome<nat>)
      requires Valid()
      modifies this
      ensures Valid()
      ensures if n >= limit then f == Err(EMFILE) && View() == old(View())
        else if n >= |old(files)| && !memory then f == Err(ENOMEM) && View() == old(View())
        else f == Ok(n) && View() == Room(old(View()), n)
    {
      if n + 1 > limit {
        return Err(EMFILE);
      }
      if |files| >= n + 1 {
        return Ok(n);
      }
      var done := Resize(n + 1, memory);
      f := if done then Ok(n) else Err(ENOMEM);
    }

    /** f_install_publish and f_install_finish */
    method Publish(n: nat, fd: Fd, setCloexec: bool) returns (generation: nat)
      requires Valid() && n < |files| && files[n] == None && !reserved[n]
      modifies this
      ensures Valid() && View() == Installed(old(View()), n, fd, setCloexec)
      ensures generation == View().Generation(n)
    {
      files := files[n := Some(fd)];
      cloexec := cloexec[n := false];
      generations, installs := generations[n := (generations[n] + 1) % GENERATIONS], installs[n := installs[n] + 1];
      GenerationStep(installs[n] - 1);
      generation := generations[n];
      if setCloexec {
        cloexec := cloexec[n := true];
      }
    }

    /** The search of f_reserve_task. */
    method FindNumbers(count: nat, limit: Limit) returns (numbers: Option<seq<nat>>)
      requires Valid()
      ensures numbers == Picked(View(), count, 0, limit)
    {
      hide Picked;
      var found: seq<nat>, number := [], 0;
      PrefixedLaws([], 0, Picked(View(), count, 0, limit));
      while number < limit && |found| < count
        invariant 0 <= number <= limit && |found| <= count
        invariant Picked(View(), count, 0, limit) == Prefixed(found, Picked(View(), count - |found|, number, limit))
      {
        PickedStep(View(), count - |found|, number, limit);
        PrefixedLaws(found, number, Picked(View(), count - |found| - 1, number + 1, limit));
        if number >= |files| || (files[number] == None && !reserved[number]) {
          found := found + [number];
        }
        number := number + 1;
      }
      PickedEnd(View(), count - |found|, number, limit);
      assert found + [] == found;
      numbers := if |found| == count then Some(found) else None;
    }

    /** f_reserve_task, past its argument check: all the numbers or none. */
    method Reserve(count: nat, limit: Limit, memory: bool) returns (numbers: Outcome<seq<nat>>)
      requires Valid() && 1 <= count <= 2
      modifies this
      ensures Valid()
      ensures match Picked(old(View()), count, 0, limit)
        case None => numbers == Err(EMFILE) && View() == old(View())
        case Some(ns) =>
          if ns[count - 1] >= |old(files)| && !memory then numbers == Err(ENOMEM) && View() == old(View())
          else numbers == Ok(ns) && View() == MarkedAll(Room(old(View()), ns[count - 1]), ns)
    {
      hide Picked, Resized, MarkedAll;
      var found := FindNumbers(count, limit);
      if found == None {
        return Err(EMFILE);
      }
      var ns := found.value;
      var last := Expand(ns[count - 1], limit, memory);
      if last.Err? {
        return Err(ENOMEM);
      }
      PickedFree(old(View()), ns, View());
      Mark(ns);
      numbers := Ok(ns);
    }

    method Mark(numbers: seq<nat>)
      requires Valid() && forall i :: 0 <= i < |numbers| ==> numbers[i] < |files| && files[numbers[i]] == None
      modifies this`reserved
      ensures Valid() && View() == MarkedAll(old(View()), numbers)
    {
      var i := 0;
      assert numbers[0..] == numbers;
      while i < |numbers|
        invariant 0 <= i <= |numbers| && Valid() && |reserved| == |old(reserved)|
        invariant MarkedAll(View(), numbers[i..]) == MarkedAll(old(View()), numbers)
      {
        assert numbers[i..][0] == numbers[i] && numbers[i..][1..] == numbers[i + 1..];
        reserved := reserved[numbers[i] := true];
        i := i + 1;
      }
    }

    /** f_reservation_clear_locked; its assertion is the precondition. */
    method Clear(numbers: seq<nat>)
      requires Valid() && Ready(View(), numbers)
      modifies this`reserved
      ensures Valid() && View() == UnmarkedAll(old(View()), numbers)
    {
      hide Ready;
      var i := 0;
      assert numbers[0..] == numbers;
      while i < |numbers|
        invariant 0 <= i <= |numbers| && Valid() && Ready(View(), numbers[i..])
        invariant UnmarkedAll(View(), numbers[i..]) == UnmarkedAll(old(View()), numbers)
      {
        ReadyStep(View(), numbers[i..]);
        assert numbers[i..][0] == numbers[i] && numbers[i..][1..] == numbers[i + 1..];
        reserved := reserved[numbers[i] := false];
        i := i + 1;
      }
    }

    /** The locked part of f_reservation_publish; its assertions are the precondition. */
    method PublishReserved(numbers: seq<nat>, fds: seq<Fd>, setCloexec: bool) returns (tokens: seq<nat>)
      requires Valid() && Ready(View(), numbers) && |fds| == |numbers|
      modifies this
      ensures Valid() && View() == PublishedAll(old(View()), numbers, fds, setCloexec)
      ensures |tokens| == |numbers| && forall i :: 0 <= i < |numbers| ==>
          numbers[i] < |files| && tokens[i] == View().Generation(numbers[i])
    {
      hide Ready, PublishedAll;
      var i := 0;
      tokens := [];
      assert numbers[0..] == numbers && fds[0..] == fds;
      ghost var all := PublishedAll(old(View()), numbers, fds, setCloexec);
      while i < |numbers|
        invariant 0 <= i <= |numbers| && Valid() && Ready(View(), numbers[i..])
        invariant PublishedAll(View(), numbers[i..], fds[i..], setCloexec) == all
        invariant |tokens| == i && forall j :: 0 <= j < i ==>
          numbers[j] < |files| && tokens[j] == View().Generation(numbers[j]) && numbers[j] !in numbers[i..]
      {
        assert numbers[i..][0] == numbers[i] && numbers[i..][1..] == numbers[i + 1..] && fds[i..][0] == fds[i]
            && fds[i..][1..] == fds[i + 1..];
        ReadyStep(View(), numbers[i..]);
        PublishedStep(View(), numbers[i..], fds[i..], setCloexec);
        ghost var before := View();
        reserved := reserved[numbers[i] := false];
        assert View() == Unmarked(before, numbers[i]);
        var token := Publish(numbers[i], fds[i], setCloexec);
        tokens := tokens + [token];
        i := i + 1;
      }
      PublishedNone(View(), setCloexec);
      assert numbers[i..] == [] && fds[i..] == [];
    }

    /** fdtable_do_cloexec; returns the files it closed. */
    method CloseOnExec() returns (closed: seq<Fd>)
      requires Valid()
      modifies this
      ensures Valid() && View() == Swept(old(View())) && closed == Marks(old(View()), |old(files)|)
    {
      var n := 0;
      closed := [];
      while n < |files|
        invariant 0 <= n <= |files| && Valid() && |files| == |old(files)|
        invariant reserved == old(reserved) && installs == old(installs) && generations == old(generations)
        invariant forall m :: 0 <= m < |files| ==>
          if m < n then !cloexec[m] && files[m] == (if old(cloexec[m]) then None else old(files[m]))
          else cloexec[m] == old(cloexec[m]) && files[m] == old(files[m])
        invariant closed == Marks(old(View()), n)
      {
        if cloexec[n] {
          closed := closed + [files[n].value];
          CloseSlot(n);
        }
        n := n + 1;
      }
    }

    /** fdtable_close on an occupied slot. */
    method CloseSlot(n: nat)
      requires Valid() && n < |files|
      modifies this`files, this`cloexec
      ensures Valid() && files == old(files)[n := None] && cloexec == old(cloexec)[n := false]
    {
      files := files[n := None];
      cloexec := cloexec[n := false];
    }
  }

  /** Numbers free before the table grew are empty slots of the grown one. */
  lemma PickedFree(t: Table, ns: seq<nat>, r: Table)
    requires t.Valid() && r.Valid() && |ns| > 0
    requires forall i :: 0 <= i < |ns| ==> t.Free(ns[i])
    requires forall i, j :: 0 <= i < j < |ns| ==> ns[i] < ns[j]
    requires ns[|ns| - 1] < |r.files| && forall n: int :: r.Get(n) == t.Get(n)
    ensures forall i :: 0 <= i < |ns| ==> ns[i] < |r.files| && r.files[ns[i]] == None
  {
    forall i | 0 <= i < |ns|
      ensures ns[i] < |r.files| && r.files[ns[i]] == None
    {
      assert i < |ns| - 1 ==> ns[i] < ns[|ns| - 1];
      assert r.Get(ns[i]) == t.Get(ns[i]);
    }
  }

  lemma GenerationStep(k: nat)
    ensures (k % GENERATIONS + 1) % GENERATIONS == (k + 1) % GENERATIONS
  {
  }

  /** The bits f_reserve_task sets, one number after another. */
  function MarkedAll(t: Table, numbers: seq<nat>): (r: Table)
    requires t.Valid() && forall i :: 0 <= i < |numbers| ==> numbers[i] < |t.files| && t.files[numbers[i]] == None
    ensures r.Valid() && r.files == t.files && r.cloexec == t.cloexec && r.installs == t.installs
    ensures forall n: int :: r.Reserved(n) <==> t.Reserved(n) || n in numbers
    decreases |numbers|
  {
    if numbers == [] then t else MarkedAll(Marked(t, numbers[0]), numbers[1..])
  }

  /** f_reservation_slot_matches for every number of a reservation. */
  predicate Ready(t: Table, numbers: seq<nat>) {
    && (forall i :: 0 <= i < |numbers| ==>
        numbers[i] < |t.files| && t.Get(numbers[i]) == None && t.Reserved(numbers[i]))
    && (forall i, j :: 0 <= i < j < |numbers| ==> numbers[i] < numbers[j])
  }

  function UnmarkedAll(t: Table, numbers: seq<nat>): (r: Table)
    requires t.Valid() && Ready(t, numbers)
    ensures r.Valid() && r.files == t.files && r.cloexec == t.cloexec && r.installs == t.installs
    ensures forall n: int :: r.Reserved(n) <==> t.Reserved(n) && n !in numbers
    decreases |numbers|
  {
    if numbers == [] then t
    else
      ReadyStep(t, numbers);
      UnmarkedAll(Unmarked(t, numbers[0]), numbers[1..])
  }

  function PublishedAll(t: Table, numbers: seq<nat>, fds: seq<Fd>, cloexec: bool): (r: Table)
    requires t.Valid() && Ready(t, numbers) && |fds| == |numbers|
    ensures r.Valid()
    decreases |numbers|
  {
    if numbers == [] then t
    else
      ReadyStep(t, numbers);
      PublishedAll(Installed(Unmarked(t, numbers[0]), numbers[0], fds[0], cloexec), numbers[1..], fds[1..], cloexec)
  }

  lemma ReadyStep(t: Table, numbers: seq<nat>)
    requires t.Valid() && Ready(t, numbers) && |numbers| > 0
    ensures numbers[0] < |t.files| && t.files[numbers[0]] == None
    ensures Ready(Unmarked(t, numbers[0]), numbers[1..])
    ensures forall fd, cloexec :: Ready(Installed(Unmarked(t, numbers[0]), numbers[0], fd, cloexec), numbers[1..])
    ensures numbers[0] !in numbers[1..]
  {
  }

  lemma PublishedStep(t: Table, numbers: seq<nat>, fds: seq<Fd>, cloexec: bool)
    requires t.Valid() && Ready(t, numbers) && |fds| == |numbers| > 0
    ensures numbers[0] < |t.files| && t.files[numbers[0]] == None
    ensures var u := Installed(Unmarked(t, numbers[0]), numbers[0], fds[0], cloexec);
      Ready(u, numbers[1..])
          && PublishedAll(t, numbers, fds, cloexec) == PublishedAll(u, numbers[1..], fds[1..], cloexec)
  {
    ReadyStep(t, numbers);
  }

  lemma PublishedNone(t: Table, cloexec: bool)
    requires t.Valid()
    ensures Ready(t, []) && PublishedAll(t, [], [], cloexec) == t
  {
  }

  function Prefixed(found: seq<nat>, r: Option<seq<nat>>): Option<seq<nat>> {
    match r case None => None case Some(rest) => Some(found + rest)
  }

  lemma PrefixedLaws(found: seq<nat>, n: nat, r: Option<seq<nat>>)
    ensures Prefixed([], r) == r
    ensures Prefixed(found + [n], r) == Prefixed(found, Prefixed([n], r))
  {
    if r.Some? {
      assert [] + r.value == r.value;
      assert found + [n] + r.value == found + ([n] + r.value);
    }
  }

  lemma PickedStep(t: Table, count: nat, number: nat, limit: nat)
    requires count > 0 && number < limit
    ensures Picked(t, count, number, limit) ==
      if t.Free(number) then Prefixed([number], Picked(t, count - 1, number + 1, limit))
      else Picked(t, count, number + 1, limit)
  {
  }

  lemma PickedEnd(t: Table, count: nat, number: nat, limit: nat)
    requires count == 0 || number >= limit
    ensures Picked(t, count, number, limit) == if count == 0 then Some([]) else None
  {
  }
}
