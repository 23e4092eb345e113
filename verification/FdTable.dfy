/** The descriptor table of fs/fd.c: slots, close-on-exec bits, reservations and
    slot generations, and the slot searches over them. */
module FdTable {
  import opened Options

  type Fd = nat        // identity of a struct fd

  /** RLIMIT_NOFILE never exceeds this: resource_prlimit_task refuses more. */
  const NR_OPEN: nat := 1048576

  type Limit = x: nat | x <= NR_OPEN

  /** generations[f] is a 64-bit counter of the installs into slot f. */
  const GENERATIONS: nat := 0x1_0000_0000_0000_0000

  datatype Error = EMFILE | ENOMEM | EBADF | EBUSY | EINVAL

  datatype Outcome<T> = Ok(value: T) | Err(error: Error)

  /** What a number stands for. */
  datatype Slot = Slot(file: Option<Fd>, cloexec: bool, reserved: bool, installs: nat)

  datatype Table = Table(files: seq<Option<Fd>>, cloexec: seq<bool>, reserved: seq<bool>, installs: seq<nat>) {
    /** A reserved slot and a slot marked close-on-exec are never confused with a free one. */
    predicate Valid() {
      && |files| == |cloexec| == |reserved| == |installs|
      && (forall n :: 0 <= n < |files| && reserved[n] ==> files[n] == None)
      && (forall n :: 0 <= n < |files| && cloexec[n] ==> files[n].Some?)
    }

    /** fdtable_get */
    function Get(n: int): Option<Fd> {
      if 0 <= n < |files| then files[n] else None
    }

    predicate Reserved(n: int) {
      0 <= n < |reserved| && reserved[n]
    }

    /** A number past the end of the table stands for what a new slot holds. */
    function At(n: int): Slot
      requires Valid()
    {
      if 0 <= n < |files| then Slot(files[n], cloexec[n], reserved[n], installs[n]) else Slot(None, false, false, 0)
    }

    predicate Free(n: int) {
      0 <= n && Get(n) == None && !Reserved(n)
    }

    function Generation(n: nat): nat
      requires n < |installs|
    {
      installs[n] % GENERATIONS
    }
  }

  function Filled<T>(x: T, n: nat): (s: seq<T>)
    ensures |s| == n && forall i :: 0 <= i < n ==> s[i] == x
  {
    seq(n, _ => x)
  }

  /** fdtable_resize */
  function Resized(t: Table, size: nat): (r: Table)
    requires t.Valid() && size >= |t.files|
    ensures r.Valid() && |r.files| == size
    ensures forall n: int :: r.Get(n) == t.Get(n) && (r.Reserved(n) <==> t.Reserved(n))
  {
    var more := size - |t.files|;
    Table(t.files + Filled(None, more), t.cloexec + Filled(false, more), t.reserved + Filled(false, more),
        t.installs + Filled(0, more))
  }

  /** The lowest free number from start on. */
  function LowestFree(t: Table, start: nat): (n: nat)
    ensures start <= n && t.Free(n)
    ensures forall m: int :: start <= m < n ==> !t.Free(m)
    decreases |t.files| + |t.reserved| - start
  {
    if t.Free(start) then start else LowestFree(t, start + 1)
  }

  lemma LowestFreeIs(t: Table, start: nat, n: nat)
    requires start <= n && t.Free(n) && forall m: int :: start <= m < n ==> !t.Free(m)
    ensures LowestFree(t, start) == n
  {
  }

  /** f_install_publish and f_install_finish on a free slot. */
  function Installed(t: Table, n: nat, fd: Fd, cloexec: bool): (r: Table)
    requires t.Valid() && n < |t.files| && t.files[n] == None && !t.reserved[n]
    ensures r.Valid() && |r.files| == |t.files|
  {
    Table(t.files[n := Some(fd)], t.cloexec[n := cloexec], t.reserved, t.installs[n := t.installs[n] + 1])
  }

  /** fdtable_close, on the slot. */
  function Emptied(t: Table, n: nat): (r: Table)
    requires t.Valid() && n < |t.files|
    ensures r.Valid() && |r.files| == |t.files|
  {
    t.(files := t.files[n := None], cloexec := t.cloexec[n := false])
  }

  function Marked(t: Table, n: nat): (r: Table)
    requires t.Valid() && n < |t.files| && t.files[n] == None
    ensures r.Valid() && |r.files| == |t.files|
  {
    t.(reserved := t.reserved[n := true])
  }

  function Unmarked(t: Table, n: nat): (r: Table)
    requires t.Valid() && n < |t.files|
    ensures r.Valid() && |r.files| == |t.files|
  {
    t.(reserved := t.reserved[n := false])
  }

  /** Room for number n, as fdtable_expand and f_reserve_task make it. */
  function Room(t: Table, n: nat): (r: Table)
    requires t.Valid()
    ensures r.Valid() && n < |r.files|
    ensures forall m: int :: r.Get(m) == t.Get(m) && (r.Reserved(m) <==> t.Reserved(m))
  {
    if n < |t.files| then t else Resized(t, n + 1)
  }

  /** The numbers f_reserve_task picks: the count lowest free ones below the limit. */
  function Picked(t: Table, count: nat, start: nat, limit: nat): (r: Option<seq<nat>>)
    ensures r.Some? ==> |r.value| == count && forall i :: 0 <= i < |r.value| ==>
        start <= r.value[i] < limit && t.Free(r.value[i])
    ensures r.Some? ==> forall i, j :: 0 <= i < j < |r.value| ==> r.value[i] < r.value[j]
    decreases count
  {
    if count == 0 then Some([])
    else
      var n := LowestFree(t, start);
      if n >= limit then None
      else match Picked(t, count - 1, n + 1, limit)
        case None => None
        case Some(rest) => Some([n] + rest)
  }

  /** Picking is all or nothing, and takes the lowest numbers: whatever is free and
      not picked is above every number picked, and picking fails only when there
      are fewer free numbers below the limit than asked for. */
  lemma {:induction false} PickedLowest(t: Table, count: nat, start: nat, limit: nat, m: nat)
    requires start <= m < limit && t.Free(m)
    ensures match Picked(t, count, start, limit)
      case Some(ns) => m in ns || forall i :: 0 <= i < |ns| ==> ns[i] < m
      case None => |FreeBelow(t, start, limit)| < count
    decreases count
  {
    hide FreeBelow;
    PickedFails(t, count, start, limit);
    if count > 0 && Picked(t, count, start, limit).Some? {
      var n := LowestFree(t, start);
      if n < m {
        PickedLowest(t, count - 1, n + 1, limit, m);
      } else {
        assert n == m;
      }
    }
  }

  lemma {:induction false} PickedFails(t: Table, count: nat, start: nat, limit: nat)
    ensures Picked(t, count, start, limit) == None <==> |FreeBelow(t, start, limit)| < count
    decreases count
  {
    if count > 0 {
      var n := LowestFree(t, start);
      if n < limit {
        FreeBelowFirst(t, start, limit);
        PickedFails(t, count - 1, n + 1, limit);
      } else {
        assert FreeBelow(t, start, limit) == {};
      }
    }
  }

  function FreeBelow(t: Table, start: nat, limit: nat): set<int> {
    set m: int | start <= m < limit && t.Free(m)
  }

  lemma FreeBelowFirst(t: Table, start: nat, limit: nat)
    requires LowestFree(t, start) < limit
    ensures var n := LowestFree(t, start);
      FreeBelow(t, start, limit) == {n} + FreeBelow(t, n + 1, limit)
          && |FreeBelow(t, start, limit)| == 1 + |FreeBelow(t, n + 1, limit)|
  {
    var n := LowestFree(t, start);
    assert FreeBelow(t, start, limit) == {n} + FreeBelow(t, n + 1, limit);
  }
}
