/** The TLB itself: its entries, misses, and the accesses that go through it. */
module TlbCache {
  import opened Options
  import opened Tlb

  datatype Entry = Entry(page: nat, pageIfWritable: nat, dataMinusAddr: nat)

  const NOTHING: Entry := Entry(EMPTY, EMPTY, 0)

  /** A hit on the entry gives what a direct translation gives. */
  predicate Agrees(m: Mmu, e: Entry) {
    && (e.page != EMPTY ==>
          Direct(m, e.page, Read).Some? && e.dataMinusAddr == (Direct(m, e.page, Read).value - e.page) % HOST)
    && (e.pageIfWritable != EMPTY ==> e.pageIfWritable == e.page && Direct(m, e.page, Write).Some?)
  }

  /** tlb_host_pointer: the offset kept in an entry and the address meet at the host byte,
      although both are taken modulo 2^64. */
  lemma HostPointer(host: nat, page: nat, addr: nat)
    requires page <= addr < page + PAGE && host + PAGE <= HOST
    ensures ((host - page) % HOST + addr) % HOST == host + (addr - page)
  {
    ModPlus(host - page, addr);
  }

  lemma ModPlus(x: int, y: int)
    requires 0 <= x + y < HOST
    ensures (x % HOST + y) % HOST == x + y
  {
    var q := x / HOST;
    assert x % HOST + y == (x + y) + HOST * (0 - q);
    ModMultiple(x + y, 0 - q);
  }

  lemma ModMultiple(x: int, q: int)
    requires 0 <= x < HOST
    ensures (x + HOST * q) % HOST == x
  {
  }

  // ---- what a program of accesses means without a TLB ----

  /** A load, a store, or other code changing the mappings or the MMU, after which the TLB is
      refreshed before it is used. */
  datatype Op = Load(addr: Addr, size: nat) | Store(addr: Addr, bytes: seq<Byte>) | Change(next: Mmu)

  datatype Outcome = Got(bytes: seq<Byte>) | Done | Fault(addr: Addr) | Changed

  datatype Machine = Machine(mmu: Mmu, mem: Memory)

  predicate Allowed(s: Machine, op: Op) {
    match op
    case Load(_, size) => 0 < size <= PAGE
    case Store(_, bytes) => 0 < |bytes| <= PAGE
    case Change(next) => next.Valid() && (next.id == s.mmu.id ==> Later(s.mmu, next))
  }

  /** Byte by byte, each through its own translation; the first byte that is not mapped
      faults and then nothing is stored. */
  function Meaning(s: Machine, op: Op): (Machine, Outcome) {
    match op
    case Load(addr, size) =>
      (match FirstUnmapped(s.mmu, addr, size, Read)
       case None => (s, Got(Loaded(s.mmu, s.mem, addr, size)))
       case Some(bad) => (s, Fault(bad)))
    case Store(addr, bytes) =>
      (match FirstUnmapped(s.mmu, addr, |bytes|, Write)
       case None => (s.(mem := Stored(s.mmu, s.mem, addr, bytes)), Done)
       case Some(bad) => (s, Fault(bad)))
    case Change(next) => (s.(mmu := next), Changed)
  }

  predicate AllAllowed(s: Machine, ops: seq<Op>)
    decreases |ops|
  {
    ops == [] || (Allowed(s, ops[0]) && AllAllowed(Meaning(s, ops[0]).0, ops[1..]))
  }

  function Program(s: Machine, ops: seq<Op>): (Machine, seq<Outcome>)
    decreases |ops|
  {
    if ops == [] then (s, [])
    else
      var first := Meaning(s, ops[0]);
      var rest := Program(first.0, ops[1..]);
      (rest.0, [first.1] + rest.1)
  }

  lemma {:induction false} UnmappedInPage(m: Mmu, addr: Addr, n: nat, a: Access)
    requires addr % PAGE + n <= PAGE && n > 0
    ensures FirstUnmapped(m, addr, n, a) == if HostOf(m, addr, a) == None then Some(addr) else None
    decreases n
  {
    if n > 1 {
      PageSame(addr, 1);
      UnmappedInPage(m, Plus(addr, 1), n - 1, a);
    }
  }

  lemma {:induction false} UnmappedSplit(m: Mmu, addr: Addr, k: nat, n: nat, a: Access)
    requires k <= n
    ensures FirstUnmapped(m, addr, n, a)
         == if FirstUnmapped(m, addr, k, a) != None then FirstUnmapped(m, addr, k, a)
             else FirstUnmapped(m, Plus(addr, k), n - k, a)
    decreases k
  {
    if k > 0 {
      UnmappedSplit(m, Plus(addr, 1), k - 1, n - 1, a);
      PlusPlus(addr, 1, k - 1);
    }
  }

  /** The address that the TLB reports is that of the first byte that is not mapped. */
  lemma FaultsAt(m: Mmu, addr: Addr, n: nat, a: Access)
    requires 0 < n <= PAGE
    ensures FirstUnmapped(m, addr, n, a)
         == if Mapped(m, addr, n, a) then None else Some(if HostOf(m, addr, a) == None then addr else NextPage(addr))
  {
    hide Mapped, FirstUnmapped;
    var k := PAGE - addr % PAGE;
    if n <= k {
      UnmappedInPage(m, addr, n, a);
      MappedInPage(m, addr, n, a);
    } else {
      NextPageIs(addr);
      UnmappedSplit(m, addr, k, n, a);
      UnmappedInPage(m, addr, k, a);
      UnmappedInPage(m, NextPage(addr), n - k, a);
      CrossMapped(m, addr, n, a);
    }
  }

  class Cache {
    const translate: Translate
    const entries: array<Entry>
    var mmu: Mmu
    var memChanges: nat
    var dirtyPage: nat
    var segfaultAddr: nat
    var mem: Memory

    /** While the versions match, every entry agrees with the MMU. */
    ghost predicate Valid()
      reads this, entries
    {
      && entries.Length == SIZE && mmu.Valid() && Lawful(translate)
      && memChanges <= mmu.changes
      && (memChanges == mmu.changes ==> forall i :: 0 <= i < SIZE ==> Agrees(mmu, entries[i]))
    }

    predicate Fresh()
      reads this
    {
      memChanges == mmu.changes
    }

    constructor (translate: Translate, mmu: Mmu, mem: Memory)
      requires Lawful(translate) && mmu.Valid()
      ensures Valid() && Fresh() && this.mmu == mmu && this.mem == mem && this.translate == translate && fresh(entries)
    {
      this.translate, this.mmu, this.mem := translate, mmu, mem;
      memChanges, dirtyPage, segfaultAddr := mmu.changes, EMPTY, 0;
      entries := new Entry[SIZE](_ => NOTHING);
    }

    /** tlb_flush */
    method Flush()
      requires entries.Length == SIZE && mmu.Valid() && Lawful(translate)
      modifies this`memChanges, entries
      ensures Valid() && Fresh() && forall i :: 0 <= i < SIZE ==> entries[i] == NOTHING
    {
      memChanges := mmu.changes;
      var i := 0;
      while i < SIZE
        invariant 0 <= i <= SIZE && Fresh() && forall j :: 0 <= j < i ==> entries[j] == NOTHING
      {
        entries[i] := NOTHING;
        i := i + 1;
      }
    }

    /** tlb_refresh: whatever happened to the mappings, or whichever MMU is now in use, the
        TLB is usable afterwards. */
    method Refresh(next: Mmu)
      requires Valid() && next.Valid() && (next.id == mmu.id ==> Later(mmu, next))
      modifies this`mmu, this`dirtyPage, this`memChanges, entries
      ensures Valid() && Fresh() && mmu == next
    {
      if mmu.id == next.id && memChanges == next.changes {
        mmu := next;
        return;
      }
      mmu, dirtyPage, memChanges := next, EMPTY, next.changes;
      Flush();
    }

    /** tlb_handle_miss */
    method HandleMiss(addr: Addr, a: Access) returns (ptr: Option<nat>)
      requires Valid()
      modifies this`mmu, this`memChanges, this`dirtyPage, this`segfaultAddr, entries
      ensures Valid() && Fresh() && LawfulAt(old(mmu), PageOf(addr), a, (mmu, Direct(mmu, PageOf(addr), a)))
      ensures Still(translate) ==> mmu == old(mmu)
      ensures ptr == HostOf(mmu, addr, a)
      ensures segfaultAddr == if ptr == None then addr else old(segfaultAddr)
      ensures ptr.Some? ==> dirtyPage == PageOf(addr)
    {
      var page := PageOf(addr);
      var (next, host) := translate(mmu, page, a);
      assert LawfulAt(mmu, page, a, (next, host));
      mmu := next;
      if mmu.changes != memChanges {
        Flush();
      }
      if host == None {
        segfaultAddr := addr;
        return None;
      }
      dirtyPage := page;
      var e := Entry(page, if a == Write then page else EMPTY, (host.value - page) % HOST);
      entries[Index(addr)] := e;
      assert Agrees(mmu, e);
      HostPointer(host.value, page, addr);
      ptr := Some((e.dataMinusAddr + addr) % HOST);
    }

    /** __tlb_read_ptr and __tlb_write_ptr: hit or miss, what a direct translation gives. */
    method Pointer(addr: Addr, a: Access) returns (ptr: Option<nat>)
      requires Valid() && Fresh()
      modifies this`mmu, this`memChanges, this`dirtyPage, this`segfaultAddr, entries
      ensures Valid() && Fresh() && LawfulAt(old(mmu), PageOf(addr), a, (mmu, Direct(mmu, PageOf(addr), a)))
      ensures Still(translate) ==> mmu == old(mmu)
      ensures ptr == HostOf(mmu, addr, a)
      ensures segfaultAddr == if ptr == None then addr else old(segfaultAddr)
      ensures a == Write && ptr.Some? ==> dirtyPage == PageOf(addr)
    {
      var e := entries[Index(addr)];
      if (if a == Read then e.page else e.pageIfWritable) == PageOf(addr) {
        assert Agrees(mmu, e);
        if a == Write {
          dirtyPage := PageOf(addr);
        }
        HostPointer(Direct(mmu, PageOf(addr), a).value, PageOf(addr), addr);
        return Some((e.dataMinusAddr + addr) % HOST);
      }
      ptr := HandleMiss(addr, a);
    }

    /** memcpy out of host memory. */
    method CopyOut(host: nat, n: nat) returns (bytes: seq<Byte>)
      ensures bytes == Copied(mem, host, n)
    {
      bytes := [];
      var i := 0;
      while i < n
        invariant 0 <= i <= n && |bytes| == i && forall j :: 0 <= j < i ==> bytes[j] == At(mem, host + j)
      {
        bytes := bytes + [if host + i in mem then mem[host + i] else 0];
        i := i + 1;
      }
    }

    /** memcpy into host memory. */
    method CopyIn(host: nat, bytes: seq<Byte>)
      modifies this`mem
      ensures mem == Patched(old(mem), host, bytes)
    {
      var i := 0;
      assert bytes[0..] == bytes;
      while i < |bytes|
        invariant 0 <= i <= |bytes| && Patched(mem, host + i, bytes[i..]) == Patched(old(mem), host, bytes)
      {
        assert bytes[i..][0] == bytes[i] && bytes[i..][1..] == bytes[i + 1..];
        mem := mem[host + i := bytes[i]];
        i := i + 1;
      }
    }

    /** __tlb_read_cross_page and __tlb_write_cross_page, up to the copying. */
    method TwoPointers(addr: Addr, n: nat, a: Access) returns (first: Option<nat>, second: Option<nat>)
      requires Valid() && Fresh() && n <= PAGE && addr % PAGE + n > PAGE
      modifies this`mmu, this`memChanges, this`dirtyPage, this`segfaultAddr, entries
      ensures Valid() && Fresh() && mmu.id == old(mmu).id && Later(old(mmu), mmu)
      ensures Still(translate) ==> mmu == old(mmu)
      ensures (first.Some? && second.Some?) <==> Mapped(mmu, addr, n, a)
      ensures first.Some? ==> first == HostOf(mmu, addr, a) && second == HostOf(mmu, NextPage(addr), a)
      ensures first == None ==> HostOf(mmu, addr, a) == None && segfaultAddr == addr
      ensures first.Some? && second == None ==> segfaultAddr == NextPage(addr)
    {
      hide Agrees, Mapped;
      first := Pointer(addr, a);
      second := None;
      if first.Some? {
        ghost var middle := mmu;
        second := Pointer(NextPage(addr), a);
        assert SameAt(middle, mmu, PageOf(addr));
      }
      CrossMapped(mmu, addr, n, a);
    }

    /** tlb_read: the bytes that direct translation of every address reads, or a failure
        exactly when some byte is not mapped. */
    method ReadBytes(addr: Addr, n: nat) returns (bytes: Option<seq<Byte>>)
      requires Valid() && Fresh() && 0 < n <= PAGE
      modifies this`mmu, this`memChanges, this`dirtyPage, this`segfaultAddr, entries
      ensures Valid() && Fresh() && mmu.id == old(mmu).id && Later(old(mmu), mmu)
      ensures Still(translate) ==> mmu == old(mmu)
      ensures bytes == if Mapped(mmu, addr, n, Read) then Some(Loaded(mmu, mem, addr, n)) else None
      ensures bytes == None ==> segfaultAddr == if HostOf(mmu, addr, Read) == None then addr else NextPage(addr)
    {
      hide Mapped, Loaded, Agrees;
      if addr % PAGE > PAGE - n {
        var first, second := TwoPointers(addr, n, Read);
        if first == None || second == None {
          return None;
        }
        var k := PAGE - addr % PAGE;
        var low := CopyOut(first.value, k);
        var high := CopyOut(second.value, n - k);
        CrossLoad(mmu, mem, addr, n);
        return Some(low + high);
      }
      var ptr := Pointer(addr, Read);
      MappedInPage(mmu, addr, n, Read);
      if ptr == None {
        return None;
      }
      LoadInPage(mmu, mem, addr, n, ptr.value);
      var got := CopyOut(ptr.value, n);
      bytes := Some(got);
    }

    /** tlb_write: memory as a byte-wise store through direct translation leaves it, or, when
        some byte is not mapped for writing, as it was. */
    method WriteBytes(addr: Addr, bytes: seq<Byte>) returns (done: bool)
      requires Valid() && Fresh() && 0 < |bytes| <= PAGE
      modifies this`mmu, this`memChanges, this`dirtyPage, this`segfaultAddr, this`mem, entries
      ensures Valid() && Fresh() && mmu.id == old(mmu).id && Later(old(mmu), mmu)
      ensures Still(translate) ==> mmu == old(mmu)
      ensures done <==> Mapped(mmu, addr, |bytes|, Write)
      ensures mem == if done then Stored(mmu, old(mem), addr, bytes) else old(mem)
      ensures !done ==> segfaultAddr == if HostOf(mmu, addr, Write) == None then addr else NextPage(addr)
    {
      hide Mapped, Stored, Patched, Agrees;
      if addr % PAGE > PAGE - |bytes| {
        var first, second := TwoPointers(addr, |bytes|, Write);
        if first == None || second == None {
          return false;
        }
        var k := PAGE - addr % PAGE;
        CrossStore(mmu, mem, addr, bytes);
        CopyIn(first.value, bytes[..k]);
        CopyIn(second.value, bytes[k..]);
        return true;
      }
      var ptr := Pointer(addr, Write);
      MappedInPage(mmu, addr, |bytes|, Write);
      if ptr == None {
        return false;
      }
      StoreInPage(mmu, mem, addr, bytes, ptr.value);
      CopyIn(ptr.value, bytes);
      done := true;
    }

    /** One access, or a change and the refresh after it. */
    method Perform(op: Op) returns (out: Outcome)
      requires Valid() && Fresh() && Still(translate) && Allowed(Machine(mmu, mem), op)
      modifies this`mmu, this`memChanges, this`dirtyPage, this`segfaultAddr, this`mem, entries
      ensures Valid() && Fresh() && (Machine(mmu, mem), out) == Meaning(old(Machine(mmu, mem)), op)
    {
      hide Mapped, FirstUnmapped, Loaded, Stored, Agrees;
      match op
      case Load(addr, size) =>
        FaultsAt(mmu, addr, size, Read);
        var bytes := ReadBytes(addr, size);
        out := if bytes.Some? then Got(bytes.value) else Fault(segfaultAddr);
      case Store(addr, bytes) =>
        FaultsAt(mmu, addr, |bytes|, Write);
        var done := WriteBytes(addr, bytes);
        out := if done then Done else Fault(segfaultAddr);
      case Change(next) =>
        Refresh(next);
        out := Changed;
    }

    /** Over every program of accesses and mapping changes the TLB cannot be told from
        translating every byte of every access anew: the same bytes are read, the same faults
        reported at the same addresses, and host memory ends the same. */
    method Execute(ops: seq<Op>) returns (outs: seq<Outcome>)
      requires Valid() && Fresh() && Still(translate) && AllAllowed(Machine(mmu, mem), ops)
      modifies this`mmu, this`memChanges, this`dirtyPage, this`segfaultAddr, this`mem, entries
      ensures Valid() && Fresh() && (Machine(mmu, mem), outs) == Program(old(Machine(mmu, mem)), ops)
    {
      hide Meaning, Allowed, Agrees;
      outs := [];
      var i := 0;
      assert ops[0..] == ops && [] + Program(Machine(mmu, mem), ops).1 == Program(Machine(mmu, mem), ops).1;
      while i < |ops|
        invariant 0 <= i <= |ops| && Valid() && Fresh() && AllAllowed(Machine(mmu, mem), ops[i..])
        invariant var rest := Program(Machine(mmu, mem), ops[i..]);
          (rest.0, outs + rest.1) == Program(old(Machine(mmu, mem)), ops)
      {
        assert ops[i..][0] == ops[i] && ops[i..][1..] == ops[i + 1..];
        ghost var rest := Program(Machine(mmu, mem), ops[i..]);
        var out := Perform(ops[i]);
        assert outs + rest.1 == outs + [out] + Program(Machine(mmu, mem), ops[i + 1..]).1;
        outs := outs + [out];
        i := i + 1;
      }
      assert ops[i..] == [] && outs + [] == outs;
    }
  }

  /** A range over two pages is mapped when both pages are. */
  lemma CrossMapped(m: Mmu, addr: Addr, n: nat, a: Access)
    requires n <= PAGE && addr % PAGE + n > PAGE
    ensures Mapped(m, addr, n, a) <==> HostOf(m, addr, a).Some? && HostOf(m, NextPage(addr), a).Some?
  {
    hide Mapped;
    var k := PAGE - addr % PAGE;
    NextPageIs(addr);
    MappedSplit(m, addr, k, n, a);
    MappedInPage(m, addr, k, a);
    MappedInPage(m, NextPage(addr), n - k, a);
  }

  lemma CrossLoad(m: Mmu, mem: Memory, addr: Addr, n: nat)
    requires n <= PAGE && addr % PAGE + n > PAGE
    requires HostOf(m, addr, Read).Some? && HostOf(m, NextPage(addr), Read).Some?
    ensures var k := PAGE - addr % PAGE;
      Loaded(m, mem, addr, n)
          == Copied(mem, HostOf(m, addr, Read).value, k) + Copied(mem, HostOf(m, NextPage(addr), Read).value, n - k)
  {
    hide Mapped, Loaded, Copied;
    var k := PAGE - addr % PAGE;
    NextPageIs(addr);
    LoadSplit(m, mem, addr, k, n);
    LoadInPage(m, mem, addr, k, HostOf(m, addr, Read).value);
    LoadInPage(m, mem, NextPage(addr), n - k, HostOf(m, NextPage(addr), Read).value);
  }

  lemma CrossStore(m: Mmu, mem: Memory, addr: Addr, bytes: seq<Byte>)
    requires |bytes| <= PAGE && addr % PAGE + |bytes| > PAGE
    requires HostOf(m, addr, Write).Some? && HostOf(m, NextPage(addr), Write).Some?
    ensures var k := PAGE - addr % PAGE;
      Stored(m, mem, addr, bytes)
      == Patched(Patched(mem, HostOf(m, addr, Write).value, bytes[..k]), HostOf(m, NextPage(addr), Write).value,
          bytes[k..])
  {
    hide Stored, Patched;
    var k := PAGE - addr % PAGE;
    NextPageIs(addr);
    assert bytes == bytes[..k] + bytes[k..];
    StoreSplit(m, mem, addr, bytes[..k], bytes[k..]);
    StoreInPage(m, mem, addr, bytes[..k], HostOf(m, addr, Write).value);
    StoreInPage(m, Stored(m, mem, addr, bytes[..k]), NextPage(addr), bytes[k..],
        HostOf(m, NextPage(addr), Write).value);
  }

  /** The two sides meet: what a byte-wise store put somewhere is what a byte-wise load finds,
      when no two bytes of the range share a host byte. */
  lemma {:induction false} StoredThenLoaded(m: Mmu, mem: Memory, addr: Addr, bytes: seq<Byte>, i: nat)
    requires i < |bytes| && Mapped(m, addr, |bytes|, Write)
    requires forall j, k :: 0 <= j < k < |bytes| ==> HostOf(m, Plus(addr, j), Write) != HostOf(m, Plus(addr, k), Write)
    ensures ByteAt(m, Stored(m, mem, addr, bytes), Plus(addr, i)) == bytes[i]
  {
    var host := HostOf(m, Plus(addr, i), Write).value;
    StoredAt(m, mem, addr, bytes, i, host);
    assert HostOf(m, Plus(addr, i), Read) == Some(host);
  }

  lemma {:induction false} StoredAt(m: Mmu, mem: Memory, addr: Addr, bytes: seq<Byte>, i: nat, host: nat)
    requires i < |bytes| && HostOf(m, Plus(addr, i), Write) == Some(host)
    requires forall k :: i < k < |bytes| ==> HostOf(m, Plus(addr, k), Write) != Some(host)
    ensures At(Stored(m, mem, addr, bytes), host) == bytes[i]
    decreases |bytes|
  {
    var next := if HostOf(m, addr, Write).Some? then mem[HostOf(m, addr, Write).value := bytes[0]] else mem;
    assert Plus(addr, 0) == addr;
    forall k | 0 <= k < |bytes| - 1
      ensures Plus(Plus(addr, 1), k) == Plus(addr, k + 1)
    {
      PlusPlus(addr, 1, k);
    }
    if i == 0 {
      Untouched(m, next, Plus(addr, 1), bytes[1..], host);
    } else {
      StoredAt(m, next, Plus(addr, 1), bytes[1..], i - 1, host);
    }
  }

  /** A host byte that no address of the range maps to keeps its value. */
  lemma {:induction false} Untouched(m: Mmu, mem: Memory, addr: Addr, bytes: seq<Byte>, host: nat)
    requires forall k :: 0 <= k < |bytes| ==> HostOf(m, Plus(addr, k), Write) != Some(host)
    ensures At(Stored(m, mem, addr, bytes), host) == At(mem, host)
    decreases |bytes|
  {
    if bytes != [] {
      var next := if HostOf(m, addr, Write).Some? then mem[HostOf(m, addr, Write).value := bytes[0]] else mem;
      assert Plus(addr, 0) == addr;
      forall k | 0 <= k < |bytes| - 1
        ensures Plus(Plus(addr, 1), k) == Plus(addr, k + 1)
      {
        PlusPlus(addr, 1, k);
      }
      Untouched(m, next, Plus(addr, 1), bytes[1..], host);
    }
  }
}
