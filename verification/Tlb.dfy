/** The software TLB of emu/tlb.c and emu/tlb.h against direct translation. Guest addresses
    are 32 bits wide and host addresses 64; a byte of host memory never written is 0. */
module Tlb {
  import opened Options

  const PAGE: nat := 0x1000
  const GUEST: nat := 0x1_0000_0000
  const HOST: nat := 0x1_0000_0000_0000_0000
  const SIZE: nat := 1024
  const EMPTY: nat := 1

  type Addr = x: nat | x < 0x1_0000_0000
  type Byte = bv8
  type Memory = map<nat, Byte>

  datatype Access = Read | Write

  // ---- the MMU ----

  datatype Mapping = Mapping(host: nat, writable: bool)

  /** pages maps the address of a guest page; changes counts the mapping changes. */
  datatype Mmu = Mmu(id: nat, pages: map<nat, Mapping>, changes: nat) {
    predicate Valid() {
      forall p :: p in pages ==> 0 < pages[p].host && pages[p].host + PAGE <= HOST
    }
  }

  function Direct(m: Mmu, page: nat, a: Access): Option<nat> {
    if page in m.pages && (a == Read || m.pages[page].writable) then Some(m.pages[page].host) else None
  }

  predicate SameAt(m: Mmu, n: Mmu, page: nat) {
    (page in m.pages <==> page in n.pages) && (page in m.pages ==> m.pages[page] == n.pages[page])
  }

  /** mmu_ops.translate; it may change the mapping of the page it is asked for, and says so
      in changes, but moves no other page. */
  type Translate = (Mmu, nat, Access) -> (Mmu, Option<nat>)

  ghost predicate Lawful(translate: Translate) {
    forall m: Mmu, page: nat, a: Access :: m.Valid() ==> LawfulAt(m, page, a, translate(m, page, a))
  }

  ghost predicate LawfulAt(m: Mmu, page: nat, a: Access, r: (Mmu, Option<nat>)) {
    && r.0.Valid() && r.0.id == m.id && Later(m, r.0) && Apart(m, r.0, page)
    && r.1 == Direct(r.0, page, a)
  }

  predicate Later(m: Mmu, n: Mmu) {
    m.changes <= n.changes && (m.changes == n.changes ==> m == n)
  }

  ghost predicate Apart(m: Mmu, n: Mmu, page: nat) {
    forall q: nat :: q != page ==> SameAt(m, n, q)
  }

  /** A translation that maps nothing anew, as mem_mmu_translate. */
  ghost predicate Still(translate: Translate) {
    forall m: Mmu, page: nat, a: Access :: translate(m, page, a).0 == m
  }

  // ---- addresses ----

  function PageOf(addr: Addr): (p: nat)
    ensures p <= addr < p + PAGE && p % PAGE == 0
  {
    addr - addr % PAGE
  }

  function NextPage(addr: Addr): (p: Addr)
    ensures p != PageOf(addr) && PageOf(p) == p
  {
    (addr / PAGE + 1) * PAGE % GUEST
  }

  /** TLB_INDEX */
  function Index(addr: Addr): (i: nat)
    ensures i < SIZE
  {
    (((addr / PAGE % SIZE) as bv10) ^ ((addr / (PAGE * SIZE)) as bv10)) as nat
  }

  /** Where a guest byte is in the host, if its page is mapped for the access. */
  function HostOf(m: Mmu, addr: Addr, a: Access): Option<nat> {
    match Direct(m, PageOf(addr), a)
    case None => None
    case Some(host) => Some(host + addr % PAGE)
  }

  function Plus(addr: Addr, n: nat): Addr {
    (addr + n) % GUEST
  }

  // ---- direct, byte-wise access ----

  function At(mem: Memory, host: nat): Byte {
    if host in mem then mem[host] else 0
  }

  function ByteAt(m: Mmu, mem: Memory, addr: Addr): Byte {
    match HostOf(m, addr, Read)
    case None => 0
    case Some(host) => At(mem, host)
  }

  /** Every byte of the range is mapped for the access. */
  predicate Mapped(m: Mmu, addr: Addr, n: nat, a: Access) {
    forall i :: 0 <= i < n ==> HostOf(m, Plus(addr, i), a).Some?
  }

  function Loaded(m: Mmu, mem: Memory, addr: Addr, n: nat): (bytes: seq<Byte>)
    ensures |bytes| == n && forall i :: 0 <= i < n ==> bytes[i] == ByteAt(m, mem, Plus(addr, i))
  {
    seq(n, i requires 0 <= i => ByteAt(m, mem, Plus(addr, i)))
  }

  /** Bytes written one after another, each through its own translation. */
  function Stored(m: Mmu, mem: Memory, addr: Addr, bytes: seq<Byte>): Memory
    decreases |bytes|
  {
    if bytes == [] then mem
    else
      match HostOf(m, addr, Write)
      case None => Stored(m, mem, Plus(addr, 1), bytes[1..])
      case Some(host) => Stored(m, mem[host := bytes[0]], Plus(addr, 1), bytes[1..])
  }

  /** The first byte of the range that is not mapped for the access. */
  function FirstUnmapped(m: Mmu, addr: Addr, n: nat, a: Access): Option<Addr>
    decreases n
  {
    if n == 0 then None
    else if HostOf(m, addr, a) == None then Some(addr)
    else FirstUnmapped(m, Plus(addr, 1), n - 1, a)
  }

  // ---- host memory ----

  function Copied(mem: Memory, host: nat, n: nat): (bytes: seq<Byte>)
    ensures |bytes| == n && forall i :: 0 <= i < n ==> bytes[i] == At(mem, host + i)
  {
    seq(n, i requires 0 <= i => At(mem, host + i))
  }

  function Patched(mem: Memory, host: nat, bytes: seq<Byte>): Memory
    decreases |bytes|
  {
    if bytes == [] then mem else Patched(mem[host := bytes[0]], host + 1, bytes[1..])
  }

  lemma PageSame(addr: Addr, i: nat)
    requires addr % PAGE + i < PAGE
    ensures addr + i < GUEST && PageOf(Plus(addr, i)) == PageOf(addr) && Plus(addr, i) % PAGE == addr % PAGE + i
  {
    var q, r := addr / PAGE, addr % PAGE;
    assert addr == PAGE * q + r;
    InPage(q, r + i);
  }

  lemma InPage(q: nat, r: nat)
    requires r < PAGE
    ensures (PAGE * q + r) % PAGE == r
  {
  }

  /** Inside one page a byte-wise load or store is one copy. */
  lemma LoadInPage(m: Mmu, mem: Memory, addr: Addr, n: nat, host: nat)
    requires addr % PAGE + n <= PAGE && HostOf(m, addr, Read) == Some(host)
    ensures Mapped(m, addr, n, Read) && Loaded(m, mem, addr, n) == Copied(mem, host, n)
  {
    forall i | 0 <= i < n
      ensures HostOf(m, Plus(addr, i), Read) == Some(host + i)
    {
      PageSame(addr, i);
    }
  }

  lemma {:induction false} StoreInPage(m: Mmu, mem: Memory, addr: Addr, bytes: seq<Byte>, host: nat)
    requires addr % PAGE + |bytes| <= PAGE && (bytes != [] ==> HostOf(m, addr, Write) == Some(host))
    ensures Stored(m, mem, addr, bytes) == Patched(mem, host, bytes)
    decreases |bytes|
  {
    if bytes != [] {
      if |bytes| > 1 {
        PageSame(addr, 1);
        StoreInPage(m, mem[host := bytes[0]], Plus(addr, 1), bytes[1..], host + 1);
      } else {
        assert bytes[1..] == [];
      }
    }
  }

  lemma MappedInPage(m: Mmu, addr: Addr, n: nat, a: Access)
    requires addr % PAGE + n <= PAGE && n > 0
    ensures Mapped(m, addr, n, a) <==> HostOf(m, addr, a).Some?
  {
    PageSame(addr, 0);
    if Mapped(m, addr, n, a) {
      assert HostOf(m, Plus(addr, 0), a).Some?;
    }
    if HostOf(m, addr, a).Some? {
      forall i | 0 <= i < n
        ensures HostOf(m, Plus(addr, i), a).Some?
      {
        PageSame(addr, i);
      }
    }
  }

  lemma PlusPlus(addr: Addr, i: nat, j: nat)
    ensures Plus(Plus(addr, i), j) == Plus(addr, i + j)
  {
  }

  lemma {:induction false} StoreSplit(m: Mmu, mem: Memory, addr: Addr, a: seq<Byte>, b: seq<Byte>)
    ensures Stored(m, mem, addr, a + b) == Stored(m, Stored(m, mem, addr, a), Plus(addr, |a|), b)
    decreases |a|
  {
    if a == [] {
      assert a + b == b;
    } else {
      assert (a + b)[1..] == a[1..] + b && (a + b)[0] == a[0];
      var next := if HostOf(m, addr, Write).Some? then mem[HostOf(m, addr, Write).value := a[0]] else mem;
      StoreSplit(m, next, Plus(addr, 1), a[1..], b);
      PlusPlus(addr, 1, |a| - 1);
    }
  }

  lemma MappedSplit(m: Mmu, addr: Addr, k: nat, n: nat, a: Access)
    requires k <= n
    ensures Mapped(m, addr, n, a) <==> Mapped(m, addr, k, a) && Mapped(m, Plus(addr, k), n - k, a)
  {
    if Mapped(m, addr, n, a) {
      forall i | 0 <= i < n - k
        ensures HostOf(m, Plus(Plus(addr, k), i), a).Some?
      {
        PlusPlus(addr, k, i);
      }
    }
    if Mapped(m, addr, k, a) && Mapped(m, Plus(addr, k), n - k, a) {
      forall i | 0 <= i < n
        ensures HostOf(m, Plus(addr, i), a).Some?
      {
        if i >= k {
          PlusPlus(addr, k, i - k);
          assert HostOf(m, Plus(Plus(addr, k), i - k), a).Some?;
        }
      }
    }
  }

  lemma LoadSplit(m: Mmu, mem: Memory, addr: Addr, k: nat, n: nat)
    requires k <= n
    ensures Loaded(m, mem, addr, n) == Loaded(m, mem, addr, k) + Loaded(m, mem, Plus(addr, k), n - k)
  {
    forall i | k <= i < n
      ensures Plus(addr, i) == Plus(Plus(addr, k), i - k)
    {
      PlusPlus(addr, k, i - k);
    }
  }

  /** The first byte of the next page comes after the rest of this one. */
  lemma NextPageIs(addr: Addr)
    ensures var k := PAGE - addr % PAGE; Plus(addr, k) == NextPage(addr) && NextPage(addr) % PAGE == 0
  {
  }
}
