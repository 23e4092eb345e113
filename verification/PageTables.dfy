/** The page tables of kernel/memory.c, through which the TLB translates. */
module PageTables {
  import opened Options
  import opened Tlb

  const TABLE_SIZE: nat := 1024
  const PAGES: nat := 0x10_0000

  /** A struct pt_entry; data is the address of the host memory, 0 for none. */
  datatype Entry = Entry(data: nat, offset: nat, flags: bv32)

  /** mem->pgdir: a table, or none, for each of the 1024 runs of 1024 pages. */
  type Directory = seq<Option<seq<Entry>>>

  /** P_WRITABLE: a page to be copied on write is not writable yet. */
  predicate Writable(flags: bv32) {
    flags & 2 != 0 && flags & 16 == 0
  }

  predicate WellFormed(d: Directory) {
    && |d| == TABLE_SIZE
    && (forall i :: 0 <= i < |d| && d[i].Some? ==> |d[i].value| == TABLE_SIZE)
    && (forall i, j :: 0 <= i < |d| && d[i].Some? && 0 <= j < |d[i].value| && d[i].value[j].data != 0 ==>
          d[i].value[j].data + d[i].value[j].offset + PAGE <= HOST)
  }

  /** mem_pt */
  function Lookup(d: Directory, page: nat): (e: Option<Entry>)
    requires WellFormed(d) && page < PAGES
    ensures e.Some? ==> e.value.data != 0 && e.value.data + e.value.offset + PAGE <= HOST
  {
    match d[page / TABLE_SIZE]
    case None => None
    case Some(table) => if table[page % TABLE_SIZE].data == 0 then None else Some(table[page % TABLE_SIZE])
  }

  /** mem_ptr_nofault */
  function Nofault(d: Directory, addr: Addr, a: Access): Option<nat>
    requires WellFormed(d)
  {
    match Lookup(d, addr / PAGE)
    case None => None
    case Some(e) => if a == Write && !Writable(e.flags) then None else Some(e.data + e.offset + addr % PAGE)
  }

  /** The tables as the mapping they stand for. */
  ghost function Mappings(d: Directory, n: nat): (m: map<nat, Mapping>)
    requires WellFormed(d) && n <= PAGES
    ensures forall p: nat :: p in m <==> p % PAGE == 0 && p / PAGE < n && Lookup(d, p / PAGE).Some?
    ensures forall p: nat :: p in m ==>
      var e := Lookup(d, p / PAGE).value; m[p] == Mapping(e.data + e.offset, Writable(e.flags))
  {
    if n == 0 then map[]
    else
      var rest := Mappings(d, n - 1);
      match Lookup(d, n - 1)
      case None => rest
      case Some(e) => rest[(n - 1) * PAGE := Mapping(e.data + e.offset, Writable(e.flags))]
  }

  ghost function MmuOf(d: Directory, id: nat, changes: nat): (m: Mmu)
    requires WellFormed(d)
    ensures m.Valid()
  {
    Mmu(id, Mappings(d, PAGES), changes)
  }

  /** Walking the tables and applying the flags and the offset gives, for every address and
      access, the host byte of the mapping the tables stand for. */
  lemma NofaultIsHostOf(d: Directory, id: nat, changes: nat, addr: Addr, a: Access)
    requires WellFormed(d)
    ensures Nofault(d, addr, a) == HostOf(MmuOf(d, id, changes), addr, a)
  {
    hide Mappings, Lookup;
    assert PageOf(addr) / PAGE == addr / PAGE && PageOf(addr) % PAGE == 0 && addr / PAGE < PAGES;
  }

  /** Every address is a top index, a bottom index and an offset, and is translated by that entry
      of that table: readable when it has data, writable when moreover bit 1 of its flags is set
      and bit 4, copy on write, is not. */
  lemma NofaultWalks(d: Directory, top: nat, bottom: nat, offset: nat, a: Access)
    requires WellFormed(d) && top < 1024 && bottom < 1024 && offset < 0x1000
    ensures (top * 1024 + bottom) * 0x1000 + offset < GUEST
    ensures Nofault(d, (top * 1024 + bottom) * 0x1000 + offset, a) ==
      if d[top] == None || d[top].value[bottom].data == 0 then None
      else if a == Write && d[top].value[bottom].flags & 0x12 != 0x2 then None
      else Some(d[top].value[bottom].data + d[top].value[bottom].offset + offset)
  {
    var addr := (top * 1024 + bottom) * 0x1000 + offset;
    assert addr / PAGE == top * 1024 + bottom && addr % PAGE == offset;
    assert (top * 1024 + bottom) / TABLE_SIZE == top && (top * 1024 + bottom) % TABLE_SIZE == bottom;
    if d[top].Some? {
      WritableBits(d[top].value[bottom].flags);
    }
  }

  lemma WritableBits(flags: bv32)
    ensures Writable(flags) <==> flags & 0x12 == 0x2
  {
  }

  /** So translating through the tables is what the TLB relies on: it maps nothing anew and
      moves no page. */
  lemma NofaultLawful(d: Directory, id: nat, changes: nat, page: Addr, a: Access)
    requires WellFormed(d) && page % PAGE == 0
    ensures LawfulAt(MmuOf(d, id, changes), page, a, (MmuOf(d, id, changes), Nofault(d, page, a)))
  {
    NofaultIsHostOf(d, id, changes, page, a);
    hide Mappings, Lookup;
    assert PageOf(page) == page;
  }
}
