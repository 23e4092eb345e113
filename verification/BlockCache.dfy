/** The translated-block cache of asbestos/asbestos.c as steps of many threads.
    Each step is what one thread does under asbestos->lock, or one move of generated
    code, or one operation on jetsam_lock. */
module BlockCache {
  import opened Options

  type Id = nat        // identity of a fiber_block allocation; never reused here
  type Addr = nat      // guest address
  type Tid = nat

  /** The word a jump gadget reads: an unpatched guest ip, or a block's code. */
  datatype Cell = NoJump | Ip(ip: Addr) | Patched(target: Id)

  /** cells are *jump_ip[0..1] (NoJump where jump_ip is NULL), compiled their
      original values, from the jumps_from lists. */
  datatype Block = Block(addr: Addr, cells: seq<Cell>, compiled: seq<Cell>, from: seq<set<Id>>, jetsam: bool) {
    predicate Shaped() {
      && |cells| == 2 && |compiled| == 2 && |from| == 2
      && forall i :: 0 <= i < 2 ==> !compiled[i].Patched?
    }
  }

  /** A thread inside cpu_step_to_interrupt holds its guest pc, its local cache,
      frame->last_block and the block it found or runs. */
  datatype Thread =
    | Idle
    | Running(pc: Addr, cache: map<nat, Id>, last: Option<Id>, block: Option<Id>)

  datatype State = State(
    blocks: map<Id, Block>,      // allocated blocks
    freed: set<Id>,              // blocks that free() has been called on
    index: map<Addr, Id>,        // the hash table
    threads: map<Tid, Thread>,   // absent means Idle
    writer: bool)                // jetsam_lock is held for writing

  function Refs(t: Thread): set<Id> {
    if t.Idle? then {}
    else
      t.cache.Values + (if t.last.Some? then {t.last.value} else {})
      + (if t.block.Some? then {t.block.value} else {})
  }

  // ---- steps ----

  datatype Event =
    | Begin(t: Tid, pc: Addr)                               // read_wrlock(jetsam_lock)
    | Hit(t: Tid, slot: nat)                                // block found in the local cache
    | Find(t: Tid, slot: nat)                               // fiber_lookup succeeds
    | Compile(t: Tid, slot: nat, id: Id, cells: seq<Cell>)  // fiber_block_compile, fiber_insert
    | Enter(t: Tid)                                         // patch last_block, then fiber_enter
    | Chain(t: Tid, i: nat)                                 // follow a patched cell
    | Leave(t: Tid, pc: Addr)                               // back to the dispatcher
    | End(t: Tid)                                           // read_wrunlock
    | Invalidate(id: Id)                                    // one block of asbestos_invalidate_range
    | WriteLock                                             // write_wrlock(jetsam_lock)
    | FreeJetsam                                            // fiber_free_jetsam
    | WriteUnlock

  predicate IsRunning(s: State, t: Tid) {
    t in s.threads && s.threads[t].Running?
  }

  predicate Enabled(s: State, e: Event) {
    match e
    case Begin(t, _) => !s.writer && !IsRunning(s, t)
    case Hit(t, slot) => IsRunning(s, t) && Cached(s, t, slot)
    case Find(t, slot) => IsRunning(s, t) && !Cached(s, t, slot) && s.threads[t].pc in s.index
    case Compile(t, slot, id, cells) =>
      && IsRunning(s, t) && !Cached(s, t, slot) && s.threads[t].pc !in s.index && id !in s.blocks && id !in s.freed
      && |cells| == 2 && !cells[0].Patched? && !cells[1].Patched?
    case Enter(t) => IsRunning(s, t) && s.threads[t].block.Some?
    case Chain(t, i) =>
      && IsRunning(s, t) && s.threads[t].block.Some? && HasPatched(s, s.threads[t].block.value, i)
    case Leave(t, _) => IsRunning(s, t)
    case End(t) => IsRunning(s, t)
    case Invalidate(id) => id in s.blocks && !s.blocks[id].jetsam
    case WriteLock => !s.writer && forall t :: t in s.threads ==> s.threads[t].Idle?
    case FreeJetsam => s.writer
    case WriteUnlock => s.writer
  }

  /** The local cache has a block for the thread's pc; any hash of addresses to slots will do. */
  predicate Cached(s: State, t: Tid, slot: nat)
    requires IsRunning(s, t)
  {
    var th := s.threads[t];
    slot in th.cache && th.cache[slot] in s.blocks && s.blocks[th.cache[slot]].addr == th.pc
  }

  predicate HasPatched(s: State, b: Id, i: nat) {
    b in s.blocks && i < |s.blocks[b].cells| && s.blocks[b].cells[i].Patched?
  }

  function WithThread(s: State, t: Tid, th: Thread): State {
    s.(threads := s.threads[t := th])
  }

  /** fiber_block_disconnect: the block leaves the index, its own links leave its
      targets' lists, and every cell that jumps to it gets its compiled value back.
      Its own cells keep their values. */
  function Disconnected(s: State, id: Id): State
    requires id in s.blocks
  {
    s.(blocks := map k | k in s.blocks :: Cut(s.blocks[k], k, id, s.blocks[id].from),
       index := map a | a in s.index && s.index[a] != id :: s.index[a])
  }

  function Cut(b: Block, k: Id, id: Id, from: seq<set<Id>>): Block {
    if k == id then b.(from := [{}, {}], jetsam := true)
    else b.(
      from := seq(|b.from|, i requires 0 <= i < |b.from| => b.from[i] - {id}),
      cells := seq(|b.cells|, i requires 0 <= i < |b.cells| =>
        if i < |from| && i < |b.compiled| && k in from[i] && b.cells[i] != NoJump then b.compiled[i] else b.cells[i]))
  }

  /** The patch loop of cpu_step_to_interrupt for one of the two cells. */
  predicate Patches(s: State, last: Id, b: Id, i: nat) {
    && last in s.blocks && b in s.blocks
    && !s.blocks[last].jetsam && !s.blocks[b].jetsam
    && i < |s.blocks[last].cells| && s.blocks[last].cells[i] == Ip(s.blocks[b].addr)
  }

  function PatchCells(s: State, last: Id, b: Id): State {
    s.(blocks := map k | k in s.blocks ::
      var m := s.blocks[k];
      m.(cells := seq(|m.cells|, i requires 0 <= i < |m.cells| =>
           if k == last && Patches(s, last, b, i) then Patched(b) else m.cells[i]),
         from := seq(|m.from|, i requires 0 <= i < |m.from| =>
           if k == b && Patches(s, last, b, i) then m.from[i] + {last} else m.from[i])))
  }

  function Inserted(s: State, ip: Addr, id: Id, cells: seq<Cell>): State {
    s.(blocks := s.blocks[id := Block(ip, cells, cells, [{}, {}], false)], index := s.index[ip := id])
  }

  /** The dispatcher has a block for the thread, which goes into its cache. */
  function Found(s: State, t: Tid, slot: nat, id: Id): State
    requires IsRunning(s, t)
  {
    WithThread(s, t, s.threads[t].(block := Some(id), cache := s.threads[t].cache[slot := id]))
  }

  /** Where the guest's jump i goes. */
  function JumpsTo(b: Block, i: nat): Addr {
    if i < |b.compiled| && b.compiled[i].Ip? then b.compiled[i].ip else 0
  }

  function Next(s: State, e: Event): State
    requires Enabled(s, e)
  {
    match e
    case Begin(t, pc) => WithThread(s, t, Running(pc, map[], None, None))
    case Hit(t, slot) => WithThread(s, t, s.threads[t].(block := Some(s.threads[t].cache[slot])))
    case Find(t, slot) => Found(s, t, slot, s.index[s.threads[t].pc])
    case Compile(t, slot, id, cells) => Found(Inserted(s, s.threads[t].pc, id, cells), t, slot, id)
    case Enter(t) =>
      var th := s.threads[t];
      var b := th.block.value;
      WithThread(if th.last.Some? then PatchCells(s, th.last.value, b) else s, t, th.(last := Some(b)))
    case Chain(t, i) =>
      var b := s.blocks[s.threads[t].block.value];
      var next := Some(b.cells[i].target);
      WithThread(s, t, s.threads[t].(pc := JumpsTo(b, i), last := next, block := next))
    case Leave(t, pc) => WithThread(s, t, s.threads[t].(pc := pc, block := None))
    case End(t) => WithThread(s, t, Idle)
    case Invalidate(id) => Disconnected(s, id)
    case WriteLock => s.(writer := true)
    case FreeJetsam =>
      s.(blocks := map k | k in s.blocks && !s.blocks[k].jetsam :: s.blocks[k],
         freed := s.freed + set k | k in s.blocks && s.blocks[k].jetsam)
    case WriteUnlock => s.(writer := false)
  }

  const Initial := State(map[], {}, map[], map[], false)

  // ---- the invariant ----

  /** A patched cell leads to an allocated block compiled for the address the jump
      was compiled with; from a live block, to a live block that lists it. */
  predicate CellSound(s: State, k: Id, i: nat)
    requires k in s.blocks && s.blocks[k].Shaped() && i < 2
  {
    var b := s.blocks[k];
    match b.cells[i]
    case Patched(m) =>
      && m in s.blocks && s.blocks[m].Shaped()
      && b.compiled[i] == Ip(s.blocks[m].addr)
      && (!b.jetsam ==> !s.blocks[m].jetsam && k in s.blocks[m].from[i])
    case other => other == b.compiled[i]
  }

  /** Whoever is on a jumps_from list is live and jumps there. */
  predicate ListSound(s: State, m: Id, i: nat)
    requires m in s.blocks && s.blocks[m].Shaped() && i < 2
  {
    forall k :: k in s.blocks[m].from[i] ==>
      && !s.blocks[m].jetsam
      && k in s.blocks && !s.blocks[k].jetsam && s.blocks[k].Shaped() && s.blocks[k].cells[i] == Patched(m)
  }

  predicate BlockSound(s: State, k: Id)
    requires k in s.blocks
  {
    && s.blocks[k].Shaped()
    && forall i :: 0 <= i < 2 ==> CellSound(s, k, i) && ListSound(s, k, i)
  }

  /** The hash table is the map from address to live block. */
  predicate IndexSound(s: State) {
    && (forall a :: a in s.index ==>
        s.index[a] in s.blocks && !s.blocks[s.index[a]].jetsam && s.blocks[s.index[a]].addr == a)
    && (forall k :: k in s.blocks && !s.blocks[k].jetsam ==>
        s.blocks[k].addr in s.index && s.index[s.blocks[k].addr] == k)
  }

  predicate ThreadsSound(s: State) {
    && (forall t :: t in s.threads ==> Refs(s.threads[t]) <= s.blocks.Keys && AtItsPc(s, s.threads[t]))
    && (s.writer ==> forall t :: t in s.threads ==> s.threads[t].Idle?)
  }

  /** The block a thread found or runs was compiled for its pc. */
  predicate AtItsPc(s: State, th: Thread) {
    th.Running? && th.block.Some? ==> th.block.value in s.blocks && s.blocks[th.block.value].addr == th.pc
  }

  predicate Sound(s: State) {
    && (forall k :: k in s.blocks ==> BlockSound(s, k))
    && IndexSound(s)
    && ThreadsSound(s)
    && s.freed !! s.blocks.Keys
  }

  // ---- every step keeps it ----

  /** Steps that change only a thread. */
  lemma ThreadStep(s: State, t: Tid, th: Thread)
    requires Sound(s) && Refs(th) <= s.blocks.Keys && AtItsPc(s, th) && (s.writer ==> th.Idle?)
    ensures Sound(WithThread(s, t, th))
  {
    var r := WithThread(s, t, th);
    forall k | k in r.blocks
      ensures BlockSound(r, k)
    {
      SameBlocks(s, r, k);
    }
  }

  lemma SameBlocks(s: State, r: State, k: Id)
    requires r.blocks == s.blocks && k in s.blocks && BlockSound(s, k)
    ensures BlockSound(r, k)
  {
    forall i | 0 <= i < 2
      ensures CellSound(r, k, i) && ListSound(r, k, i)
    {
      assert CellSound(s, k, i) && ListSound(s, k, i);
    }
  }

  lemma CompileStep(s: State, ip: Addr, id: Id, cells: seq<Cell>)
    requires Sound(s) && ip !in s.index && id !in s.blocks && id !in s.freed
    requires |cells| == 2 && !cells[0].Patched? && !cells[1].Patched?
    ensures Sound(Inserted(s, ip, id, cells))
  {
    var r := Inserted(s, ip, id, cells);
    forall k | k in r.blocks
      ensures BlockSound(r, k)
    {
      if k != id {
        hide IndexSound, ThreadsSound;
        MoreBlocks(s, r, k);
      }
    }
    hide BlockSound;
  }

  /** A block is as sound with more blocks around it. */
  lemma MoreBlocks(s: State, r: State, k: Id)
    requires k in s.blocks && BlockSound(s, k)
    requires forall m :: m in s.blocks ==> m in r.blocks && r.blocks[m] == s.blocks[m]
    ensures BlockSound(r, k)
  {
    forall i | 0 <= i < 2
      ensures CellSound(r, k, i) && ListSound(r, k, i)
    {
      assert CellSound(s, k, i) && ListSound(s, k, i);
    }
  }

  /** What a step changes in the cells and lists of one block, all else being as it was. */
  predicate SameOutline(s: State, r: State) {
    && r.blocks.Keys == s.blocks.Keys && r.index == s.index && r.freed == s.freed
    && r.threads == s.threads && r.writer == s.writer
    && forall k :: k in s.blocks ==> r.blocks[k].addr == s.blocks[k].addr && r.blocks[k].jetsam == s.blocks[k].jetsam
  }

  lemma OutlineSound(s: State, r: State)
    requires Sound(s) && SameOutline(s, r) && forall k :: k in r.blocks ==> BlockSound(r, k)
    ensures Sound(r)
  {
    hide BlockSound;
  }

  lemma PatchedOutline(s: State, last: Id, b: Id)
    ensures SameOutline(s, PatchCells(s, last, b))
  {
  }

  lemma PatchStep(s: State, last: Id, b: Id)
    requires Sound(s) && last in s.blocks && b in s.blocks
    ensures Sound(PatchCells(s, last, b))
  {
    hide IndexSound, ThreadsSound, PatchCells;
    var r := PatchCells(s, last, b);
    PatchedOutline(s, last, b);
    assert BlockSound(s, last) && BlockSound(s, b);
    forall k | k in r.blocks
      ensures BlockSound(r, k)
    {
      assert BlockSound(s, k);
      PatchedBlock(s, last, b, k);
    }
    OutlineSound(s, r);
  }

  lemma PatchedBlock(s: State, last: Id, b: Id, k: Id)
    requires last in s.blocks && b in s.blocks && k in s.blocks
    requires BlockSound(s, last) && BlockSound(s, b) && BlockSound(s, k)
    ensures k in PatchCells(s, last, b).blocks && BlockSound(PatchCells(s, last, b), k)
  {
    var r := PatchCells(s, last, b);
    forall i | 0 <= i < 2
      ensures CellSound(r, k, i) && ListSound(r, k, i)
    {
      assert CellSound(s, k, i) && ListSound(s, k, i);
      assert CellSound(s, last, i) && ListSound(s, b, i);
    }
  }

  lemma DisconnectStep(s: State, id: Id)
    requires Sound(s) && id in s.blocks && !s.blocks[id].jetsam
    ensures Sound(Disconnected(s, id))
  {
    var r := Disconnected(s, id);
    assert BlockSound(s, id);
    forall k | k in r.blocks
      ensures BlockSound(r, k)
    {
      hide IndexSound, ThreadsSound, Disconnected;
      assert BlockSound(s, k);
      DisconnectedBlock(s, id, k);
    }
    hide BlockSound;
  }

  lemma DisconnectedBlock(s: State, id: Id, k: Id)
    requires id in s.blocks && !s.blocks[id].jetsam && k in s.blocks
    requires BlockSound(s, id) && BlockSound(s, k)
    ensures k in Disconnected(s, id).blocks && BlockSound(Disconnected(s, id), k)
  {
    var r := Disconnected(s, id);
    forall i | 0 <= i < 2
      ensures CellSound(r, k, i) && ListSound(r, k, i)
    {
      assert CellSound(s, k, i) && ListSound(s, k, i);
      assert CellSound(s, id, i) && ListSound(s, id, i);
    }
  }

  lemma FreeStep(s: State)
    requires Sound(s) && s.writer
    ensures Sound(Next(s, FreeJetsam))
  {
    var r := Next(s, FreeJetsam);
    forall k | k in r.blocks
      ensures BlockSound(r, k)
    {
      assert BlockSound(s, k);
      forall i | 0 <= i < 2
        ensures CellSound(r, k, i) && ListSound(r, k, i)
      {
        assert CellSound(s, k, i) && ListSound(s, k, i);
      }
    }
  }

  lemma NextSound(s: State, e: Event)
    requires Sound(s) && Enabled(s, e)
    ensures Sound(Next(s, e))
  {
    hide Disconnected, PatchCells;
    match e
    case Begin(t, pc) => ThreadStep(s, t, Running(pc, map[], None, None));
    case Hit(t, slot) => ThreadStep(s, t, s.threads[t].(block := Some(s.threads[t].cache[slot])));
    case Find(t, slot) => FindStep(s, t, slot);
    case Compile(t, slot, id, cells) =>
      CompileStep(s, s.threads[t].pc, id, cells);
      FindStep(Inserted(s, s.threads[t].pc, id, cells), t, slot);
    case Enter(t) => EnterStep(s, t);
    case Chain(t, i) =>
      var b := s.threads[t].block.value;
      assert BlockSound(s, b);
      assert CellSound(s, b, i);
      var next := Some(s.blocks[b].cells[i].target);
      ThreadStep(s, t, s.threads[t].(pc := JumpsTo(s.blocks[b], i), last := next, block := next));
    case Leave(t, pc) => ThreadStep(s, t, s.threads[t].(pc := pc, block := None));
    case End(t) => ThreadStep(s, t, Idle);
    case Invalidate(id) => DisconnectStep(s, id);
    case WriteLock => OnlyWriter(s, true);
    case FreeJetsam => FreeStep(s);
    case WriteUnlock => OnlyWriter(s, false);
  }

  lemma FindStep(s: State, t: Tid, slot: nat)
    requires Sound(s) && IsRunning(s, t) && s.threads[t].pc in s.index
    ensures Sound(Found(s, t, slot, s.index[s.threads[t].pc]))
  {
    var id := s.index[s.threads[t].pc];
    var th := s.threads[t].(block := Some(id), cache := s.threads[t].cache[slot := id]);
    assert th.cache.Values <= s.threads[t].cache.Values + {id};
    assert Refs(th) <= Refs(s.threads[t]) + {id};
    ThreadStep(s, t, th);
  }

  lemma EnterStep(s: State, t: Tid)
    requires Sound(s) && Enabled(s, Enter(t))
    ensures Sound(Next(s, Enter(t)))
  {
    hide PatchCells;
    var th := s.threads[t];
    var b := th.block.value;
    var r := if th.last.Some? then PatchCells(s, th.last.value, b) else s;
    if th.last.Some? {
      PatchStep(s, th.last.value, b);
      PatchedOutline(s, th.last.value, b);
    }
    ThreadStep(r, t, th.(last := Some(b)));
  }

  lemma OnlyWriter(s: State, writer: bool)
    requires Sound(s) && (writer ==> forall t :: t in s.threads ==> s.threads[t].Idle?)
    ensures Sound(s.(writer := writer))
  {
    var r := s.(writer := writer);
    forall k | k in r.blocks
      ensures BlockSound(r, k)
    {
      SameBlocks(s, r, k);
    }
  }

  // ---- every run ----

  /** The states a run goes through, one step of some thread after another. */
  ghost predicate IsRun(states: seq<State>, events: seq<Event>) {
    && |states| == |events| + 1 && states[0] == Initial
    && forall i :: 0 <= i < |events| ==> Enabled(states[i], events[i]) && states[i + 1] == Next(states[i], events[i])
  }

  lemma {:induction false} RunsSound(states: seq<State>, events: seq<Event>, n: nat)
    requires IsRun(states, events) && n < |states|
    ensures Sound(states[n])
  {
    if n > 0 {
      RunsSound(states, events, n - 1);
      NextSound(states[n - 1], events[n - 1]);
    }
  }

  /** A chain of patched cells. */
  predicate IsChain(s: State, path: seq<Id>) {
    forall j :: 0 <= j < |path| - 1 ==> Jumps(s, path[j], path[j + 1])
  }

  predicate Jumps(s: State, k: Id, m: Id) {
    k in s.blocks && Patched(m) in s.blocks[k].cells
  }

  lemma JumpSound(s: State, k: Id, m: Id)
    requires Sound(s) && Jumps(s, k, m)
    ensures m in s.blocks
    ensures !s.blocks[k].jetsam ==> !s.blocks[m].jetsam
  {
    var i :| 0 <= i < |s.blocks[k].cells| && s.blocks[k].cells[i] == Patched(m);
    assert BlockSound(s, k);
    assert CellSound(s, k, i);
  }

  lemma {:induction false} ChainSound(s: State, path: seq<Id>, n: nat)
    requires Sound(s) && IsChain(s, path) && n < |path| && path[0] in s.blocks
    ensures path[n] in s.blocks
    ensures !s.blocks[path[0]].jetsam ==> !s.blocks[path[n]].jetsam
  {
    if n > 0 {
      ChainSound(s, path, n - 1);
      JumpSound(s, path[n - 1], path[n]);
    }
  }

  /** In every run, no block that a running thread can reach, from its cache, its
      last block or the one it runs, along any chain of patched cells, has been freed;
      and a chain that starts in a live block stays among live blocks. */
  lemma NoUseAfterFree(states: seq<State>, events: seq<Event>, n: nat, t: Tid, path: seq<Id>, j: nat)
    requires IsRun(states, events) && n < |states|
    requires IsRunning(states[n], t) && j < |path|
    requires path[0] in Refs(states[n].threads[t]) && IsChain(states[n], path)
    ensures path[0] in states[n].blocks && path[j] in states[n].blocks && path[j] !in states[n].freed
    ensures !states[n].blocks[path[0]].jetsam ==> !states[n].blocks[path[j]].jetsam
  {
    RunsSound(states, events, n);
    var s := states[n];
    assert Refs(s.threads[t]) <= s.blocks.Keys;
    ChainSound(s, path, j);
  }

  /** In every run, a jump that has been patched goes to a block compiled for the
      guest address the jump was compiled with. */
  lemma PatchedJumpsAreFaithful(states: seq<State>, events: seq<Event>, n: nat, k: Id, i: nat)
    requires IsRun(states, events) && n < |states|
    requires k in states[n].blocks && i < 2 && |states[n].blocks[k].cells| == 2 && states[n].blocks[k].cells[i].Patched?
    ensures var s, b := states[n], states[n].blocks[k];
      && b.cells[i].target in s.blocks
      && |b.compiled| == 2 && b.compiled[i] == Ip(s.blocks[b.cells[i].target].addr)
  {
    RunsSound(states, events, n);
    assert BlockSound(states[n], k);
    assert CellSound(states[n], k, i);
  }

  /** In every run, a thread only ever runs code compiled for the guest address it is at,
      whether it found the block in its cache or the table, compiled it, or came by a chained
      jump, whose target is where the jump was compiled to go. */
  lemma RunsItsPc(states: seq<State>, events: seq<Event>, n: nat, t: Tid)
    requires IsRun(states, events) && n < |states| && IsRunning(states[n], t) && states[n].threads[t].block.Some?
    ensures var s, th := states[n], states[n].threads[t];
      th.block.value in s.blocks && s.blocks[th.block.value].addr == th.pc
    ensures n < |events| && events[n].Chain? && events[n].t == t ==>
              var b := states[n].blocks[states[n].threads[t].block.value];
              && events[n].i < |b.compiled| && t in states[n + 1].threads && states[n + 1].threads[t].Running?
              && b.compiled[events[n].i] == Ip(states[n + 1].threads[t].pc)
              && states[n + 1].threads[t].block.Some?
  {
    RunsSound(states, events, n);
    if n < |events| && events[n].Chain? && events[n].t == t {
      var k := states[n].threads[t].block.value;
      assert BlockSound(states[n], k);
      assert CellSound(states[n], k, events[n].i);
    }
  }

  // ---- what the steps do ----

  /** Invalidating a block takes it out of the table and sends every jump patched to it by
      another live block back to the dispatcher; nothing else changes. */
  lemma InvalidateEffect(s: State, id: Id)
    requires Sound(s) && Enabled(s, Invalidate(id))
    ensures var r := Next(s, Invalidate(id));
      && r.blocks.Keys == s.blocks.Keys && r == s.(blocks := r.blocks, index := r.index)
      && r.index == s.index - {s.blocks[id].addr}
      && forall k :: k in s.blocks ==> Redirected(s.blocks[k], r.blocks[k], k, id)
  {
    assert BlockSound(s, id);
    assert (map a | a in s.index && s.index[a] != id :: s.index[a]) == s.index - {s.blocks[id].addr};
    forall k | k in s.blocks
      ensures k in Disconnected(s, id).blocks && Redirected(s.blocks[k], Disconnected(s, id).blocks[k], k, id)
    {
      InvalidatedBlock(s, id, k);
    }
  }

  predicate Redirected(b: Block, c: Block, k: Id, id: Id) {
    && c.addr == b.addr && c.compiled == b.compiled && (c.jetsam <==> k == id || b.jetsam)
    && |c.cells| == |b.cells| == |b.compiled| == 2
    && forall i :: 0 <= i < 2 ==>
         c.cells[i] == if k != id && !b.jetsam && b.cells[i] == Patched(id) then b.compiled[i] else b.cells[i]
  }

  lemma InvalidatedBlock(s: State, id: Id, k: Id)
    requires Sound(s) && id in s.blocks && !s.blocks[id].jetsam && k in s.blocks
    ensures k in Disconnected(s, id).blocks && Redirected(s.blocks[k], Disconnected(s, id).blocks[k], k, id)
  {
    assert BlockSound(s, id) && BlockSound(s, k);
    forall i | 0 <= i < 2
      ensures s.blocks[id].Shaped() && s.blocks[k].Shaped()
      ensures k in s.blocks[id].from[i] <==> !s.blocks[k].jetsam && s.blocks[k].cells[i] == Patched(id)
    {
      assert CellSound(s, k, i) && ListSound(s, id, i);
    }
  }

  /** Entering a block makes it the last one, and patches those jumps of the one before that
      are compiled to go to it and not yet patched, as long as both blocks are live. */
  lemma EnterEffect(s: State, t: Tid)
    requires Sound(s) && Enabled(s, Enter(t))
    ensures var r, th := Next(s, Enter(t)), s.threads[t];
      && r.blocks.Keys == s.blocks.Keys && r == s.(blocks := r.blocks, threads := s.threads[t := th.(last := th.block)])
      && forall k, i :: k in s.blocks && 0 <= i < |s.blocks[k].cells| ==>
           && |r.blocks[k].cells| == |s.blocks[k].cells|
           && r.blocks[k].cells[i] ==
              if th.last == Some(k) && s.blocks[k].cells[i] == Ip(th.pc)
                 && !s.blocks[k].jetsam && !s.blocks[th.block.value].jetsam
              then Patched(th.block.value) else s.blocks[k].cells[i]
  {
    assert AtItsPc(s, s.threads[t]);
  }

  /** A compiled block is live, has the jumps it was compiled with and is found under the
      thread's pc; the thread runs it next. */
  lemma CompileEffect(s: State, e: Event)
    requires Sound(s) && Enabled(s, e) && (e.Find? || e.Compile?)
    ensures var r, th := Next(s, e), s.threads[e.t];
      && th.pc in r.index && r.threads == s.threads[e.t := r.threads[e.t]]
      && r.threads[e.t] == th.(block := Some(r.index[th.pc]), cache := th.cache[e.slot := r.index[th.pc]])
      && (e.Find? ==> r.blocks == s.blocks && r.index == s.index)
      && (e.Compile? ==>
            && r.blocks == s.blocks[e.id := r.blocks[e.id]] && r.index == s.index[th.pc := e.id]
            && r.blocks[e.id].addr == th.pc && r.blocks[e.id].cells == e.cells && !r.blocks[e.id].jetsam)
  {
  }

  /** A thread at the dispatcher always has exactly one way on: its cache, the table, or the
      compiler. */
  lemma DispatchesOneWay(s: State, t: Tid, slot: nat, id: Id, cells: seq<Cell>)
    requires IsRunning(s, t) && id !in s.blocks && id !in s.freed
    requires |cells| == 2 && !cells[0].Patched? && !cells[1].Patched?
    ensures var th := s.threads[t];
      var hit := slot in th.cache && th.cache[slot] in s.blocks && s.blocks[th.cache[slot]].addr == th.pc;
      && (Enabled(s, Hit(t, slot)) <==> hit)
      && (Enabled(s, Find(t, slot)) <==> !hit && th.pc in s.index)
      && (Enabled(s, Compile(t, slot, id, cells)) <==> !hit && th.pc !in s.index)
  {
  }

  /** The writer is alone: jetsam_lock is taken for writing only when no thread runs, nobody
      begins to run before it is let go, and then anybody may. */
  lemma WriterAlone(s: State, t: Tid, pc: Addr)
    requires Sound(s) && !IsRunning(s, t)
    ensures Enabled(s, WriteLock) <==> !s.writer && forall u :: !IsRunning(s, u)
    ensures Enabled(s, WriteLock) ==>
              var r := Next(s, WriteLock);
                  r == s.(writer := true) && !Enabled(r, Begin(t, pc)) && Enabled(r, FreeJetsam)
    ensures s.writer ==>
              Enabled(s, WriteUnlock) && var r := Next(s, WriteUnlock); r.blocks == s.blocks && Enabled(r, Begin(t, pc))
    ensures Enabled(s, Begin(t, pc)) <==> !s.writer
  {
    if forall u :: !IsRunning(s, u) {
      forall u | u in s.threads
        ensures s.threads[u].Idle?
      {
        assert !IsRunning(s, u);
      }
    }
  }

  /** Exactly the invalidated blocks are freed. */
  lemma FreeEffect(s: State)
    requires Sound(s) && s.writer
    ensures var r := Next(s, FreeJetsam);
      && (forall k :: k in r.blocks <==> k in s.blocks && !s.blocks[k].jetsam)
      && (forall k :: k in r.blocks ==> r.blocks[k] == s.blocks[k])
      && (forall k :: k in r.freed <==> k in s.freed || (k in s.blocks && s.blocks[k].jetsam))
      && r.index == s.index && r.threads == s.threads
  {
  }
}
