/** The hash table and the page lists of asbestos/asbestos.c, in place. */
module BlockIndex {

  const PAGE_SIZE: nat := 4096
  const PAGE_HASH_SIZE: nat := 1024
  const ADDRESSES: nat := 0x1_0000_0000

  function Page(addr: nat): nat {
    addr / PAGE_SIZE
  }

  /** end is the last byte, as gen_end sets it. */
  datatype Block = Block(id: nat, addr: nat, end: nat, used: nat)

  /** The k-th byte of the block; addresses wrap at 2^32. */
  function ByteAt(b: Block, k: nat): nat {
    (b.addr + k) % ADDRESSES
  }

  function Extent(b: Block): nat {
    (b.end - b.addr) % ADDRESSES
  }

  /** A guest page some byte of the block lies in. */
  ghost predicate Touches(b: Block, page: nat) {
    exists k: nat :: k <= Extent(b) && Page(ByteAt(b, k)) == page
  }

  /** No longer than a page, as fiber_block_compile asserts. */
  predicate Short(b: Block) {
    b.addr < ADDRESSES && b.end < ADDRESSES && Extent(b) < PAGE_SIZE
  }

  /** A short block touches no page but its first and its last. */
  lemma TouchesEnds(b: Block, page: nat)
    requires Short(b) && Touches(b, page)
    ensures page == Page(b.addr) || page == Page(b.end)
  {
    var k: nat :| k <= Extent(b) && Page(ByteAt(b, k)) == page;
    ShortByte(b, k);
  }

  lemma ShortByte(b: Block, k: nat)
    requires Short(b) && k <= Extent(b)
    ensures Page(ByteAt(b, k)) == Page(b.addr) || Page(ByteAt(b, k)) == Page(b.end)
  {
    if b.end >= b.addr {
      assert Extent(b) == b.end - b.addr;
      assert ByteAt(b, k) == b.addr + k;
    } else {
      assert Extent(b) == b.end - b.addr + ADDRESSES;
      assert ByteAt(b, k) == if b.addr + k < ADDRESSES then b.addr + k else b.addr + k - ADDRESSES;
    }
  }

  /** The bytes of code of a set of live blocks. */
  ghost function TotalUsed(m: map<nat, Block>): nat {
    if m == map[] then 0
    else
      var a :| a in m;
      m[a].used + TotalUsed(m - {a})
  }

  lemma {:induction false} TotalUsedSplit(m: map<nat, Block>, a: nat)
    requires a in m
    ensures TotalUsed(m) == m[a].used + TotalUsed(m - {a})
    decreases |m|
  {
    var c :| c in m && TotalUsed(m) == m[c].used + TotalUsed(m - {c});
    if c != a {
      TotalUsedSplit(m - {c}, a);
      TotalUsedSplit(m - {a}, c);
      assert m - {c} - {a} == m - {a} - {c};
    }
  }

  /** list_remove */
  function Remove(s: seq<Block>, b: Block): (r: seq<Block>)
    ensures forall x :: x in r <==> x in s && x != b
  {
    if s == [] then [] else if s[0] == b then Remove(s[1..], b) else [s[0]] + Remove(s[1..], b)
  }

  function Bucket(addr: nat, size: nat): (i: nat)
    requires size > 0
    ensures i < size
  {
    addr % size
  }

  function StartList(b: Block): (p: nat)
    ensures p < PAGE_HASH_SIZE
  {
    Page(b.addr) % PAGE_HASH_SIZE
  }

  function EndList(b: Block): (p: nat)
    ensures p < PAGE_HASH_SIZE
  {
    Page(b.end) % PAGE_HASH_SIZE
  }

  /** The block ends in another page than it starts in. */
  predicate Spans(b: Block) {
    Page(b.addr) != Page(b.end)
  }

  class Asbestos {
    var hash: array<seq<Block>>
    const starts: array<seq<Block>>   // page_hash[..].blocks[0]
    const ends: array<seq<Block>>     // page_hash[..].blocks[1]
    var jetsam: seq<Block>
    var numBlocks: int
    var memUsed: int
    ghost var live: map<nat, Block>   // what the table stands for: address to live block

    ghost predicate Live(b: Block)
      reads this`live
    {
      b.addr in live && live[b.addr] == b
    }

    ghost predicate Arrays()
      reads this`hash
    {
      && starts != ends && hash != starts && hash != ends
      && hash.Length > 0 && starts.Length == PAGE_HASH_SIZE && ends.Length == PAGE_HASH_SIZE
    }

    ghost predicate Keyed()
      reads this`live
    {
      forall a :: a in live ==> live[a].addr == a
    }

    /** Each live block is in its bucket, and nothing else is in any. */
    ghost predicate HashSound()
      requires Arrays()
      reads this`hash, this`live, hash
    {
      forall i, b :: 0 <= i < hash.Length ==> (b in hash[i] <==> Live(b) && Bucket(b.addr, hash.Length) == i)
    }

    ghost predicate StartsSound()
      requires starts.Length == PAGE_HASH_SIZE
      reads this`live, starts
    {
      forall p, b :: 0 <= p < PAGE_HASH_SIZE ==> (b in starts[p] <==> Live(b) && StartList(b) == p)
    }

    ghost predicate EndsSound()
      requires ends.Length == PAGE_HASH_SIZE
      reads this`live, ends
    {
      forall p, b :: 0 <= p < PAGE_HASH_SIZE ==> (b in ends[p] <==> Live(b) && Spans(b) && EndList(b) == p)
    }

    /** The table and the lists hold the live blocks, each where it belongs. */
    ghost predicate Lists()
      requires Arrays()
      reads this`hash, this`live, hash, starts, ends
    {
      Keyed() && HashSound() && StartsSound() && EndsSound()
    }

    ghost predicate Valid()
      reads this`hash, this`live, this`numBlocks, this`memUsed, hash, starts, ends
    {
      Arrays() && Lists() && numBlocks == |live| && memUsed == TotalUsed(live)
    }

    constructor (hashSize: nat)
      requires hashSize > 0
      ensures Valid() && live == map[] && jetsam == []
      ensures fresh(hash) && fresh(starts) && fresh(ends)
    {
      hash := new seq<Block>[hashSize](_ => []);
      starts := new seq<Block>[PAGE_HASH_SIZE](_ => []);
      ends := new seq<Block>[PAGE_HASH_SIZE](_ => []);
      jetsam := [];
      numBlocks, memUsed := 0, 0;
      live := map[];
    }

    /** fiber_lookup */
    method Lookup(addr: nat) returns (found: bool, block: Block)
      requires Valid()
      ensures found <==> addr in live
      ensures found ==> block == live[addr]
      ensures !found ==> block == Block(0, 0, 0, 0)
    {
      block := Block(0, 0, 0, 0);
      var bucket := hash[Bucket(addr, hash.Length)];
      var i := 0;
      while i < |bucket|
        invariant 0 <= i <= |bucket|
        invariant forall j :: 0 <= j < i ==> bucket[j].addr != addr
      {
        if bucket[i].addr == addr {
          assert bucket[i] in hash[Bucket(addr, hash.Length)];
          return true, bucket[i];
        }
        i := i + 1;
      }
      assert addr in live ==> Live(live[addr]);
      found := false;
    }

    /** fiber_resize_hash: every block moves to its bucket in the new table. */
    method Resize(newSize: nat)
      requires Arrays() && Lists() && newSize > 0
      modifies this`hash
      ensures Arrays() && Lists() && hash.Length == newSize && fresh(hash)
    {
      hide Bucket, StartsSound, EndsSound, Keyed;
      var newHash := new seq<Block>[newSize](_ => []);
      var i := 0;
      while i < hash.Length
        invariant 0 <= i <= hash.Length
        invariant forall n, b :: 0 <= n < newSize ==>
          (b in newHash[n] <==> Live(b) && Bucket(b.addr, hash.Length) < i && Bucket(b.addr, newSize) == n)
        modifies newHash
      {
        MoveBucket(hash[i], newHash);
        i := i + 1;
      }
      hash := newHash;
    }

    static method MoveBucket(bucket: seq<Block>, newHash: array<seq<Block>>)
      requires newHash.Length > 0
      modifies newHash
      ensures forall n, b :: 0 <= n < newHash.Length ==>
        (b in newHash[n] <==> b in old(newHash[n]) || (b in bucket && Bucket(b.addr, newHash.Length) == n))
    {
      hide Bucket;
      var j := 0;
      while j < |bucket|
        invariant 0 <= j <= |bucket|
        invariant forall n, b :: 0 <= n < newHash.Length ==>
          (b in newHash[n] <==> b in old(newHash[n]) || (b in bucket[..j] && Bucket(b.addr, newHash.Length) == n))
      {
        var n := Bucket(bucket[j].addr, newHash.Length);
        assert bucket[..j + 1] == bucket[..j] + [bucket[j]];
        newHash[n] := [bucket[j]] + newHash[n];
        j := j + 1;
      }
      assert bucket[..j] == bucket;
    }

    /** fiber_insert, for an address that fiber_lookup did not find. */
    method Insert(b: Block)
      requires Valid() && b.addr !in live
      modifies this`hash, this`numBlocks, this`memUsed, this`live, hash, starts, ends
      ensures Valid() && live == old(live)[b.addr := b]
      ensures hash == old(hash) || fresh(hash)
    {
      hide Keyed, HashSound, StartsSound, EndsSound;
      memUsed := memUsed + b.used;
      numBlocks := numBlocks + 1;
      if numBlocks >= hash.Length * 2 {
        Resize(hash.Length * 2);
      }
      ghost var before := live;
      Link(b);
      TotalUsedSplit(live, b.addr);
      assert live - {b.addr} == before;
    }

    /** The three list insertions of fiber_insert. */
    method Link(b: Block)
      requires Arrays() && Lists() && b.addr !in live
      modifies this`live, hash, starts, ends
      ensures Arrays() && Lists() && live == old(live)[b.addr := b]
    {
      hide Bucket, StartList, EndList;
      var h, p, q := Bucket(b.addr, hash.Length), StartList(b), EndList(b);
      hash[h] := [b] + hash[h];
      starts[p] := [b] + starts[p];
      if Spans(b) {
        ends[q] := [b] + ends[q];
      }
      live := live[b.addr := b];
      assert forall x: Block :: Live(x) <==> old(Live(x)) || x == b;
      assert HashSound();
      assert StartsSound();
      assert EndsSound();
    }

    /** fiber_block_disconnect, on the table and the lists. */
    method Disconnect(b: Block)
      requires Valid() && Live(b)
      modifies this`numBlocks, this`memUsed, this`live, hash, starts, ends
      ensures Valid() && live == old(live) - {b.addr}
    {
      hide Keyed, HashSound, StartsSound, EndsSound;
      TotalUsedSplit(live, b.addr);
      memUsed := memUsed - b.used;
      numBlocks := numBlocks - 1;
      Unlink(b);
    }

    method Unlink(b: Block)
      requires Arrays() && Lists() && Live(b)
      modifies this`live, hash, starts, ends
      ensures Arrays() && Lists() && live == old(live) - {b.addr}
    {
      hide Bucket, StartList, EndList, Remove;
      var h, p, q := Bucket(b.addr, hash.Length), StartList(b), EndList(b);
      hash[h] := Remove(hash[h], b);
      starts[p] := Remove(starts[p], b);
      ends[q] := Remove(ends[q], b);
      live := live - {b.addr};
      assert forall x: Block :: Live(x) <==> old(Live(x)) && x != b;
      assert HashSound();
      assert StartsSound();
      assert EndsSound();
    }

    /** A block is thrown overboard: disconnected, and put on the jetsam list. */
    method Jettison(b: Block)
      requires Valid() && Live(b)
      modifies this`numBlocks, this`memUsed, this`live, this`jetsam, hash, starts, ends
      ensures Valid() && live == old(live) - {b.addr} && jetsam == [b] + old(jetsam)
      ensures forall x: Block :: Live(x) <==> old(Live(x)) && x != b
    {
      Disconnect(b);
      jetsam := [b] + jetsam;
    }

    /** The inner loop of asbestos_invalidate_range over the blocks that start in a page list. */
    method DrainStarts(p: nat)
      requires Valid() && p < PAGE_HASH_SIZE
      modifies this`numBlocks, this`memUsed, this`live, this`jetsam, hash, starts, ends
      ensures Valid()
      ensures forall b: Block :: Live(b) <==> old(Live(b)) && StartList(b) != p
      ensures forall b: Block :: b in jetsam <==> b in old(jetsam) || (old(Live(b)) && StartList(b) == p)
    {
      hide StartList, EndList, Bucket;
      while starts[p] != []
        invariant Valid()
        invariant forall b: Block :: Live(b) ==> old(Live(b))
        invariant forall b: Block :: old(Live(b)) && !Live(b) ==> StartList(b) == p
        invariant forall b: Block :: b in jetsam <==> b in old(jetsam) || (old(Live(b)) && !Live(b))
        decreases |live|
      {
        var b := starts[p][0];
        assert b in starts[p];
        Jettison(b);
      }
      assert forall b: Block :: Live(b) && StartList(b) == p ==> b in starts[p];
    }

    /** The same over the blocks that end in a page list and start in another page. */
    method DrainEnds(p: nat)
      requires Valid() && p < PAGE_HASH_SIZE
      modifies this`numBlocks, this`memUsed, this`live, this`jetsam, hash, starts, ends
      ensures Valid()
      ensures forall b: Block :: Live(b) <==> old(Live(b)) && !(Spans(b) && EndList(b) == p)
      ensures forall b: Block :: b in jetsam <==> b in old(jetsam) || (old(Live(b)) && Spans(b) && EndList(b) == p)
    {
      hide StartList, EndList, Bucket, Spans;
      while ends[p] != []
        invariant Valid()
        invariant forall b: Block :: Live(b) ==> old(Live(b))
        invariant forall b: Block :: old(Live(b)) && !Live(b) ==> Spans(b) && EndList(b) == p
        invariant forall b: Block :: b in jetsam <==> b in old(jetsam) || (old(Live(b)) && !Live(b))
        decreases |live|
      {
        var b := ends[p][0];
        assert b in ends[p];
        Jettison(b);
      }
      assert forall b: Block :: Live(b) && Spans(b) && EndList(b) == p ==> b in ends[p];
    }

    /** asbestos_invalidate_range: exactly the blocks on the lists of those pages go,
        and no short block that is left touches any of the pages. */
    method InvalidateRange(start: nat, end: nat)
      requires Valid()
      modifies this`numBlocks, this`memUsed, this`live, this`jetsam, hash, starts, ends
      ensures Valid()
      ensures forall b: Block :: Live(b) <==> old(Live(b)) && !Hit(b, start, end)
      ensures forall b: Block :: b in jetsam <==> b in old(jetsam) || (old(Live(b)) && Hit(b, start, end))
      ensures forall b: Block, page: nat :: Live(b) && Short(b) && start <= page < end ==> !Touches(b, page)
    {
      hide StartList, EndList, Bucket, Spans, Lists, Touches;
      var page := start;
      while page < end
        invariant start <= page && (page <= end || page == start)
        invariant Valid()
        invariant forall b: Block :: Live(b) <==> old(Live(b)) && !Hit(b, start, page)
        invariant forall b: Block :: b in jetsam <==> b in old(jetsam) || (old(Live(b)) && Hit(b, start, page))
      {
        DrainStarts(page % PAGE_HASH_SIZE);
        DrainEnds(page % PAGE_HASH_SIZE);
        forall b: Block
          ensures Hit(b, start, page + 1) <==> Hit(b, start, page) || OnList(b, page)
        {
          HitNext(b, start, page);
        }
        page := page + 1;
      }
      forall b: Block, q: nat | !Hit(b, start, end) && Short(b) && start <= q < end
        ensures !Touches(b, q)
      {
        NotHitNotTouched(b, start, end, q);
      }
    }
  }

  /** The block is on one of the two lists that the page hashes to. */
  predicate OnList(b: Block, page: nat) {
    StartList(b) == page % PAGE_HASH_SIZE || (Spans(b) && EndList(b) == page % PAGE_HASH_SIZE)
  }

  predicate Hit(b: Block, start: nat, end: nat) {
    exists page: nat :: start <= page < end && OnList(b, page)
  }

  /** A block goes only if the page of its first or of its last byte is, up to a multiple of 1024
      pages, one of the range. */
  lemma HitNear(b: Block, start: nat, end: nat) returns (page: int)
    requires Hit(b, start, end)
    ensures start <= page < end && ((page - b.addr / 4096) % 1024 == 0 || (page - b.end / 4096) % 1024 == 0)
  {
    page :| 0 <= start <= page < end && OnList(b, page);
    SameRemainder(page, b.addr / 4096);
    SameRemainder(page, b.end / 4096);
  }

  lemma SameRemainder(x: nat, y: nat)
    ensures x % 1024 == y % 1024 ==> (x - y) % 1024 == 0
  {
  }

  lemma HitNext(b: Block, start: nat, page: nat)
    requires start <= page
    ensures Hit(b, start, page + 1) <==> Hit(b, start, page) || OnList(b, page)
  {
  }

  lemma NotHitNotTouched(b: Block, start: nat, end: nat, page: nat)
    requires !Hit(b, start, end) && Short(b) && start <= page < end
    ensures !Touches(b, page)
  {
    assert !OnList(b, page);
    if Touches(b, page) {
      TouchesEnds(b, page);
    }
  }
}
