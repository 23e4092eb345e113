/** The hash of interned inodes in fs/inode.c, in place, under inodes_lock. */
module InodeTable {
  import opened Options
  import FakeFs

  /** What tells inodes apart: the mount, and the key in it. */
  datatype Key = Key(mount: nat, local: FakeFs.Key)

  datatype Inode = Inode(key: Key, refcount: nat, sequence: nat)

  const BUCKETS: nat := 1024

  /** inode_hash */
  function Hash(key: Key): (h: nat)
    ensures h < BUCKETS
  {
    var device, number := key.local.device as bv64, key.local.number as bv64;
    var mixed := device ^ (device >> 32) ^ number ^ (number >> 32);
    Masked(mixed);
    (mixed & 1023) as nat
  }

  lemma Masked(x: bv64)
    ensures (x & 1023) as nat < 1024
  {
    assert x & 1023 < 1024;
  }

  /** The reference counts of one mount's inodes. */
  ghost function Interned(table: map<Key, Inode>, mount: nat): (m: map<FakeFs.Key, nat>)
    ensures forall k :: k in m <==> Key(mount, k) in table
    ensures forall k :: k in m ==> m[k] == table[Key(mount, k)].refcount
  {
    map key | key in table && key.mount == mount :: key.local := table[key].refcount
  }

  predicate Distinct(bucket: seq<Inode>) {
    forall i, j :: 0 <= i < j < |bucket| ==> bucket[i].key != bucket[j].key
  }

  /** An inode is in its own bucket, counted, and older than the next one. */
  ghost predicate Placed(inode: Inode, b: nat, table: map<Key, Inode>, last: nat) {
    && Hash(inode.key) == b && inode.key in table && table[inode.key] == inode
    && inode.refcount > 0 && inode.sequence <= last
  }

  /** Bucket b holds exactly the inodes of the table that hash to it. */
  ghost predicate Bucket(bucket: seq<Inode>, b: nat, table: map<Key, Inode>, last: nat) {
    && Distinct(bucket)
    && (forall i :: 0 <= i < |bucket| ==> Placed(bucket[i], b, table, last))
    && (forall key :: key in table && Hash(key) == b ==> table[key] in bucket && table[key].key == key)
  }

  /** A change of one key is a change of one bucket. */
  lemma OtherBucket(bucket: seq<Inode>, b: nat, table: map<Key, Inode>, last: nat, changed: map<Key, Inode>, key: Key,
      later: nat)
    requires Bucket(bucket, b, table, last) && Hash(key) != b && changed - {key} == table - {key} && last <= later
    ensures Bucket(bucket, b, changed, later)
  {
    forall k | k != key
      ensures (k in table <==> k in changed) && (k in table ==> table[k] == changed[k])
    {
      assert k in table - {key} <==> k in changed - {key};
      assert k in table ==> (table - {key})[k] == (changed - {key})[k];
    }
  }

  lemma BucketPlaces(bucket: seq<Inode>, b: nat, table: map<Key, Inode>, last: nat, i: nat)
    requires Bucket(bucket, b, table, last) && i < |bucket|
    ensures Placed(bucket[i], b, table, last)
  {
  }

  lemma BucketAdd(bucket: seq<Inode>, b: nat, table: map<Key, Inode>, last: nat, inode: Inode)
    requires Bucket(bucket, b, table, last) && Hash(inode.key) == b && inode.key !in table
    requires inode.refcount > 0 && inode.sequence == last + 1
    ensures Bucket([inode] + bucket, b, table[inode.key := inode], last + 1)
  {
    hide Hash;
    var more := [inode] + bucket;
    forall k | k in table[inode.key := inode] && Hash(k) == b
      ensures table[inode.key := inode][k] in more
    {
    }
  }

  lemma BucketUpdate(bucket: seq<Inode>, b: nat, table: map<Key, Inode>, last: nat, i: nat, inode: Inode)
    requires Bucket(bucket, b, table, last) && i < |bucket| && bucket[i].key == inode.key
    requires inode.refcount > 0 && inode.sequence <= last
    ensures Bucket(bucket[i := inode], b, table[inode.key := inode], last)
  {
    hide Hash;
    var r := bucket[i := inode];
    forall k | k in table && Hash(k) == b && k != inode.key
      ensures table[k] in r
    {
      var j :| 0 <= j < |bucket| && bucket[j] == table[k];
      assert r[j] == table[k];
    }
    assert r[i] == inode;
  }

  lemma BucketRemove(bucket: seq<Inode>, b: nat, table: map<Key, Inode>, last: nat, i: nat)
    requires Bucket(bucket, b, table, last) && i < |bucket|
    ensures Bucket(bucket[..i] + bucket[i + 1..], b, table - {bucket[i].key}, last)
  {
    hide Hash;
    var r := bucket[..i] + bucket[i + 1..];
    assert forall j :: 0 <= j < |r| ==> r[j] == bucket[if j < i then j else j + 1];
    forall k | k in table && Hash(k) == b && k != bucket[i].key
      ensures table[k] in r
    {
      var j :| 0 <= j < |bucket| && bucket[j] == table[k];
      assert r[if j < i then j else j - 1] == table[k];
    }
  }

  /** The buckets after one of them and one key of the table have changed. */
  lemma OneChanged(buckets: seq<seq<Inode>>, table: map<Key, Inode>, last: nat, key: Key, bucket: seq<Inode>,
      changed: map<Key, Inode>, later: nat, after: seq<seq<Inode>>)
    requires |buckets| == BUCKETS && forall b :: 0 <= b < BUCKETS ==> Bucket(buckets[b], b, table, last)
    requires changed - {key} == table - {key} && last <= later && Bucket(bucket, Hash(key), changed, later)
    requires after == buckets[Hash(key) := bucket]
    ensures forall b :: 0 <= b < BUCKETS ==> Bucket(after[b], b, changed, later)
  {
    forall b | 0 <= b < BUCKETS
      ensures Bucket(after[b], b, changed, later)
    {
      hide Hash, Bucket;
      if b != Hash(key) {
        OtherBucket(buckets[b], b, table, last, changed, key, later);
      }
    }
  }

  /** Only the inode's own mount sees a change, and sees it as the protocol's. */
  lemma TakenIs(table: map<Key, Inode>, key: Key, inode: Inode)
    requires inode.refcount == (if key in table then table[key].refcount else 0) + 1
    ensures Interned(table[key := inode], key.mount) == FakeFs.Taken(Interned(table, key.mount), key.local)
    ensures forall m: nat :: m != key.mount ==> Interned(table[key := inode], m) == Interned(table, m)
  {
    assert key == Key(key.mount, key.local);
    TakenOthers(table, key, inode);
  }

  lemma TakenOthers(table: map<Key, Inode>, key: Key, inode: Inode)
    ensures Interned(table[key := inode], key.mount) == Interned(table, key.mount)[key.local := inode.refcount]
    ensures forall m: nat :: m != key.mount ==> Interned(table[key := inode], m) == Interned(table, m)
  {
  }

  lemma DroppedIs(table: map<Key, Inode>, key: Key, after: map<Key, Inode>)
    requires key in table
    requires after == if table[key].refcount > 1 then table[key := table[key].(refcount := table[key].refcount - 1)]
        else table - {key}
    ensures Interned(after, key.mount) == FakeFs.Dropped(Interned(table, key.mount), key.local)
    ensures forall m: nat :: m != key.mount ==> Interned(after, m) == Interned(table, m)
    ensures key in after ==> FakeFs.Told(Interned(after, key.mount), key.local.number).Free?
  {
    assert key == Key(key.mount, key.local);
    if key in after {
      TakenOthers(table, key, after[key]);
      assert key.local in Interned(after, key.mount);
    } else {
      DroppedLast(table, key);
    }
  }

  lemma DroppedLast(table: map<Key, Inode>, key: Key)
    requires key in table
    ensures Interned(table - {key}, key.mount) == Interned(table, key.mount) - {key.local}
    ensures forall m: nat :: m != key.mount ==> Interned(table - {key}, m) == Interned(table, m)
  {
  }

  class Inodes {
    var buckets: seq<seq<Inode>>
    var lastSequence: nat
    ghost var table: map<Key, Inode>     // what the buckets hold

    ghost predicate Valid()
      reads this
    {
      |buckets| == BUCKETS && forall b :: 0 <= b < BUCKETS ==> Bucket(buckets[b], b, table, lastSequence)
    }

    constructor ()
      ensures Valid() && table == map[] && lastSequence == 0
    {
      buckets, lastSequence, table := seq(BUCKETS, _ => []), 0, map[];
    }

    /** inode_get_data */
    method Find(key: Key) returns (found: Option<nat>)
      requires Valid()
      ensures found.Some? <==> key in table
      ensures found.Some? ==>
          found.value < |buckets[Hash(key)]| && buckets[Hash(key)][found.value] == table[key] && table[key].key == key
    {
      hide Hash;
      var bucket := buckets[Hash(key)];
      assert Bucket(bucket, Hash(key), table, lastSequence);
      var i := 0;
      while i < |bucket|
        invariant 0 <= i <= |bucket| && forall j :: 0 <= j < i ==> bucket[j].key != key
      {
        if bucket[i].key == key {
          return Some(i);
        }
        i := i + 1;
      }
      found := None;
    }

    /** inode_number_is_live, over every bucket. */
    method NumberIsLive(mount: nat, number: FakeFs.Ino) returns (live: bool)
      requires Valid()
      ensures live <==> FakeFs.Live(Interned(table, mount), number)
    {
      hide Hash;
      var b := 0;
      while b < BUCKETS
        invariant 0 <= b <= BUCKETS
        invariant forall c, j :: 0 <= c < b && 0 <= j < |buckets[c]| ==>
            !(buckets[c][j].key.mount == mount && buckets[c][j].key.local.number == number)
      {
        var i := 0;
        while i < |buckets[b]|
          invariant 0 <= i <= |buckets[b]|
          invariant forall j :: 0 <= j < i ==>
              !(buckets[b][j].key.mount == mount && buckets[b][j].key.local.number == number)
        {
          if buckets[b][i].key.mount == mount && buckets[b][i].key.local.number == number {
            assert Bucket(buckets[b], b, table, lastSequence) && Placed(buckets[b][i], b, table, lastSequence);
            return true;
          }
          i := i + 1;
        }
        b := b + 1;
      }
      forall key | key in table
        ensures !(key.mount == mount && key.local.number == number)
      {
        assert Bucket(buckets[Hash(key)], Hash(key), table, lastSequence);
      }
      live := false;
    }

    /** inode_get_unlocked: the one inode of the key, with one more reference. A new inode
        gets a number that no inode before it had. */
    method Get(key: Key) returns (inode: Inode)
      requires Valid()
      modifies this
      ensures Valid() && table == old(table)[key := inode] && inode.key == key
      ensures if key in old(table)
        then inode == old(table)[key].(refcount := old(table)[key].refcount + 1) && lastSequence == old(lastSequence)
        else inode == Inode(key, 1, old(lastSequence) + 1) && lastSequence == old(lastSequence) + 1
      ensures Interned(table, key.mount) == FakeFs.Taken(Interned(old(table), key.mount), key.local)
      ensures forall m: nat :: m != key.mount ==> Interned(table, m) == Interned(old(table), m)
    {
      hide Hash, Bucket, FakeFs.Taken, Interned;
      var found := Find(key);
      var b := Hash(key);
      var bucket := buckets[b];
      assert Bucket(bucket, b, table, lastSequence);
      if found == None {
        lastSequence := lastSequence + 1;
        inode := Inode(key, 1, lastSequence);
        BucketAdd(bucket, b, table, lastSequence - 1, inode);
        bucket := [inode] + bucket;
      } else {
        inode := bucket[found.value];
        assert Placed(inode, b, table, lastSequence) by {
          BucketPlaces(bucket, b, table, lastSequence, found.value);
        }
        inode := inode.(refcount := inode.refcount + 1);
        BucketUpdate(bucket, b, table, lastSequence, found.value, inode);
        bucket := bucket[found.value := inode];
      }
      assert table[key := inode] - {key} == table - {key};
      OneChanged(buckets, table, old(lastSequence), key, bucket, table[key := inode], lastSequence,
          buckets[b := bucket]);
      TakenIs(table, key, inode);
      buckets, table := buckets[b := bucket], table[key := inode];
    }

    /** inode_release; orphaned says that the file system is told. */
    method Release(key: Key) returns (orphaned: bool)
      requires Valid() && key in table
      modifies this
      ensures Valid() && lastSequence == old(lastSequence)
      ensures if old(table)[key].refcount > 1
        then table == old(table)[key := old(table)[key].(refcount := old(table)[key].refcount - 1)] && !orphaned
        else table == old(table) - {key}
      ensures Interned(table, key.mount) == FakeFs.Dropped(Interned(old(table), key.mount), key.local)
      ensures orphaned <==> FakeFs.Told(Interned(table, key.mount), key.local.number).Orphaning?
      ensures forall m: nat :: m != key.mount ==> Interned(table, m) == Interned(old(table), m)
    {
      hide Hash, Bucket, FakeFs.Dropped, Interned, FakeFs.Live;
      var found := Find(key);
      var b, i := Hash(key), found.value;
      var bucket := buckets[b];
      var inode := bucket[i];
      assert Placed(inode, b, table, lastSequence) by {
        BucketPlaces(bucket, b, table, lastSequence, i);
      }
      if inode.refcount > 1 {
        inode := inode.(refcount := inode.refcount - 1);
        BucketUpdate(bucket, b, table, lastSequence, i, inode);
        assert table[key := inode] - {key} == table - {key};
        OneChanged(buckets, table, lastSequence, key, bucket[i := inode], table[key := inode], lastSequence,
            buckets[b := bucket[i := inode]]);
        DroppedIs(table, key, table[key := inode]);
        buckets, table := buckets[b := bucket[i := inode]], table[key := inode];
        return false;
      }
      BucketRemove(bucket, b, table, lastSequence, i);
      OneChanged(buckets, table, lastSequence, key, bucket[..i] + bucket[i + 1..], table - {key}, lastSequence,
          buckets[b := bucket[..i] + bucket[i + 1..]]);
      DroppedIs(table, key, table - {key});
      buckets, table := buckets[b := bucket[..i] + bucket[i + 1..]], table - {key};
      var live := NumberIsLive(key.mount, key.local.number);
      orphaned := !live;
    }

    /** inode_check_orphaned */
    method CheckOrphaned(mount: nat, number: FakeFs.Ino) returns (orphaned: bool)
      requires Valid()
      ensures orphaned <==> FakeFs.Told(Interned(table, mount), number).Orphaning?
    {
      var live := NumberIsLive(mount, number);
      orphaned := !live;
    }
  }
}
