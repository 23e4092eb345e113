/** The operations of fs/lock.c on one inode, in place, against the per-byte meaning of its list. */
module RecordLocks {
  import opened FileLocks

  /** Granting a request that conflicts with nothing leaves the owners compatible. */
  lemma GrantCompatible(before: seq<FileLock>, r: FileLock, after: seq<FileLock>)
    requires Canonical(before) && Compatible(before) && Request(r)
    requires r.kind == Unlock || !Conflicts(before, r)
    requires Granted(before, r, after)
    ensures Compatible(after)
  {
    ConflictsByByte(before, r);
  }

  lemma PlaceIsGrant(r: FileLock, locks: seq<FileLock>)
    requires Canonical(locks) && Request(r)
    ensures Granted(locks, r, Place(r, locks, false))
  {
    forall o: Owner, b: int, k: Kind
      ensures Holds(Place(r, locks, false), o, b, k) <==>
              if o == r.owner && r.Has(b) then k == r.kind && k != Unlock else Holds(locks, o, b, k)
    {
      PlaceGrants(r, locks, false, o, b, k);
    }
  }

  /** One step of the pass, on the part of the list that is still to come. */
  lemma PlaceStep(r: FileLock, locks: seq<FileLock>, i: nat, found: bool)
    requires i < |locks|
    ensures
      var l, before, rest, placed := locks[i], locks[..i], locks[i + 1..], locks[..i] + Place(r, locks[i..], found);
      && locks[..i + 1] == before + [l]
      && if l.owner != r.owner then
           if found then placed == before + (Tail(r) + locks[i..]) else placed == (before + [l]) + Place(r, rest, false)
         else if Merges(r, l) then placed == before + [] + Place(Extend(r, l), rest, true)
         else if r.kind == l.kind then placed == (before + [l]) + Place(r, rest, true)
         else placed == (before + Pieces(r, l)) + Place(r, rest, true)
    ensures var l, rest := locks[i], locks[i + 1..];
      Notifies(r, locks[i..], found) ==
        if l.owner != r.owner then !found && Notifies(r, rest, false)
        else if Merges(r, l) then Notifies(Extend(r, l), rest, true)
        else (r.kind != l.kind && Overlap(l, r)) || Notifies(r, rest, true)
    ensures Pieces(r, locks[i]) ==
        if !Overlap(locks[i], r) then [locks[i]]
        else if r.start > locks[i].start && r.end < locks[i].end then
          [locks[i].(end := r.start - 1), locks[i].(start := r.end + 1)]
        else if r.start <= locks[i].start && r.end >= locks[i].end then []
        else if locks[i].start < r.start then [locks[i].(end := r.start - 1)]
        else [locks[i].(start := r.end + 1)]
  {
    var l, rest := locks[i], locks[i + 1..];
    assert locks[i..] == [l] + rest;
    PlaceCons(r, l, rest, found);
    hide Place, Notifies;
    assert locks[..i + 1] == locks[..i] + [l];
  }

  lemma PlaceCons(r: FileLock, l: FileLock, rest: seq<FileLock>, found: bool)
    ensures Place(r, [l] + rest, found) ==
      if l.owner != r.owner then (if found then Tail(r) + ([l] + rest) else [l] + Place(r, rest, false))
      else if Merges(r, l) then Place(Extend(r, l), rest, true)
      else if r.kind == l.kind then [l] + Place(r, rest, true)
      else Pieces(r, l) + Place(r, rest, true)
    ensures Notifies(r, [l] + rest, found) ==
      if l.owner != r.owner then !found && Notifies(r, rest, false)
      else if Merges(r, l) then Notifies(Extend(r, l), rest, true)
      else (r.kind != l.kind && Overlap(l, r)) || Notifies(r, rest, true)
  {
    assert ([l] + rest)[0] == l && ([l] + rest)[1..] == rest;
  }

  lemma PlaceEnd(r: FileLock, locks: seq<FileLock>, i: nat, found: bool)
    requires i <= |locks| && (i < |locks| ==> found && locks[i].owner != r.owner)
    ensures locks[..i] + Place(r, locks[i..], found) == if r.kind != Unlock then locks[..i] + [r] + locks[i..]
        else locks
    ensures !Notifies(r, locks[i..], found)
  {
    assert locks == locks[..i] + locks[i..];
    assert Place(r, locks[i..], found) == Tail(r) + locks[i..];
  }

  class Inode {
    var locks: seq<FileLock>
    var notifications: nat     // notify(&inode->posix_unlock) so far

    ghost predicate Valid()
      reads this
    {
      Canonical(locks) && Compatible(locks)
    }

    /** file_lock_test */
    method Test(r: FileLock) returns (found: bool, lock: FileLock)
      ensures found <==> Conflicts(locks, r)
      ensures found ==>
        exists i :: 0 <= i < |locks| && lock == locks[i] && Conflict(lock, r) && !Conflicts(locks[..i], r)
      ensures !found ==> lock == r
    {
      lock := r;
      var i := 0;
      while i < |locks|
        invariant 0 <= i <= |locks|
        invariant forall j :: 0 <= j < i ==> !Conflict(locks[j], r)
      {
        if Conflict(locks[i], r) {
          return true, locks[i];
        }
        i := i + 1;
      }
      found := false;
    }

    /** file_lock_acquire: one pass that merges, overrides, trims and splits in place. */
    method Acquire(r: FileLock) returns (granted: bool)
      requires Valid() && Request(r)
      modifies this
      ensures Valid()
      ensures granted <==> r.kind == Unlock || !Conflicts(old(locks), r)
      ensures !granted ==> locks == old(locks) && notifications == old(notifications)
      ensures granted ==> locks == Place(r, old(locks), false) && Granted(old(locks), r, locks)
      ensures granted ==> (notifications > old(notifications) <==> Notifies(r, old(locks), false))
    {
      if r.kind != Unlock {
        var conflict, _ := Test(r);
        if conflict {
          return false;
        }
      }
      ghost var before := locks;
      Pass(r);
      PlaceIsGrant(r, before);
      PlaceCanonical(r, before, false);
      GrantCompatible(before, r, locks);
      granted := true;
    }

    method Pass(r: FileLock)
      modifies this
      ensures locks == Place(r, old(locks), false)
      ensures notifications >= old(notifications)
      ensures notifications > old(notifications) <==> Notifies(r, old(locks), false)
    {
      hide Place, Notifies, Pieces;
      var request, found, i := r, false, 0;
      assert locks[0..] == locks && locks[..0] == [];
      while i < |locks|
        invariant 0 <= i <= |locks|
        invariant request.owner == r.owner && request.kind == r.kind
        invariant locks[..i] + Place(request, locks[i..], found) == Place(r, old(locks), false)
        invariant notifications >= old(notifications)
        invariant notifications > old(notifications) || Notifies(request, locks[i..], found)
              <==> Notifies(r, old(locks), false)
        decreases |locks| - i
      {
        var lock := locks[i];
        PlaceStep(request, locks, i, found);
        if lock.owner != request.owner {
          if found {
            break;
          }
          i := i + 1;
          continue;
        }
        found := true;
        if request.kind == lock.kind {
          if !Overlap(lock, request) && !Adjacent(request, lock) {
            i := i + 1;
            continue;
          }
          if lock.start < request.start {
            request := request.(start := lock.start);
          }
          if lock.end > request.end {
            request := request.(end := lock.end);
          }
          i := Replace(i, []);
        } else {
          if !Overlap(lock, request) {
            i := i + 1;
            continue;
          }
          notifications := notifications + 1;
          if request.start > lock.start && request.end < lock.end {
            i := Replace(i, [lock.(end := request.start - 1), lock.(start := request.end + 1)]);
          } else if request.start <= lock.start && request.end >= lock.end {
            i := Replace(i, []);
          } else if lock.start < request.start {
            i := Replace(i, [lock.(end := request.start - 1)]);
          } else {
            i := Replace(i, [lock.(start := request.end + 1)]);
          }
        }
      }
      PlaceEnd(request, locks, i, found);
      if request.kind != Unlock {
        locks := locks[..i] + [request] + locks[i..];
      }
    }

    /** The lock at i is deleted, trimmed or split in two; the cursor moves past what is left of it. */
    method Replace(i: nat, pieces: seq<FileLock>) returns (next: nat)
      requires i < |locks|
      modifies this`locks
      ensures locks == old(locks[..i]) + pieces + old(locks[i + 1..])
      ensures next == i + |pieces| <= |locks|
      ensures locks[..next] == old(locks[..i]) + pieces && locks[next..] == old(locks[i + 1..])
    {
      locks := locks[..i] + pieces + locks[i + 1..];
      next := i + |pieces|;
    }

    /** file_lock_remove_owned_by */
    method RemoveOwnedBy(owner: Owner)
      requires Valid()
      modifies this
      ensures Valid()
      ensures locks == Without(old(locks), owner)
      ensures forall o: Owner, b: int, k: Kind :: Holds(locks, o, b, k) <==> o != owner && Holds(old(locks), o, b, k)
      ensures notifications == old(notifications) + (if Absent(owner, old(locks)) then 0 else 1)
    {
      ghost var before := locks;
      var removed := Filter(owner);
      if removed {
        notifications := notifications + 1;
      }
      WithoutCanonical(before, owner);
      WithoutMeans(before, owner);
    }

    method Filter(owner: Owner) returns (removed: bool)
      modifies this`locks
      ensures locks == Without(old(locks), owner)
      ensures removed <==> !Absent(owner, old(locks))
    {
      ghost var before := locks;
      var i := 0;
      removed := false;
      assert locks[0..] == locks && locks[..0] == [];
      while i < |locks|
        invariant 0 <= i <= |locks|
        invariant locks[..i] + Without(locks[i..], owner) == Without(before, owner)
        invariant removed || (Absent(owner, locks[..i]) && locks == before)
        invariant removed ==> !Absent(owner, before)
        decreases |locks| - i
      {
        FilterStep(locks, i, owner);
        if locks[i].owner == owner {
          i := Replace(i, []);
          removed := true;
        } else {
          i := i + 1;
        }
      }
    }
  }

  /** The turn of the loop of file_lock_remove_owned_by at lock i. */
  lemma FilterStep(locks: seq<FileLock>, i: nat, owner: Owner)
    requires i < |locks|
    ensures var rest := Without(locks[i + 1..], owner);
      locks[..i] + Without(locks[i..], owner)
      == if locks[i].owner == owner then (locks[..i] + []) + rest else locks[..i + 1] + rest
    ensures Absent(owner, locks[..i]) && locks[i].owner != owner ==> Absent(owner, locks[..i + 1])
    ensures locks[i].owner == owner ==> !Absent(owner, locks)
  {
    assert locks[i..][0] == locks[i] && locks[i..][1..] == locks[i + 1..];
    assert locks[..i + 1] == locks[..i] + [locks[i]];
  }

  lemma WithoutMeans(locks: seq<FileLock>, gone: Owner)
    ensures forall o: Owner, b: int, k: Kind :: Holds(Without(locks, gone), o, b, k) <==>
        o != gone && Holds(locks, o, b, k)
  {
    forall o: Owner, b: int, k: Kind
      ensures Holds(Without(locks, gone), o, b, k) <==> o != gone && Holds(locks, o, b, k)
    {
      WithoutHolds(locks, gone, o, b, k);
    }
  }
}
