/** POSIX record locks of fs/lock.c: one list of byte ranges per inode, grouped by
    owner, changed in place. Its meaning is the set of (owner, byte, kind) triples
    held, as IEEE Std 1003.1 describes fcntl() record locking. */
module FileLocks {

  datatype Kind = ReadLock | WriteLock | Unlock

  type Owner = nat

  datatype FileLock = FileLock(start: int, end: int, kind: Kind, owner: Owner, pid: int) {
    predicate Has(b: int) {
      start <= b <= end
    }
  }

  const OFF_MAX: int := 0x7fff_ffff_ffff_ffff

  predicate Overlap(a: FileLock, b: FileLock) {
    a.end >= b.start && b.end >= a.start
  }

  predicate Conflict(a: FileLock, b: FileLock) {
    a.owner != b.owner && Overlap(a, b) && (a.kind == WriteLock || b.kind == WriteLock)
  }

  predicate Adjacent(a: FileLock, b: FileLock) {
    a.end == b.start - 1 || b.end == a.start - 1
  }

  // ---- the meaning of a list ----

  ghost predicate Holds(locks: seq<FileLock>, o: Owner, b: int, k: Kind) {
    exists i :: 0 <= i < |locks| && locks[i].owner == o && locks[i].Has(b) && locks[i].kind == k
  }

  /** The list after a request has been granted, byte by byte: exactly the bytes of
      the request change hands, and only for the requesting owner. */
  ghost predicate Granted(before: seq<FileLock>, request: FileLock, after: seq<FileLock>) {
    forall o: Owner, b: int, k: Kind :: Holds(after, o, b, k) <==>
      if o == request.owner && request.Has(b) then k == request.kind && k != Unlock
      else Holds(before, o, b, k)
  }

  // ---- canonical lists ----

  predicate WellFormed(l: FileLock) {
    0 <= l.start <= l.end <= OFF_MAX && l.kind != Unlock
  }

  /** Two locks of one owner share no byte, and could not have been merged. */
  predicate Apart(a: FileLock, b: FileLock) {
    a.owner == b.owner ==> !Overlap(a, b) && !(a.kind == b.kind && Adjacent(a, b))
  }

  predicate ApartFromAll(l: FileLock, locks: seq<FileLock>) {
    forall i :: 0 <= i < |locks| ==> Apart(l, locks[i])
  }

  predicate Absent(o: Owner, locks: seq<FileLock>) {
    forall i :: 0 <= i < |locks| ==> locks[i].owner != o
  }

  /** Well formed, pairwise apart, and each owner's locks next to each other. */
  predicate Canonical(locks: seq<FileLock>) {
    locks != [] ==>
      && WellFormed(locks[0])
      && ApartFromAll(locks[0], locks[1..])
      && (|locks| > 1 && locks[1].owner != locks[0].owner ==> Absent(locks[0].owner, locks[1..]))
      && Canonical(locks[1..])
  }

  /** No byte is write-locked by one owner while another owner holds it. */
  ghost predicate Compatible(locks: seq<FileLock>) {
    forall o: Owner, p: Owner, b: int, k: Kind :: Holds(locks, o, b, WriteLock) && Holds(locks, p, b, k) ==> o == p
  }

  /** What a caller of file_lock_acquire passes. */
  predicate Request(r: FileLock) {
    0 <= r.start <= r.end <= OFF_MAX
  }

  predicate Conflicts(locks: seq<FileLock>, r: FileLock) {
    exists i :: 0 <= i < |locks| && Conflict(locks[i], r)
  }

  /** A request conflicts exactly when some other owner holds one of its bytes and either side writes. */
  lemma ConflictsByByte(locks: seq<FileLock>, r: FileLock)
    requires Canonical(locks) && Request(r)
    ensures Conflicts(locks, r) <==>
            exists o: Owner, b: int, k: Kind ::
              Holds(locks, o, b, k) && o != r.owner && r.Has(b) && (k == WriteLock || r.kind == WriteLock)
  {
    if Conflicts(locks, r) {
      var i :| 0 <= i < |locks| && Conflict(locks[i], r);
      var b := if locks[i].start < r.start then r.start else locks[i].start;
      CanonicalAt(locks, i);
      assert Holds(locks, locks[i].owner, b, locks[i].kind);
    }
  }

  lemma {:induction false} CanonicalAt(locks: seq<FileLock>, i: nat)
    requires Canonical(locks) && i < |locks|
    ensures WellFormed(locks[i])
  {
    if i > 0 {
      CanonicalAt(locks[1..], i - 1);
    }
  }

  // ---- placing a granted request ----

  function Extend(r: FileLock, l: FileLock): FileLock {
    r.(start := if l.start < r.start then l.start else r.start, end := if l.end > r.end then l.end else r.end)
  }

  predicate Merges(r: FileLock, l: FileLock) {
    r.kind == l.kind && (Overlap(l, r) || Adjacent(r, l))
  }

  /** What is left of a lock of another kind under a request. */
  function Pieces(r: FileLock, l: FileLock): seq<FileLock> {
    if !Overlap(l, r) then [l]
    else if r.start > l.start && r.end < l.end then [l.(end := r.start - 1), l.(start := r.end + 1)]
    else if r.start <= l.start && r.end >= l.end then []
    else if l.start < r.start then [l.(end := r.start - 1)]
    else [l.(start := r.end + 1)]
  }

  function Tail(r: FileLock): seq<FileLock> {
    if r.kind != Unlock then [r] else []
  }

  /** The pass of file_lock_acquire over the list. */
  function Place(r: FileLock, locks: seq<FileLock>, found: bool): seq<FileLock>
    decreases |locks|
  {
    if locks == [] then Tail(r)
    else
      var l, rest := locks[0], locks[1..];
      if l.owner != r.owner then
        if found then Tail(r) + locks else [l] + Place(r, rest, false)
      else if Merges(r, l) then Place(Extend(r, l), rest, true)
      else if r.kind == l.kind then [l] + Place(r, rest, true)
      else Pieces(r, l) + Place(r, rest, true)
  }

  /** Whether that pass notifies the waiters. */
  predicate Notifies(r: FileLock, locks: seq<FileLock>, found: bool)
    decreases |locks|
  {
    if locks == [] then false
    else
      var l, rest := locks[0], locks[1..];
      if l.owner != r.owner then
        if found then false else Notifies(r, rest, false)
      else if Merges(r, l) then Notifies(Extend(r, l), rest, true)
      else (r.kind != l.kind && Overlap(l, r)) || Notifies(r, rest, true)
  }

  // ---- what the pass means, byte by byte ----

  lemma HoldsCons(l: FileLock, rest: seq<FileLock>, o: Owner, b: int, k: Kind)
    ensures Holds([l] + rest, o, b, k) <==> (l.owner == o && l.Has(b) && l.kind == k) || Holds(rest, o, b, k)
  {
    var all := [l] + rest;
    if Holds(all, o, b, k) {
      var i :| 0 <= i < |all| && all[i].owner == o && all[i].Has(b) && all[i].kind == k;
      if i > 0 {
        assert rest[i - 1] == all[i];
      }
    }
    if l.owner == o && l.Has(b) && l.kind == k {
      assert all[0] == l;
    }
    if Holds(rest, o, b, k) {
      var i :| 0 <= i < |rest| && rest[i].owner == o && rest[i].Has(b) && rest[i].kind == k;
      assert all[i + 1] == rest[i];
    }
  }

  lemma HoldsPieces(r: FileLock, l: FileLock, rest: seq<FileLock>, o: Owner, b: int, k: Kind)
    requires WellFormed(l) && Request(r)
    ensures Holds(Pieces(r, l) + rest, o, b, k) <==>
            (l.owner == o && l.Has(b) && !r.Has(b) && l.kind == k) || Holds(rest, o, b, k)
  {
    var p := Pieces(r, l);
    if |p| == 0 {
      assert p + rest == rest;
    } else if |p| == 1 {
      HoldsCons(p[0], rest, o, b, k);
      assert p + rest == [p[0]] + rest;
    } else {
      HoldsCons(p[0], [p[1]] + rest, o, b, k);
      HoldsCons(p[1], rest, o, b, k);
      assert p + rest == [p[0]] + ([p[1]] + rest);
    }
  }

  /** A lock apart from all the others of its owner is the only one to hold its bytes. */
  lemma NoneHolds(l: FileLock, rest: seq<FileLock>, b: int, k: Kind)
    requires l.Has(b) && ApartFromAll(l, rest)
    ensures !Holds(rest, l.owner, b, k)
  {
  }

  lemma {:induction false} PlaceGrants(r: FileLock, locks: seq<FileLock>, found: bool, o: Owner, b: int, k: Kind)
    requires Canonical(locks) && Request(r)
    requires found && locks != [] && locks[0].owner != r.owner ==> Absent(r.owner, locks)
    ensures Holds(Place(r, locks, found), o, b, k) <==>
            if o == r.owner && r.Has(b) then k == r.kind && k != Unlock else Holds(locks, o, b, k)
    decreases |locks|
  {
    if locks == [] {
      HoldsCons(r, [], o, b, k);
      assert [r] + [] == [r];
    } else {
      var l, rest := locks[0], locks[1..];
      assert locks == [l] + rest;
      HoldsCons(l, rest, o, b, k);
      if l.owner != r.owner {
        if found {
          assert !Holds(locks, r.owner, b, k);
          if r.kind != Unlock {
            HoldsCons(r, locks, o, b, k);
          } else {
            assert Tail(r) + locks == locks;
          }
        } else {
          PlaceGrants(r, rest, false, o, b, k);
          HoldsCons(l, Place(r, rest, false), o, b, k);
        }
      } else {
        GroupGoesOn(locks);
        if Merges(r, l) {
          PlaceGrants(Extend(r, l), rest, true, o, b, k);
          if l.Has(b) {
            NoneHolds(l, rest, b, k);
          }
        } else if r.kind == l.kind {
          PlaceGrants(r, rest, true, o, b, k);
          HoldsCons(l, Place(r, rest, true), o, b, k);
        } else {
          PlaceGrants(r, rest, true, o, b, k);
          HoldsPieces(r, l, Place(r, rest, true), o, b, k);
        }
      }
    }
  }

  /** After a lock, its owner's locks go on at once or are over. */
  lemma GroupGoesOn(locks: seq<FileLock>)
    requires Canonical(locks) && locks != []
    ensures |locks| > 1 && locks[1].owner != locks[0].owner ==> Absent(locks[0].owner, locks[1..])
  {
  }

  // ---- the pass keeps the list canonical ----

  /** x stays clear of what the pass will leave for its owner: of the request and of every lock. */
  predicate Clear(x: FileLock, r: FileLock, locks: seq<FileLock>) {
    ApartFromAll(x, locks) && (x.owner == r.owner ==> !Overlap(x, r) && !(x.kind == r.kind && Adjacent(x, r)))
  }

  lemma {:induction false} ClearOfPlaced(x: FileLock, r: FileLock, locks: seq<FileLock>, found: bool)
    requires Canonical(locks) && Request(r) && WellFormed(x)
    requires Clear(x, r, locks)
    ensures ApartFromAll(x, Place(r, locks, found))
    decreases |locks|
  {
    if locks != [] {
      var l, rest := locks[0], locks[1..];
      assert Apart(x, l);
      assert ApartFromAll(x, rest) by {
        forall i | 0 <= i < |rest| ensures Apart(x, rest[i]) { assert rest[i] == locks[i + 1]; }
      }
      if l.owner != r.owner {
        if !found {
          ClearOfPlaced(x, r, rest, false);
        }
      } else if Merges(r, l) {
        ClearOfPlaced(x, Extend(r, l), rest, true);
      } else if r.kind == l.kind {
        ClearOfPlaced(x, r, rest, true);
      } else {
        ClearOfPlaced(x, r, rest, true);
      }
    }
  }

  /** An owner that neither requests nor appears does not appear afterwards. */
  lemma {:induction false} StaysAbsent(o: Owner, r: FileLock, locks: seq<FileLock>, found: bool)
    requires o != r.owner && Absent(o, locks)
    ensures Absent(o, Place(r, locks, found))
    decreases |locks|
  {
    if locks != [] {
      var l, rest := locks[0], locks[1..];
      assert l.owner != o;
      if l.owner != r.owner {
        if !found {
          StaysAbsent(o, r, rest, false);
        }
      } else if Merges(r, l) {
        StaysAbsent(o, Extend(r, l), rest, true);
      } else {
        StaysAbsent(o, r, rest, true);
      }
    }
  }

  /** Once in the owner's group, the owner's locks come first or not at all. */
  lemma {:induction false} GroupFirst(r: FileLock, locks: seq<FileLock>)
    requires locks != [] && locks[0].owner != r.owner ==> Absent(r.owner, locks)
    requires Canonical(locks)
    ensures var placed := Place(r, locks, true);
      placed != [] && placed[0].owner != r.owner ==> Absent(r.owner, placed)
    decreases |locks|
  {
    if locks != [] && locks[0].owner == r.owner {
      var l, rest := locks[0], locks[1..];
      if Merges(r, l) {
        GroupFirst(Extend(r, l), rest);
      } else {
        GroupFirst(r, rest);
      }
    }
  }

  /** Putting a lock of a group in front of a canonical list. */
  lemma CanonicalCons(l: FileLock, rest: seq<FileLock>)
    requires WellFormed(l) && ApartFromAll(l, rest) && Canonical(rest)
    requires rest != [] && rest[0].owner != l.owner ==> Absent(l.owner, rest)
    ensures Canonical([l] + rest)
  {
    assert ([l] + rest)[1..] == rest;
  }

  lemma {:induction false} PlaceCanonical(r: FileLock, locks: seq<FileLock>, found: bool)
    requires Canonical(locks) && Request(r)
    requires found && locks != [] && locks[0].owner != r.owner ==> Absent(r.owner, locks)
    ensures Canonical(Place(r, locks, found))
    decreases |locks|
  {
    if locks != [] {
      var l, rest := locks[0], locks[1..];
      if l.owner != r.owner {
        if found {
          if r.kind != Unlock {
            CanonicalCons(r, locks);
          } else {
            assert Tail(r) + locks == locks;
          }
        } else {
          PlaceCanonical(r, rest, false);
          OtherKept(r, l, rest);
        }
      } else if Merges(r, l) {
        PlaceCanonical(Extend(r, l), rest, true);
      } else {
        PlaceCanonical(r, rest, true);
        GroupFirst(r, rest);
        if r.kind == l.kind {
          ClearOfPlaced(l, r, rest, true);
          CanonicalCons(l, Place(r, rest, true));
        } else {
          PiecesCanonical(r, l, rest);
        }
      }
    }
  }

  /** A lock of another owner, before the group is found. */
  lemma OtherKept(r: FileLock, l: FileLock, rest: seq<FileLock>)
    requires Canonical([l] + rest) && Request(r) && l.owner != r.owner
    requires Canonical(Place(r, rest, false))
    ensures Canonical([l] + Place(r, rest, false))
  {
    var all := [l] + rest;
    assert all[1..] == rest && all[0] == l;
    ClearOfPlaced(l, r, rest, false);
    var placed := Place(r, rest, false);
    if rest != [] && rest[0].owner == l.owner {
      assert placed == [rest[0]] + Place(r, rest[1..], false);
    } else {
      StaysAbsent(l.owner, r, rest, false);
    }
    CanonicalCons(l, placed);
  }

  lemma PieceClear(r: FileLock, l: FileLock, i: nat, rest: seq<FileLock>)
    requires WellFormed(l) && Request(r) && l.owner == r.owner && l.kind != r.kind && i < |Pieces(r, l)|
    requires Canonical(rest) && ApartFromAll(l, rest)
    ensures WellFormed(Pieces(r, l)[i]) && Clear(Pieces(r, l)[i], r, rest)
  {
    forall j | 0 <= j < |rest|
      ensures Apart(Pieces(r, l)[i], rest[j])
    {
      assert Apart(l, rest[j]);
      CanonicalAt(rest, j);
    }
  }

  lemma PiecesCanonical(r: FileLock, l: FileLock, rest: seq<FileLock>)
    requires WellFormed(l) && Request(r) && l.owner == r.owner && l.kind != r.kind
    requires Canonical(rest) && ApartFromAll(l, rest)
    requires Canonical(Place(r, rest, true))
    requires var placed := Place(r, rest, true);
      placed != [] && placed[0].owner != r.owner ==> Absent(r.owner, placed)
    ensures Canonical(Pieces(r, l) + Place(r, rest, true))
  {
    hide Pieces, Place, Canonical, ApartFromAll, Absent, Request;
    var p, placed := Pieces(r, l), Place(r, rest, true);
    AtMostTwo(r, l);
    if |p| == 0 {
      assert p + placed == placed;
    } else if |p| == 1 {
      PiecePlaced(r, l, 0, rest);
      CanonicalCons(p[0], placed);
      assert p + placed == [p[0]] + placed;
    } else {
      PiecePlaced(r, l, 0, rest);
      PiecePlaced(r, l, 1, rest);
      CanonicalCons(p[1], placed);
      SecondPiece(r, l, placed);
      CanonicalCons(p[0], [p[1]] + placed);
      assert p + placed == [p[0]] + ([p[1]] + placed);
    }
  }

  lemma AtMostTwo(r: FileLock, l: FileLock)
    ensures |Pieces(r, l)| <= 2 && forall i :: 0 <= i < |Pieces(r, l)| ==> Pieces(r, l)[i].owner == l.owner
  {
  }

  lemma PiecePlaced(r: FileLock, l: FileLock, i: nat, rest: seq<FileLock>)
    requires WellFormed(l) && Request(r) && l.owner == r.owner && l.kind != r.kind && i < |Pieces(r, l)|
    requires Canonical(rest) && ApartFromAll(l, rest)
    ensures WellFormed(Pieces(r, l)[i]) && ApartFromAll(Pieces(r, l)[i], Place(r, rest, true))
  {
    hide Pieces, Place, Canonical, ApartFromAll;
    PieceClear(r, l, i, rest);
    ClearOfPlaced(Pieces(r, l)[i], r, rest, true);
  }

  /** The request lies between the two pieces. */
  lemma SecondPiece(r: FileLock, l: FileLock, placed: seq<FileLock>)
    requires WellFormed(l) && Request(r) && |Pieces(r, l)| == 2 && ApartFromAll(Pieces(r, l)[0], placed)
    ensures ApartFromAll(Pieces(r, l)[0], [Pieces(r, l)[1]] + placed)
  {
    assert Apart(Pieces(r, l)[0], Pieces(r, l)[1]);
    hide Pieces, Apart;
  }

  /** A canonical list is sparse: two locks of one owner share no byte, and between two of one
      kind there is a byte of neither. */
  lemma {:induction false} CanonicalGaps(locks: seq<FileLock>, i: nat, j: nat)
    requires Canonical(locks) && i < j < |locks| && locks[i].owner == locks[j].owner
    ensures locks[i].end < locks[j].start || locks[j].end < locks[i].start
    ensures locks[i].kind == locks[j].kind ==> locks[i].end + 1 < locks[j].start || locks[j].end + 1 < locks[i].start
    decreases i
  {
    if i > 0 {
      CanonicalGaps(locks[1..], i - 1, j - 1);
    } else {
      CanonicalAt(locks, j);
      assert locks[1..][j - 1] == locks[j];
    }
  }

  // ---- notification ----

  /** Waiters are told exactly when the pass cuts into a lock of another kind of the requester. */
  lemma {:induction false} NotifiesIff(r: FileLock, locks: seq<FileLock>, found: bool)
    requires Canonical(locks) && Request(r)
    requires found && locks != [] && locks[0].owner != r.owner ==> Absent(r.owner, locks)
    ensures Notifies(r, locks, found) <==> CutsInto(r, locks)
    decreases |locks|
  {
    if locks != [] {
      var l, rest := locks[0], locks[1..];
      CutsCons(r, l, rest);
      assert locks == [l] + rest;
      if l.owner != r.owner {
        if !found {
          NotifiesIff(r, rest, false);
        }
      } else {
        GroupGoesOn(locks);
        if Merges(r, l) {
          NotifiesIff(Extend(r, l), rest, true);
          CutsExtended(r, l, rest);
        } else {
          NotifiesIff(r, rest, true);
        }
      }
    }
  }

  predicate CutsInto(r: FileLock, locks: seq<FileLock>) {
    exists i :: 0 <= i < |locks| && locks[i].owner == r.owner && locks[i].kind != r.kind && Overlap(locks[i], r)
  }

  lemma CutsCons(r: FileLock, l: FileLock, rest: seq<FileLock>)
    ensures CutsInto(r, [l] + rest) <==> (l.owner == r.owner && l.kind != r.kind && Overlap(l, r)) || CutsInto(r, rest)
  {
    var all := [l] + rest;
    assert all[0] == l && all[1..] == rest;
    if CutsInto(r, rest) {
      var i :| 0 <= i < |rest| && rest[i].owner == r.owner && rest[i].kind != r.kind && Overlap(rest[i], r);
      assert all[i + 1] == rest[i];
    }
  }

  lemma CutsExtended(r: FileLock, l: FileLock, rest: seq<FileLock>)
    requires Canonical(rest) && Request(r) && WellFormed(l) && l.owner == r.owner && Merges(r, l)
        && ApartFromAll(l, rest)
    ensures CutsInto(Extend(r, l), rest) <==> CutsInto(r, rest)
  {
    forall i | 0 <= i < |rest| && rest[i].owner == r.owner
      ensures Overlap(rest[i], Extend(r, l)) <==> Overlap(rest[i], r)
    {
      CanonicalAt(rest, i);
      assert Apart(l, rest[i]);
    }
  }

  /** Whose process a lock of the list names: the request's, where the request has gone in
      with the locks it took up, or the one of the lock it is a piece of. */
  predicate FromRequest(x: FileLock, r: FileLock) {
    x.owner == r.owner && x.kind == r.kind && x.pid == r.pid && x.start <= r.start && r.end <= x.end
  }

  predicate PieceOf(x: FileLock, locks: seq<FileLock>) {
    exists i :: 0 <= i < |locks| && x == locks[i].(start := x.start, end := x.end)
                && locks[i].start <= x.start && x.end <= locks[i].end
  }

  lemma {:induction false} PlaceOrigins(r: FileLock, locks: seq<FileLock>, found: bool, k: nat)
    requires k < |Place(r, locks, found)|
    ensures FromRequest(Place(r, locks, found)[k], r) || PieceOf(Place(r, locks, found)[k], locks)
    decreases |locks|
  {
    if locks != [] {
      var l, rest := locks[0], locks[1..];
      var x := Place(r, locks, found)[k];
      if l.owner != r.owner && found {
        assert k >= |Tail(r)| ==> x == locks[k - |Tail(r)|];
      } else if l.owner == r.owner && Merges(r, l) {
        PlaceOrigins(Extend(r, l), rest, true, k);
        PieceOfRest(x, l, rest);
      } else {
        var now := if l.owner != r.owner || r.kind == l.kind then [l] else Pieces(r, l);
        var later := Place(r, rest, l.owner == r.owner);
        assert Place(r, locks, found) == now + later;
        if k < |now| {
          assert locks[0] == l && PieceOf(x, locks);
        } else {
          PlaceOrigins(r, rest, l.owner == r.owner, k - |now|);
          PieceOfRest(x, l, rest);
        }
      }
    }
  }

  lemma PieceOfRest(x: FileLock, l: FileLock, rest: seq<FileLock>)
    ensures PieceOf(x, rest) ==> PieceOf(x, [l] + rest)
  {
    if PieceOf(x, rest) {
      var i :| 0 <= i < |rest| && x == rest[i].(start := x.start, end := x.end) && rest[i].start <= x.start
          && x.end <= rest[i].end;
      assert ([l] + rest)[i + 1] == rest[i];
    }
  }

  // ---- removal of all locks of an owner ----

  function Without(locks: seq<FileLock>, o: Owner): seq<FileLock> {
    if locks == [] then []
    else if locks[0].owner == o then Without(locks[1..], o)
    else [locks[0]] + Without(locks[1..], o)
  }

  lemma {:induction false} WithoutHolds(locks: seq<FileLock>, gone: Owner, o: Owner, b: int, k: Kind)
    ensures Holds(Without(locks, gone), o, b, k) <==> o != gone && Holds(locks, o, b, k)
  {
    if locks != [] {
      var l, rest := locks[0], locks[1..];
      assert locks == [l] + rest;
      HoldsCons(l, rest, o, b, k);
      WithoutHolds(rest, gone, o, b, k);
      if l.owner != gone {
        HoldsCons(l, Without(rest, gone), o, b, k);
      }
    }
  }

  lemma {:induction false} WithoutKeeps(x: FileLock, locks: seq<FileLock>, gone: Owner)
    ensures ApartFromAll(x, locks) ==> ApartFromAll(x, Without(locks, gone))
    ensures Absent(x.owner, locks) ==> Absent(x.owner, Without(locks, gone))
    ensures x.owner != gone && locks != [] && locks[0].owner == x.owner ==>
              Without(locks, gone) != [] && Without(locks, gone)[0].owner == x.owner
  {
    if locks != [] {
      WithoutKeeps(x, locks[1..], gone);
    }
  }

  lemma {:induction false} WithoutCanonical(locks: seq<FileLock>, gone: Owner)
    requires Canonical(locks)
    ensures Canonical(Without(locks, gone))
  {
    if locks != [] {
      var l, rest := locks[0], locks[1..];
      WithoutCanonical(rest, gone);
      if l.owner != gone {
        WithoutKeeps(l, rest, gone);
        CanonicalCons(l, Without(rest, gone));
      }
    }
  }
}
