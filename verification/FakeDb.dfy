/** The transactions of fs/fake.c on the paths and stats tables, in place, against the steps
    of FakeFs. What the host file system answers is a parameter. */
module FakeDb {
  import opened FakeFs

  datatype Outcome<T> = Done(value: T) | HostError | Missing

  /** path_rename: the path itself and everything under it moves, replacing what was there. */
  predicate Under(path: Path, src: Path) {
    path == src || src + "/" <= path
  }

  predicate Moved(paths: map<Path, Ino>, src: Path, dst: Path, path: Path) {
    dst <= path && src + path[|dst|..] in paths && Under(src + path[|dst|..], src)
  }

  function Renamed(paths: map<Path, Ino>, src: Path, dst: Path): map<Path, Ino> {
    var moved := set p | p in paths && Under(p, src) :: dst + p[|src|..];
    map p | p in moved + paths.Keys && (Moved(paths, src, dst, p) || (p in paths && !Under(p, src))) ::
      if Moved(paths, src, dst, p) then paths[src + p[|dst|..]] else paths[p]
  }

  /** The path itself and every one that continues it after a slash names what it named, under
      its new name; any other path is as it was unless it has been moved onto, and there are no
      further ones. */
  lemma RenamedMeaning(paths: map<Path, Ino>, src: Path, dst: Path, p: Path, tail: string)
    ensures var r := Renamed(paths, src, dst);
      && (src in paths ==> dst in r && r[dst] == paths[src])
      && (src + "/" + tail in paths ==> dst + "/" + tail in r && r[dst + "/" + tail] == paths[src + "/" + tail])
    ensures var r := Renamed(paths, src, dst);
      var onto := (p == dst && src in paths) || (dst + "/" <= p && src + p[|dst|..] in paths);
      !onto ==> if p == src || src + "/" <= p then p !in r
                else (p in r <==> p in paths) && (p in paths ==> r[p] == paths[p])
  {
    Tails(src, dst, tail);
    if src in paths {
      MovedPath(paths, src, dst, src);
    }
    if src + "/" + tail in paths {
      MovedPath(paths, src, dst, src + "/" + tail);
    }
    assert src[|src|..] == [] && dst + [] == dst && src + [] == src;
    if dst <= p && p != dst && Moved(paths, src, dst, p) {
      assert src + p[|dst|..] != src;
      assert (src + p[|dst|..])[|src|] == '/';
      assert p == dst + p[|dst|..];
    }
  }

  lemma Tails(src: Path, dst: Path, tail: string)
    ensures src + "/" <= src + "/" + tail && dst + (src + "/" + tail)[|src|..] == dst + "/" + tail
  {
    assert (src + "/" + tail)[|src|..] == "/" + tail;
    assert dst + ("/" + tail) == dst + "/" + tail;
  }

  lemma MovedPath(paths: map<Path, Ino>, src: Path, dst: Path, p: Path)
    requires p in paths && Under(p, src)
    ensures dst + p[|src|..] in Renamed(paths, src, dst) && Renamed(paths, src, dst)[dst + p[|src|..]] == paths[p]
  {
    var q := dst + p[|src|..];
    assert q[|dst|..] == p[|src|..] && src + p[|src|..] == p;
    assert q in (set x | x in paths && Under(x, src) :: dst + x[|src|..]);
  }

  class Database {
    var paths: map<Path, Ino>
    var stats: map<Ino, Row>
    var births: nat
    var savedPaths: map<Path, Ino>
    var savedStats: map<Ino, Row>

    constructor (paths: map<Path, Ino>, stats: map<Ino, Row>, births: nat)
      ensures this.paths == paths && this.stats == stats && this.births == births
    {
      this.paths, this.stats, this.births := paths, stats, births;
      savedPaths, savedStats := paths, stats;
    }

    /** The database is the one of a state of the file system. */
    ghost predicate Shows(s: State)
      reads this
    {
      paths == s.paths && stats == s.stats && births == s.births
    }

    /** db_begin_write */
    method Begin()
      modifies this`savedPaths, this`savedStats
      ensures savedPaths == paths && savedStats == stats
    {
      savedPaths, savedStats := paths, stats;
    }

    /** db_rollback */
    method Rollback()
      modifies this`paths, this`stats
      ensures paths == savedPaths && stats == savedStats
    {
      paths, stats := savedPaths, savedStats;
    }

    /** path_create; SQLite picks a number that no row has. */
    method PathCreate(path: Path, number: Ino, meta: Meta)
      requires number !in stats
      modifies this`paths, this`stats, this`births
      ensures stats == old(stats)[number := Row(old(births), meta)] && paths == old(paths)[path := number]
          && births == old(births) + 1
    {
      stats := stats[number := Row(births, meta)];
      births := births + 1;
      paths := paths[path := number];
    }

    /** The transaction of fakefs_open_identity, once the host file is open, is the step by
        which a thread fetches a number; it fails only where that step is not possible. */
    method OpenIdentity(ghost s: State, t: Thread, path: Path, creates: bool, number: Ino, meta: Meta)
        returns (inode: Outcome<Ino>, created: bool)
      requires Sound(s) && Shows(s) && t !in s.opening && number !in stats
      modifies this
      ensures inode.Done? <==> Enabled(s, Open(t, path, creates, number, meta))
      ensures match inode
        case Done(n) => var r := Next(s, Open(t, path, creates, number, meta));
          Shows(r) && r.opening[t].number == n && (created <==> n !in s.stats)
        case _ => Shows(s) && !created
      ensures inode.Done? ==> path in paths && paths[path] == inode.value && inode.value in stats
      ensures created <==> creates && path !in old(paths)
      ensures created ==> paths == old(paths)[path := number] && stats == old(stats)[number := Row(old(births), meta)]
      ensures !created ==> paths == old(paths) && stats == old(stats)
    {
      Begin();
      created := false;
      inode := if path in paths then Done(paths[path]) else Missing;
      if creates && inode.Missing? {
        PathCreate(path, number, meta);
        inode, created := Done(paths[path]), true;
      }
    }

    /** fakefs_mkdir, fakefs_mknod and fakefs_symlink: the host first, then the row. */
    method Make(ghost s: State, path: Path, number: Ino, meta: Meta, host: bool) returns (out: Outcome<Ino>)
      requires Sound(s) && Shows(s) && number !in stats
      modifies this
      ensures if host
        then out == Done(number) && Shows(Next(s, Create(path, number, meta)))
        else out == HostError && Shows(s)
    {
      Begin();
      if !host {
        Rollback();
        return HostError;
      }
      PathCreate(path, number, meta);
      out := Done(number);
    }

    /** fakefs_link; path_link dies when the source has no row. */
    method Link(ghost s: State, src: Path, dst: Path, host: bool) returns (out: Outcome<Ino>)
      requires Sound(s) && Shows(s)
      modifies this
      ensures out.Done? <==> host && Enabled(s, FakeFs.Link(src, dst))
      ensures if out.Done? then Shows(Next(s, FakeFs.Link(src, dst))) && out.value in s.stats else Shows(s)
      ensures stats == old(stats)
      ensures out.Done? ==> src in old(paths) && out.value == old(paths)[src] && paths == old(paths)[dst := out.value]
      ensures !out.Done? ==> paths == old(paths)
    {
      Begin();
      if !host {
        Rollback();
        return HostError;
      }
      if src !in paths {
        return Missing;
      }
      out := Done(paths[src]);
      paths := paths[dst := paths[src]];
    }

    /** fakefs_rename: the paths first, then the host, whose failure takes the paths back. */
    method Rename(ghost s: State, src: Path, dst: Path, host: bool) returns (out: Outcome<()>)
      requires Sound(s) && Shows(s)
      modifies this
      ensures Enabled(s, FakeFs.Rename(Renamed(s.paths, src, dst)))
      ensures if host
        then out == Done(()) && Shows(Next(s, FakeFs.Rename(Renamed(s.paths, src, dst))))
        else out == HostError && Shows(s)
    {
      Begin();
      paths := Renamed(paths, src, dst);
      if !host {
        Rollback();
        return HostError;
      }
      out := Done(());
    }

    /** fakefs_unlink and fakefs_rmdir, up to the orphan check that the thread then owes. */
    method Unlink(ghost s: State, t: Thread, path: Path, host: bool) returns (out: Outcome<Ino>)
      requires Sound(s) && Shows(s) && t !in s.checks
      modifies this
      ensures out.Done? <==> host && Enabled(s, FakeFs.Unlink(t, path))
      ensures if out.Done?
        then Shows(Next(s, FakeFs.Unlink(t, path))) && Next(s, FakeFs.Unlink(t, path)).checks[t] == out.value
        else Shows(s)
    {
      Begin();
      if !host {
        Rollback();
        return HostError;
      }
      if path !in paths {
        return Missing;
      }
      out := Done(paths[path]);
      paths := paths - {path};
    }

    /** fakefs_inode_orphaned is the cleanup that the holder of inodes_lock has decided on:
        no row of an open file goes. */
    method InodeOrphaned(ghost s: State, number: Ino)
      requires Sound(s) && Shows(s) && s.lock == Orphaning(number)
      modifies this
      ensures Shows(Next(s, Cleanup))
      ensures forall h :: h in s.holders && s.holders[h].Opened? ==> HasRow(stats, s.holders[h])
    {
      NextSound(s, Cleanup);
      Begin();
      if number !in paths.Values {
        stats := stats - {number};
      }
    }

    /** fakefs_setattr, but for the size. */
    method Setattr(ghost s: State, path: Path, meta: Meta) returns (out: Outcome<Ino>)
      requires Sound(s) && Shows(s)
      modifies this
      ensures Shows(Next(s, FakeFs.Setattr(path, meta))) && paths == old(paths)
      ensures path !in old(paths) ==> out == Missing && stats == old(stats)
      ensures path in old(paths) ==> out == Done(old(paths)[path]) && out.value in old(stats)
      ensures path in old(paths) ==> stats == old(stats)[out.value := old(stats)[out.value].(meta := meta)]
    {
      Begin();
      if path !in paths {
        Rollback();
        return Missing;
      }
      out := Done(paths[path]);
      stats := stats[out.value := stats[out.value].(meta := meta)];
    }

    /** fakefs_fsetattr on an open file, but for the size. inode_read_stat_or_die finds the row. */
    method Fsetattr(ghost s: State, h: nat, number: Ino, meta: Meta)
      requires Sound(s) && Shows(s) && h in s.holders && s.holders[h].Opened? && s.holders[h].key.number == number
      modifies this
      ensures Shows(Next(s, FakeFs.Fsetattr(h, meta))) && number in stats
          && stats[number] == Row(s.holders[h].birth, meta)
    {
      FsetattrFindsRow(s, h, meta);
      Begin();
      var row := stats[number];
      stats := stats[number := row.(meta := meta)];
    }
  }
}
