/**
  The file system program: table files read and written a record at a time, backing files, and
  the inode counter, changed in place. Each method is proved to do to the store what the
  function of the same name in module Store, or the machine in module Unlinking, does.
*/
module Safs {
  import opened Bytes
  import opened Codecs
  import opened Layout
  import opened Table
  import opened Store
  import opened System
  import Spec = Store
  import opened Unlinking

  class Safs {
    var directory: TableFile?<Dentry>     // Directory~, missing only after a failed unlink
    var tmpDirectory: TableFile?<Dentry>  // .Directory~
    const inodes: TableFile<Stat>         // Inodes~
    var backing: map<Name, seq<byte>>     // the other files under /tmp/safs/, by name
    var inodeNumber: counter

    ghost predicate Files()
      reads this, directory, tmpDirectory, inodes
    {
      && inodes.Valid() && inodes.zero == NO_STAT
      && (directory != null ==> directory.Valid() && directory.zero == FREE)
      && (tmpDirectory != null ==> tmpDirectory.Valid() && tmpDirectory.zero == FREE)
      && (directory != null ==> directory != tmpDirectory)
    }

    static ghost function Records(f: TableFile?<Dentry>): Option<seq<Dentry>>
      requires f != null ==> f.Valid()
      reads f
    {
      if f == null then None else Some(f.contents)
    }

    ghost function State(): Store
      requires Files() && directory != null
      reads this, directory, tmpDirectory, inodes
    {
      Store(directory.contents, Records(tmpDirectory), inodes.contents, backing, inodeNumber)
    }

    ghost predicate Valid()
      reads this, directory, tmpDirectory, inodes
    {
      Files() && (directory != null ==> WellFormed(State()))
    }

    /** `safs_init` on an empty disk. */
    constructor ()
      ensures Valid() && directory != null && State() == FRESH
      ensures fresh(directory) && fresh(inodes)
    {
      DentryLayout();
      StatLayout();
      directory := new TableFile(DENTRY);
      tmpDirectory := null;
      inodes := new TableFile(STAT);
      backing, inodeNumber := map[], 1;
    }

    /** The counter scan of `safs_init` over a table that is already there. */
    method Reload()
      requires Valid() && directory != null
      modifies this`inodeNumber
      ensures Valid() && State() == old(State()).(next := MaxInum(old(State()).dir, old(inodeNumber)))
    {
      var fd := new Cursor(directory);
      ghost var dir, i := directory.contents, 0;
      assert dir[0..] == dir;
      var ok, dentry := fd.Next(FREE);
      while ok
        invariant fd.Valid() && fd.file == directory && fresh(fd)
        invariant i <= |dir| && (if ok then i < |dir| && fd.index == i + 1 && dentry == dir[i] else i == |dir|)
        invariant MaxInum(dir[i..], inodeNumber) == MaxInum(dir, old(inodeNumber))
        decreases |dir| - i + (if ok then 1 else 0)
      {
        MaxInumStep(dir, i, inodeNumber);
        if dentry.inum > inodeNumber {
          inodeNumber := dentry.inum;
        }
        i := i + 1;
        ok, dentry := fd.Next(dentry);
      }
    }

    /** The scan every operation starts with; `dir` is what it leaves in the buffer. */
    method Search(fd: Cursor<Dentry>, name: FileName) returns (found: bool, dir: Dentry, index: nat)
      requires fd.Valid() && fd.index == 0
      modifies fd
      ensures fd.Valid()
      ensures index == Find(fd.file.contents, name)
      ensures found == (index < |fd.file.contents|)
      ensures found ==> dir == fd.file.contents[index]
    {
      ghost var t := fd.file.contents;
      index := 0;
      var ok;
      ok, dir := fd.Next(FREE);
      while ok
        invariant fd.Valid() && fd.file.contents == t
        invariant index <= |t| && forall j | 0 <= j < index :: !Hit(t[j], name)
        invariant ok ==> index < |t| && fd.index == index + 1 && dir == t[index]
        invariant !ok ==> index == |t|
        decreases |t| - index + (if ok then 1 else 0)
      {
        if name == dir.name && dir.inum != 0 {
          FindIs(t, name, index);
          return true, dir, index;
        }
        index := index + 1;
        ok, dir := fd.Next(dir);
      }
      FindIs(t, name, index);
      found := false;
    }

    /** The scan for an unused slot, from the start; `dir` is the last record it read. */
    method SearchFree(fd: Cursor<Dentry>, buf: Dentry) returns (dir: Dentry, index: nat)
      requires fd.Valid() && fd.file.contents != []
      modifies fd
      ensures fd.Valid()
      ensures index == FreeSlot(fd.file.contents)
      ensures dir.inum == Leftover(fd.file.contents)
    {
      ghost var t := fd.file.contents;
      index := 0;
      fd.Seek(0);
      var ok;
      ok, dir := fd.Next(buf);
      while ok
        invariant fd.Valid() && fd.file.contents == t
        invariant index <= |t| && forall j | 0 <= j < index :: !Unused(t[j])
        invariant if ok then index < |t| && fd.index == index + 1 && dir == t[index]
                  else index == |t| && dir == t[|t| - 1]
        decreases |t| - index + (if ok then 1 else 0)
      {
        if dir.name == DOT || dir.name == DOTDOT {
          index := index + 1;
          ok, dir := fd.Next(dir);
          continue;
        }
        if dir.inum == 0 {
          break;
        }
        index := index + 1;
        ok, dir := fd.Next(dir);
      }
      FreeSlotIs(t, index);
    }

    /** `read_inode` into the caller's record, which keeps its value when there is none of that number. */
    method ReadInode(inum: nat, metadata: Stat) returns (ok: bool, st: Stat)
      requires inodes.Valid() && inodes.zero == NO_STAT
      ensures ok == (inum < |inodes.contents|)
      ensures st == if ok then inodes.contents[inum] else metadata
    {
      var fd := new Cursor(inodes);
      fd.Seek(inum);
      ok, st := fd.Next(metadata);
    }

    /** `write_inode`, which may extend the file. */
    method WriteInode(inum: nat, st: Stat)
      requires inodes.Valid() && inodes.zero == NO_STAT
      modifies inodes
      ensures inodes.Valid() && inodes.contents == SetInode(old(inodes.contents), inum, st)
    {
      var fd := new Cursor(inodes);
      fd.Seek(inum);
      fd.Write(st);
    }

    method Rename(oldname: FileName, newname: FileName) returns (rc: int)
      requires Valid()
      modifies this, directory
      ensures Valid() && directory == old(directory)
      ensures directory == null ==> rc == -EIO
      ensures directory != null ==> (State(), rc) == Spec.Rename(old(State()), oldname, newname)
    {
      if directory == null { return -EIO; }
      var fd := new Cursor(directory);
      var found, dir, index := Search(fd, oldname);
      if !found { return -ENOENT; }
      dir := dir.(name := newname);
      fd.Seek(index);
      fd.Write(dir);
      rc := 0;
      assert State() == Spec.Rename(old(State()), oldname, newname).0;
    }

    method Link(path1: FileName, path2: FileName) returns (rc: int)
      requires Valid()
      modifies this, directory, inodes
      ensures Valid() && directory == old(directory)
      ensures directory == null ==> rc == -EIO
      ensures directory != null ==> (State(), rc) == Spec.Link(old(State()), path1, path2)
    {
      if directory == null { return -EIO; }
      ghost var s := State();
      LinkWellFormed(s, path1, path2);
      var fd := new Cursor(directory);
      var found, dir, _ := Search(fd, path1);
      if !found { return -ENOENT; }
      var newDir := Dentry(path2, dir.storage, dir.inum);
      var index;
      dir, index := SearchFree(fd, dir);
      fd.Seek(index);
      fd.Write(newDir);
      var _, st := ReadInode(dir.inum, NO_STAT);
      WriteInode(dir.inum, Relink(st, 1));
      rc := 0;
      assert State() == Spec.Link(s, path1, path2).0;
    }

    method Chmod(path: FileName, mode: word) returns (rc: int)
      requires Valid()
      modifies this, inodes
      ensures Valid() && directory == old(directory)
      ensures directory == null ==> rc == -EIO
      ensures directory != null ==> (State(), rc) == Spec.Chmod(old(State()), path, mode)
    {
      if directory == null { return -EIO; }
      var fd := new Cursor(directory);
      var found, dir, _ := Search(fd, path);
      if !found { return -ENOENT; }
      var _, st := ReadInode(dir.inum, NO_STAT);
      WriteInode(dir.inum, st.(mode := mode));
      rc := 0;
    }

    method Utimens(path: FileName, atime: word, mtime: word) returns (rc: int)
      requires Valid()
      modifies this, inodes
      ensures Valid() && directory == old(directory)
      ensures directory == null ==> rc == -EIO
      ensures directory != null ==> (State(), rc) == Spec.Utimens(old(State()), path, atime, mtime)
    {
      if directory == null { return -EIO; }
      var fd := new Cursor(directory);
      var found, dir, _ := Search(fd, path);
      if !found { return -ENOENT; }
      var _, st := ReadInode(dir.inum, NO_STAT);
      WriteInode(dir.inum, st.(atime := atime, mtime := mtime));
      rc := 0;
    }

    method Mknod(filename: FileName, mode: word, uid: word, gid: word, now: word) returns (rc: int)
      requires Valid() && inodeNumber < INT_MAX
      modifies this, directory, inodes
      ensures Valid() && directory == old(directory)
      ensures directory == null ==> rc == if Regular(mode) then -EIO else -EPERM
      ensures directory != null ==> (State(), rc) == Spec.Mknod(old(State()), filename, mode, uid, gid, now)
    {
      if !Regular(mode) { return -EPERM; }
      if directory == null { return -EIO; }
      MknodWellFormed(State(), filename, mode, uid, gid, now);
      ghost var s := State();
      var fd := new Cursor(directory);
      backing := backing[filename := []];
      var metadata := NewStat(mode, uid, gid, now, inodeNumber);
      var dentry := Dentry(filename, filename, metadata.ino);
      WriteInode(metadata.ino, metadata);
      fd.Seek(inodeNumber);
      fd.Write(dentry);
      inodeNumber := inodeNumber + 1;
      rc := 0;
      assert State() == Spec.Mknod(s, filename, mode, uid, gid, now).0;
    }

    method Write(path: FileName, buf: seq<byte>, offset: nat, atime: word, mtime: word) returns (rc: int)
      requires Valid() && offset + |buf| <= OFF_MAX
      modifies this, inodes
      ensures Valid() && directory == old(directory) && inodeNumber == old(inodeNumber)
      ensures directory == null ==> rc == -EIO
      ensures directory != null ==> (State(), rc) == Spec.Write(old(State()), path, buf, offset, atime, mtime)
    {
      if directory == null { return -EIO; }
      ghost var s := State();
      WriteWellFormed(s, path, buf, offset, atime, mtime);
      var fd := new Cursor(directory);
      var found, dir, _ := Search(fd, path);
      if !found { return -ENOENT; }
      var _, st := ReadInode(dir.inum, NO_STAT);
      WriteInode(dir.inum, st.(size := offset + |buf|, atime := atime, mtime := mtime));
      if dir.storage in backing {
        backing := backing[dir.storage := WriteAt(backing[dir.storage], offset, buf)];
        rc := |buf|;
      } else {
        rc := -EIO;
      }
      assert State() == Spec.Write(s, path, buf, offset, atime, mtime).0;
    }

    method Ftruncate(path: FileName, off: nat, atime: word, mtime: word) returns (rc: int)
      requires Valid() && off < OFF_MAX
      modifies this, inodes
      ensures Valid() && directory == old(directory)
      ensures directory == null ==> rc == -EIO
      ensures directory != null ==> (State(), rc) == Spec.Ftruncate(old(State()), path, off, atime, mtime)
    {
      if directory == null { return -EIO; }
      ghost var s := State();
      FtruncateWellFormed(s, path, off, atime, mtime);
      var fd := new Cursor(directory);
      var found, dir, _ := Search(fd, path);
      if !found { return -ENOENT; }
      FtruncateIs(s, path, off, atime, mtime);
      var _, st := ReadInode(dir.inum, NO_STAT);
      if st.size < off {
        var _ := Write(path, [0], off, atime, mtime);
      }
      assert State() == if st.size < off then Spec.Write(s, path, [0], off, atime, mtime).0 else s;
      if st.size != off {
        WriteInode(dir.inum, st.(size := off));
      }
      rc := 0;
      assert State() == Spec.Ftruncate(s, path, off, atime, mtime).0;
    }

    method Open(path: FileName, wronly: bool, trunc: bool) returns (rc: int)
      requires Valid()
      modifies this, inodes
      ensures Valid() && directory == old(directory)
      ensures directory == null ==> rc == -EIO
      ensures directory != null ==> (State(), rc) == Spec.Open(old(State()), path, wronly, trunc)
    {
      if directory == null { return -EIO; }
      var fd := new Cursor(directory);
      var found, dentry, _ := Search(fd, path);
      if !found { return -ENOENT; }
      var _, metadata := ReadInode(dentry.inum, NO_STAT);
      if wronly && !Writable(metadata.mode) { return -EPERM; }
      if trunc {
        WriteInode(dentry.inum, metadata.(size := 0));
      }
      rc := 0;
    }

    method Read(path: FileName, size: nat, offset: nat, now: word) returns (rc: int, buf: seq<byte>)
      requires Valid()
      modifies this, inodes
      ensures Valid() && directory == old(directory)
      ensures directory == null ==> rc == -EIO && buf == []
      ensures directory != null ==> (State(), rc, buf) == Spec.Read(old(State()), path, size, offset, now)
    {
      if directory == null { return -EIO, []; }
      var fd := new Cursor(directory);
      var found, dir, _ := Search(fd, path);
      if !found { return -ENOENT, []; }
      var _, st := ReadInode(dir.inum, NO_STAT);
      WriteInode(dir.inum, st.(atime := now));
      if dir.storage !in backing { return -EIO, []; }
      buf := ReadAt(backing[dir.storage], offset, size);
      rc := |buf|;
    }

    method Getattr(path: FileName) returns (rc: int, metadata: Stat, blocks: nat)
      requires Valid()
      ensures directory == null ==> rc == -EIO
      ensures directory != null ==>
                rc == (if Spec.Getattr(State(), path).Some? then 0 else -ENOENT)
                && (rc == 0 ==> Spec.Getattr(State(), path).value == (metadata, blocks))
    {
      metadata, blocks := NO_STAT, 0;
      if directory == null { return -EIO, metadata, blocks; }
      var fd := new Cursor(directory);
      var found, dentry, _ := Search(fd, path);
      if !found { return -ENOENT, metadata, blocks; }
      var _, st := ReadInode(dentry.inum, metadata);
      metadata := st;
      blocks := metadata.size / 512 + 1;
      rc := 0;
    }

    /** `out` is what the calls of `filler` for table entries are given. */
    method Readdir() returns (rc: int, out: seq<(Name, Stat)>)
      requires Valid()
      ensures directory == null ==> rc == -EIO && out == []
      ensures directory != null ==> rc == 0 && out == Listing(State().dir, State().inodes)
    {
      out := [];
      if directory == null { return -EIO, out; }
      var fd := new Cursor(directory);
      ghost var dir, table := directory.contents, inodes.contents;
      ghost var i := 0;
      assert dir[0..] == dir;
      var ok, dentry := fd.Next(FREE);
      while ok
        invariant fd.Valid() && fd.file == directory && fresh(fd)
        invariant i <= |dir| && (if ok then i < |dir| && fd.index == i + 1 && dentry == dir[i] else i == |dir|)
        invariant out + Listing(dir[i..], table) == Listing(dir, table)
        decreases |dir| - i + (if ok then 1 else 0)
      {
        ListingStep(dir, table, i, out);
        if dentry.inum != 0 {
          var _, stat := ReadInode(dentry.inum, NO_STAT);
          out := out + [(dentry.name, stat)];
        } else {
          assert out + [] == out;
        }
        i := i + 1;
        ok, dentry := fd.Next(dentry);
      }
      rc := 0;
    }

    // ---- unlink, with the system free to refuse any call ----

    /** The files are where the machine says they are. */
    ghost predicate Mirrors(m: Machine)
      requires Files()
      reads this, directory, tmpDirectory, inodes
    {
      && Records(directory) == m.dir && Records(tmpDirectory) == m.tmp
      && inodes.contents == m.inodes && backing == m.backing
    }

    /** Inside the loop both tables exist: the one read and the one written. */
    ghost predicate Copying(m: Machine)
      requires Files()
      reads this, directory, tmpDirectory, inodes
    {
      && directory != null && tmpDirectory != null
      && tmpDirectory.contents == m.table && directory.contents == m.out
      && m.tmp == Some(m.table) && m.dir == Some(m.out)
      && inodes.contents == m.inodes && backing == m.backing && Sized(m.table, m.inodes)
    }

    /** A record of the unlinked name: drop a link, then remove the file called like the entry. */
    method Strike(dentry: Dentry, granted: bool, path: FileName, ghost m: Machine) returns (rc: Option<int>)
      requires Files() && Copying(m)
      requires m.pc.Reading? && m.pos < |m.table| && m.table[m.pos] == dentry && dentry.name == path
      modifies this`backing, inodes
      ensures Files()
      ensures var m' := Step(TakeRecord(m, path), path, granted);
              Copying(m') && m'.pc == (if rc.None? then Reading else Done(rc.value))
              && m'.pos == m.pos + 1 && m'.slot == m.slot && m'.table == m.table
    {
      var _, metadata := ReadInode(dentry.inum, NO_STAT);
      WriteInode(dentry.inum, Relink(metadata, -1));
      if !granted || dentry.name !in backing {
        return Some(if granted then -ENOENT else -EIO);
      }
      backing := backing - {dentry.name};
      rc := None;
    }

    /** Any other named record goes to the next slot of the new table: a seek, then a write. */
    method Place(dentry: Dentry, slot: nat, sought: bool, written: bool, path: FileName, ghost m: Machine)
      returns (rc: Option<int>)
      requires Files() && Copying(m)
      requires m.pc.Reading? && m.pos < |m.table| && m.table[m.pos] == dentry
      requires dentry.name != [] && dentry.name != path && m.slot == slot
      modifies directory
      ensures Files()
      ensures var m1 := Step(TakeRecord(m, path), path, sought);
              var m' := if sought then Step(m1, path, written) else m1;
              Copying(m') && m'.pc == (if rc.None? then Reading else Done(rc.value))
              && m'.pos == m.pos + 1 && m'.table == m.table
              && m'.slot == if rc.None? then slot + 1 else slot
    {
      if !sought || !written { return Some(-EIO); }
      var fd := new Cursor(directory);
      fd.Seek(slot);
      fd.Write(dentry);
      rc := None;
    }

    /** A record of the unlinked name, from the machine m after n calls to m' after n'. */
    method HandleNamed(path: FileName, dentry: Dentry,
                       ok: nat -> bool, n0: nat, n: nat, ghost m0: Machine, ghost m: Machine)
      returns (rc: Option<int>, n': nat, ghost m': Machine)
      requires Files() && Copying(m) && n0 <= n && m == From(m0, path, ok, n0, n) && ok(n)
      requires m.pc.Reading? && m.pos < |m.table| && m.table[m.pos] == dentry && dentry.name == path
      modifies this`backing, inodes
      ensures Files() && Copying(m') && n < n' && m' == From(m0, path, ok, n0, n')
      ensures m'.pc == (if rc.None? then Reading else Done(rc.value))
      ensures m'.pos == m.pos + 1 && m'.slot == m.slot && m'.table == m.table
    {
      FromRead(m0, path, ok, n0, n);
      FromNext(m0, path, ok, n0, n + 1);
      rc := Strike(dentry, ok(n + 1), path, m);
      n', m' := n + 2, Step(TakeRecord(m, path), path, ok(n + 1));
    }

    method HandleOther(path: FileName, dentry: Dentry, slot: nat,
                       ok: nat -> bool, n0: nat, n: nat, ghost m0: Machine, ghost m: Machine)
      returns (rc: Option<int>, n': nat, ghost m': Machine)
      requires Files() && Copying(m) && n0 <= n && m == From(m0, path, ok, n0, n) && ok(n)
      requires m.pc.Reading? && m.pos < |m.table| && m.table[m.pos] == dentry && m.slot == slot
      requires dentry.name != path && dentry.name != []
      modifies directory
      ensures Files() && Copying(m') && n < n' && m' == From(m0, path, ok, n0, n')
      ensures m'.pc == (if rc.None? then Reading else Done(rc.value))
      ensures m'.pos == m.pos + 1 && m'.table == m.table && m'.slot == if rc.None? then slot + 1 else slot
    {
      FromRead(m0, path, ok, n0, n);
      FromNext(m0, path, ok, n0, n + 1);
      n', m' := n + 2, Step(TakeRecord(m, path), path, ok(n + 1));
      rc := Place(dentry, slot, ok(n + 1), ok(n + 2), path, m);
      if ok(n + 1) {
        FromNext(m0, path, ok, n0, n + 2);
        n', m' := n + 3, Step(m', path, ok(n + 2));
      }
    }

    /** A record that was read: nameless ones are skipped. */
    method Handle(path: FileName, dentry: Dentry, slot: nat,
                  ok: nat -> bool, n0: nat, n: nat, ghost m0: Machine, ghost m: Machine)
      returns (rc: Option<int>, slot': nat, n': nat, ghost m': Machine)
      requires Files() && Copying(m) && n0 <= n && m == From(m0, path, ok, n0, n) && ok(n)
      requires m.pc.Reading? && m.pos < |m.table| && m.table[m.pos] == dentry && m.slot == slot
      modifies this`backing, directory, inodes
      ensures Files() && Copying(m') && n < n' && m' == From(m0, path, ok, n0, n')
      ensures m'.pc == (if rc.None? then Reading else Done(rc.value))
      ensures m'.pos == m.pos + 1 && m'.slot == slot' && m'.table == m.table
    {
      slot' := slot;
      if dentry.name == [] {
        FromRead(m0, path, ok, n0, n);
        rc, n', m' := None, n + 1, m.(pos := m.pos + 1);
      } else if path == dentry.name {
        rc, n', m' := HandleNamed(path, dentry, ok, n0, n, m0, m);
      } else {
        rc, n', m' := HandleOther(path, dentry, slot, ok, n0, n, m0, m);
        if rc.None? { slot' := slot + 1; }
      }
    }

    /** The loop that builds the new table, from the n0-th system call on. */
    method Rebuild(path: FileName, ok: nat -> bool, n0: nat, ghost m0: Machine)
      returns (rc: Option<int>, n: nat, ghost m: Machine)
      requires Files() && Copying(m0) && m0.pc.Reading? && m0.pos == 0 && m0.slot == 2
      modifies this`backing, directory, inodes
      ensures Files() && Copying(m) && n >= n0
      ensures m == From(m0, path, ok, n0, n)
      ensures m.pc == if rc.None? then Sweeping else Done(rc.value)
    {
      var fd := new Cursor(tmpDirectory);
      var slot := 2;
      m, n, rc := m0, n0, None;
      while true
        invariant Files() && fd.Valid() && fd.file == tmpDirectory && fresh(fd)
        invariant n >= n0 && m == From(m0, path, ok, n0, n)
        invariant Copying(m) && m.pc.Reading? && fd.index == m.pos && slot == m.slot
        invariant fd.index <= |tmpDirectory.contents|
        decreases |tmpDirectory.contents| - fd.index
      {
        var got, dentry := false, FREE;
        if ok(n) {
          got, dentry := fd.Next(FREE);
        }
        if !got {
          FromSwept(m0, path, ok, n0, n);
          return None, n + 1, m.(pc := Sweeping);
        }
        rc, slot, n, m := Handle(path, dentry, slot, ok, n0, n, m0, m);
        if rc.Some? { return; }
      }
    }

    lemma StillValid(s: Store, path: FileName, ok: nat -> bool, n: nat)
      requires WellFormed(s) && Files() && Mirrors(After(Begin(s), path, ok, n)) && inodeNumber == s.next
      ensures Valid()
    {
      RebuiltWellFormed(s, path, ok, n);
    }

    method CreateTable() returns (f: TableFile<Dentry>)
      ensures fresh(f) && f.Valid() && f.contents == [] && f.zero == FREE
    {
      DentryLayout();
      f := new TableFile(DENTRY);
    }

    /** What follows the first three calls: the loop, and the removal of the old table. */
    method RebuildAndSweep(path: FileName, ok: nat -> bool, ghost s: Store) returns (rc: int, n: nat)
      requires Files() && WellFormed(s) && Copying(Entered(s)) && After(Begin(s), path, ok, 3) == Entered(s)
      modifies this`tmpDirectory, this`backing, directory, inodes
      ensures Files() && Mirrors(After(Begin(s), path, ok, n)) && After(Begin(s), path, ok, n).pc == Done(rc)
    {
      var stop;
      ghost var m;
      stop, n, m := Rebuild(path, ok, 3, Entered(s));
      AfterFrom(Begin(s), path, ok, 3, n);
      if stop.Some? {
        rc := stop.value;
      } else {
        LastCall(Begin(s), path, ok, n, m);
        n := n + 1;
        if ok(n - 1) {
          tmpDirectory := null;
          rc := 0;
        } else {
          rc := -EIO;
        }
      }
    }

    /** `ok(k)` is whether the k-th system call is granted; n calls are made. */
    method Unlink(path: FileName, ok: nat -> bool) returns (rc: int, n: nat)
      requires Valid()
      modifies this, inodes
      ensures Valid() && inodeNumber == old(inodeNumber)
      ensures old(directory) == null ==> rc == -ENOENT && unchanged(this) && unchanged(inodes)
      ensures old(directory) != null ==>
                var m := After(Begin(old(State())), path, ok, n);
                m.pc == Done(rc) && Mirrors(m)
    {
      if directory == null { return -ENOENT, 1; }
      ghost var s := State();
      FirstCalls(s, path, ok);
      if !ok(0) { return -EIO, 1; }
      tmpDirectory, directory := directory, null;
      if !ok(1) { return -EIO, 2; }
      if !ok(2) { return -EIO, 3; }
      directory := CreateTable();
      rc, n := RebuildAndSweep(path, ok, s);
      StillValid(s, path, ok, n);
    }
  }
}
