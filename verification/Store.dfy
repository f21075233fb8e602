/**
  What each SAFS operation does, as a function from one store to the next. A store is the
  record sequences of the two table files, the backing files by storage name, and the
  inode counter. The functions follow safs.c branch by branch, including where it departs
  from its own contracts; module Divergence says exactly when that happens.
*/
module Store {
  import opened Bytes
  import opened Codecs
  import opened Layout
  import opened System
  import opened Table

  /** The global `int inode_number`, which starts at 1. */
  type counter = n: int | 1 <= n <= INT_MAX witness 1

  const DOT: Name := [46]
  const DOTDOT: Name := [46, 46]
  const INODES_FILE: Name := [73, 110, 111, 100, 101, 115, 126]
  const DIRECTORY_FILE: Name := [68, 105, 114, 101, 99, 116, 111, 114, 121, 126]
  const TMP_DIRECTORY_FILE: Name := [46, 68, 105, 114, 101, 99, 116, 111, 114, 121, 126]

  predicate Reserved(s: Name) {
    s == DOT || s == DOTDOT || s == INODES_FILE || s == DIRECTORY_FILE || s == TMP_DIRECTORY_FILE
  }

  /** A name a caller may use: not empty, not a dot entry, not a file SAFS keeps for itself. */
  type FileName = s: Name | s != [] && !Reserved(s) witness [97]

  datatype Option<+T> = None | Some(value: T)

  /** `tmp` is the file `.Directory~`, which exists only during, or after a failed, unlink. */
  datatype Store = Store(dir: seq<Dentry>, tmp: Option<seq<Dentry>>, inodes: seq<Stat>,
                         backing: map<Name, seq<byte>>, next: counter)

  const FRESH := Store([], None, [], map[], 1)

  predicate Live(e: Dentry) {
    e.inum != 0
  }

  predicate Hit(e: Dentry, name: Name) {
    e.name == name && Live(e)
  }

  /** The slots without an inode are those without a name. */
  predicate NamesMatchInums(dir: seq<Dentry>) {
    forall i | 0 <= i < |dir| :: dir[i].name == [] <==> dir[i].inum == 0
  }

  /** Every inode mentioned has a record. */
  predicate Sized(dir: seq<Dentry>, inodes: seq<Stat>) {
    forall i | 0 <= i < |dir| :: dir[i].inum < |inodes|
  }

  predicate Formed(dir: seq<Dentry>, inodes: seq<Stat>) {
    NamesMatchInums(dir) && Sized(dir, inodes) && forall i | 0 <= i < |dir| :: dir[i].inum <= INT_MAX
  }

  predicate WellFormed(s: Store) {
    Formed(s.dir, s.inodes)
  }

  // ---- the two scans ----

  /** First live entry of that name, or |dir|. */
  function Find(dir: seq<Dentry>, name: Name): (i: nat)
    ensures i <= |dir|
    ensures i < |dir| ==> Hit(dir[i], name)
    ensures forall j | 0 <= j < i :: !Hit(dir[j], name)
  {
    if dir == [] || Hit(dir[0], name) then 0 else 1 + Find(dir[1..], name)
  }

  /** The slot `link` takes: the first unused one that is not a dot entry, or |dir|. */
  function FreeSlot(dir: seq<Dentry>): (i: nat)
    ensures i <= |dir|
    ensures i < |dir| ==> Unused(dir[i])
    ensures forall j | 0 <= j < i :: !Unused(dir[j])
  {
    if dir == [] || Unused(dir[0]) then 0 else 1 + FreeSlot(dir[1..])
  }

  predicate Unused(e: Dentry) {
    e.name != DOT && e.name != DOTDOT && !Live(e)
  }

  lemma FindIs(dir: seq<Dentry>, name: Name, i: nat)
    requires i <= |dir|
    requires i < |dir| ==> Hit(dir[i], name)
    requires forall j | 0 <= j < i :: !Hit(dir[j], name)
    ensures Find(dir, name) == i
  {
  }

  lemma FreeSlotIs(dir: seq<Dentry>, i: nat)
    requires i <= |dir|
    requires i < |dir| ==> Unused(dir[i])
    requires forall j | 0 <= j < i :: !Unused(dir[j])
    ensures FreeSlot(dir) == i
  {
  }

  // ---- inode records ----

  function SetInode(inodes: seq<Stat>, i: nat, st: Stat): seq<Stat> {
    Put(inodes, i, st, NO_STAT)
  }

  /** `st_nlink` is unsigned: adding and subtracting wrap around. */
  function Relink(st: Stat, d: int): Stat {
    st.(nlink := (st.nlink + d) % WORD)
  }

  // ---- operations ----

  /** `(mode & S_IFMT) == S_IFREG` */
  predicate Regular(mode: word) {
    mode / 0x1000 % 16 == 8
  }

  /** `(mode & 0222) != 0` */
  predicate Writable(mode: word) {
    mode / 128 % 2 == 1 || mode / 16 % 2 == 1 || mode / 2 % 2 == 1
  }

  function NewStat(mode: word, uid: word, gid: word, now: word, ino: word): Stat {
    Stat(mode, 1, 0, uid, gid, now, now, now, ino)
  }

  /** The next inode number must still be an `int`. */
  function Mknod(s: Store, name: FileName, mode: word, uid: word, gid: word, now: word): (Store, int)
    requires s.next < INT_MAX
  {
    if !Regular(mode) then (s, -EPERM)
    else
      (s.(backing := s.backing[name := []],
          inodes := SetInode(s.inodes, s.next, NewStat(mode, uid, gid, now, s.next)),
          dir := Put(s.dir, s.next, Dentry(name, name, s.next), FREE),
          next := s.next + 1), 0)
  }

  lemma MknodWellFormed(s: Store, name: FileName, mode: word, uid: word, gid: word, now: word)
    requires WellFormed(s) && s.next < INT_MAX
    ensures WellFormed(Mknod(s, name, mode, uid, gid, now).0)
  {
  }

  function Rename(s: Store, from: FileName, to: FileName): (Store, int) {
    var i := Find(s.dir, from);
    if i == |s.dir| then (s, -ENOENT)
    else (s.(dir := s.dir[i := s.dir[i].(name := to)]), 0)
  }

  /** The directory after a link: the new entry carries the old one's storage and inode number. */
  function LinkedDir(dir: seq<Dentry>, i: nat, to: FileName): seq<Dentry>
    requires i < |dir|
  {
    Put(dir, FreeSlot(dir), Dentry(to, dir[i].storage, dir[i].inum), FREE)
  }

  /** The inode number left in `dir` by the free-slot scan: that of the last record it read. */
  function Leftover(dir: seq<Dentry>): half
    requires dir != []
  {
    var f := FreeSlot(dir);
    if f < |dir| then dir[f].inum else dir[|dir| - 1].inum
  }

  function Link(s: Store, from: FileName, to: FileName): (Store, int)
    requires WellFormed(s)
  {
    var i := Find(s.dir, from);
    if i == |s.dir| then (s, -ENOENT)
    else
      var x := Leftover(s.dir);
      (s.(dir := LinkedDir(s.dir, i, to),
          inodes := SetInode(s.inodes, x, Relink(s.inodes[x], 1))), 0)
  }

  lemma LinkWellFormed(s: Store, from: FileName, to: FileName)
    requires WellFormed(s)
    ensures WellFormed(Link(s, from, to).0)
  {
    var i := Find(s.dir, from);
    if i < |s.dir| {
      var e := Dentry(to, s.dir[i].storage, s.dir[i].inum);
      assert forall k | 0 <= k < |LinkedDir(s.dir, i, to)| ::
          LinkedDir(s.dir, i, to)[k] == e || LinkedDir(s.dir, i, to)[k] == FREE
          || (k < |s.dir| && LinkedDir(s.dir, i, to)[k] == s.dir[k]);
    }
  }

  function Chmod(s: Store, name: FileName, mode: word): (Store, int)
    requires WellFormed(s)
  {
    var i := Find(s.dir, name);
    if i == |s.dir| then (s, -ENOENT)
    else
      var k := s.dir[i].inum;
      (s.(inodes := SetInode(s.inodes, k, s.inodes[k].(mode := mode))), 0)
  }

  function Utimens(s: Store, name: FileName, atime: word, mtime: word): (Store, int)
    requires WellFormed(s)
  {
    var i := Find(s.dir, name);
    if i == |s.dir| then (s, -ENOENT)
    else
      var k := s.dir[i].inum;
      (s.(inodes := SetInode(s.inodes, k, s.inodes[k].(atime := atime, mtime := mtime))), 0)
  }

  /** `atime` and `mtime` are the two clock readings; the end of the write must be a file offset. */
  function Write(s: Store, name: FileName, buf: seq<byte>, off: nat, atime: word, mtime: word): (Store, int)
    requires WellFormed(s)
    requires off + |buf| <= OFF_MAX
  {
    var i := Find(s.dir, name);
    if i == |s.dir| then (s, -ENOENT)
    else
      var e := s.dir[i];
      var st := s.inodes[e.inum].(size := off + |buf|, atime := atime, mtime := mtime);
      var s' := s.(inodes := SetInode(s.inodes, e.inum, st));
      if e.storage !in s.backing then (s', -EIO)
      else (s'.(backing := s.backing[e.storage := WriteAt(s.backing[e.storage], off, buf)]), |buf|)
  }

  /** Growing writes one zero byte at `off`; shrinking only records the smaller size. */
  function Ftruncate(s: Store, name: FileName, off: nat, atime: word, mtime: word): (Store, int)
    requires WellFormed(s)
    requires off < OFF_MAX
  {
    var i := Find(s.dir, name);
    if i == |s.dir| then (s, -ENOENT)
    else
      var k := s.dir[i].inum;
      var st := s.inodes[k];
      if st.size == off then (s, 0)
      else
        var s' := if st.size < off then Write(s, name, [0], off, atime, mtime).0 else s;
        (s'.(inodes := SetInode(s'.inodes, k, st.(size := off))), 0)
  }

  lemma WriteWellFormed(s: Store, name: FileName, buf: seq<byte>, off: nat, atime: word, mtime: word)
    requires WellFormed(s) && off + |buf| <= OFF_MAX
    ensures var s' := Write(s, name, buf, off, atime, mtime).0;
            WellFormed(s') && |s'.inodes| == |s.inodes| && s'.dir == s.dir
  {
  }

  lemma FtruncateWellFormed(s: Store, name: FileName, off: nat, atime: word, mtime: word)
    requires WellFormed(s) && off < OFF_MAX
    ensures WellFormed(Ftruncate(s, name, off, atime, mtime).0)
  {
    WriteWellFormed(s, name, [0], off, atime, mtime);
  }

  /** The two steps of a truncation that finds its name: the write, if it grows, and the record put back. */
  lemma FtruncateIs(s: Store, name: FileName, off: nat, atime: word, mtime: word)
    requires WellFormed(s) && off < OFF_MAX && Find(s.dir, name) < |s.dir|
    ensures var k := s.dir[Find(s.dir, name)].inum;
            var st := s.inodes[k];
            var s1 := if st.size < off then Write(s, name, [0], off, atime, mtime).0 else s;
            && s1.dir == s.dir && |s1.inodes| == |s.inodes|
            && Ftruncate(s, name, off, atime, mtime)
               == (if st.size == off then s1 else s1.(inodes := SetInode(s1.inodes, k, st.(size := off))), 0)
  {
    WriteWellFormed(s, name, [0], off, atime, mtime);
  }

  /** `O_RDONLY` is 0, so the test for reading a write-only file never fires. */
  function Open(s: Store, name: FileName, wronly: bool, trunc: bool): (Store, int)
    requires WellFormed(s)
  {
    var i := Find(s.dir, name);
    if i == |s.dir| then (s, -ENOENT)
    else
      var k := s.dir[i].inum;
      if wronly && !Writable(s.inodes[k].mode) then (s, -EPERM)
      else if trunc then (s.(inodes := SetInode(s.inodes, k, s.inodes[k].(size := 0))), 0)
      else (s, 0)
  }

  /** The number of bytes read or an error, and the bytes. */
  function Read(s: Store, name: FileName, size: nat, off: nat, now: word): (Store, int, seq<byte>)
    requires WellFormed(s)
  {
    var i := Find(s.dir, name);
    if i == |s.dir| then (s, -ENOENT, [])
    else
      var e := s.dir[i];
      var s' := s.(inodes := SetInode(s.inodes, e.inum, s.inodes[e.inum].(atime := now)));
      if e.storage !in s.backing then (s', -EIO, [])
      else
        var d := ReadAt(s.backing[e.storage], off, size);
        (s', |d|, d)
  }

  /** The inode record and the recomputed `st_blocks`. */
  function Getattr(s: Store, name: FileName): Option<(Stat, nat)>
    requires WellFormed(s)
  {
    var i := Find(s.dir, name);
    if i == |s.dir| then None
    else
      var st := s.inodes[s.dir[i].inum];
      Some((st, st.size / 512 + 1))
  }

  function Line(e: Dentry, inodes: seq<Stat>): seq<(Name, Stat)>
    requires e.inum < |inodes|
  {
    if Live(e) then [(e.name, inodes[e.inum])] else []
  }

  /** What `readdir` hands to `filler` after the two dot entries. */
  function Listing(dir: seq<Dentry>, inodes: seq<Stat>): seq<(Name, Stat)>
    requires Sized(dir, inodes)
  {
    if dir == [] then [] else Line(dir[0], inodes) + Listing(dir[1..], inodes)
  }

  /** One turn of the listing loop. */
  lemma ListingStep(dir: seq<Dentry>, inodes: seq<Stat>, i: nat, out: seq<(Name, Stat)>)
    requires i < |dir| && Sized(dir, inodes)
    ensures out + Listing(dir[i..], inodes) == out + Line(dir[i], inodes) + Listing(dir[i + 1..], inodes)
  {
    assert dir[i..][0] == dir[i] && dir[i..][1..] == dir[i + 1..];
    assert out + (Line(dir[i], inodes) + Listing(dir[i + 1..], inodes))
        == out + Line(dir[i], inodes) + Listing(dir[i + 1..], inodes);
  }

  /** The counter after the scan in `safs_init`. */
  function MaxInum(dir: seq<Dentry>, start: counter): counter
    requires forall i | 0 <= i < |dir| :: dir[i].inum <= INT_MAX
  {
    if dir == [] then start
    else MaxInum(dir[1..], if dir[0].inum > start then dir[0].inum else start)
  }

  /** One turn of the counter scan. */
  lemma MaxInumStep(dir: seq<Dentry>, i: nat, start: counter)
    requires i < |dir| && forall k | 0 <= k < |dir| :: dir[k].inum <= INT_MAX
    ensures MaxInum(dir[i..], start) == MaxInum(dir[i + 1..], if dir[i].inum > start then dir[i].inum else start)
  {
    assert dir[i..][0] == dir[i] && dir[i..][1..] == dir[i + 1..];
  }
}
