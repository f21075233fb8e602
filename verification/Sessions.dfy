/**
  Runs of file system calls: what one call may be, what it does as coded, what it does with the
  two link-count repairs, and the invariant that makes the store a file system.
*/
module Sessions {
  import opened Bytes
  import opened Codecs
  import opened Layout
  import opened Store
  import opened System
  import opened Unlinking
  import opened Slots

  /** One request, with the clock readings and identities the call would look up. */
  datatype Op =
    | DoMknod(name: FileName, mode: word, uid: word, gid: word, now: word)
    | DoLink(from: FileName, to: FileName)
    | DoRename(from: FileName, to: FileName)
    | DoUnlink(name: FileName)
    | DoChmod(name: FileName, mode: word)
    | DoUtimens(name: FileName, atime: word, mtime: word)
    | DoWrite(name: FileName, buf: seq<byte>, off: nat, atime: word, mtime: word)
    | DoTruncate(name: FileName, size: nat, atime: word, mtime: word)
    | DoOpen(name: FileName, wronly: bool, trunc: bool)
    | DoRead(name: FileName, len: nat, off: nat, now: word)

  /** A call that acts on the inode a name leads to, and on nothing else. */
  predicate OnOneInode(op: Op) {
    op.DoChmod? || op.DoUtimens? || op.DoWrite? || op.DoTruncate? || op.DoOpen? || op.DoRead?
  }

  datatype Reply = Reply(rc: int, data: seq<byte>)

  /** The C arithmetic stays in range: the counter is an `int`, offsets are `off_t`. */
  predicate InRange(next: counter, op: Op) {
    match op
    case DoMknod(_, _, _, _, _) => next < INT_MAX
    case DoWrite(_, buf, off, _, _) => off + |buf| <= OFF_MAX
    case DoTruncate(_, size, _, _) => size < OFF_MAX
    case _ => true
  }

  function Ticked(next: counter, op: Op): counter
    requires InRange(next, op)
  {
    if op.DoMknod? && Regular(op.mode) then next + 1 else next
  }

  /** It stays in range over a whole run; only creations move the counter. */
  predicate InRangeThroughout(next: counter, ops: seq<Op>)
    decreases |ops|
  {
    ops == [] || (InRange(next, ops[0]) && InRangeThroughout(Ticked(next, ops[0]), ops[1..]))
  }

  // ---- the two intended steps ----

  /** `link` counting the inode it linked (`newDir.inum`), not the one left in `dir` by the scan. */
  function IntendedLink(s: Store, from: FileName, to: FileName): (Store, int)
    requires WellFormed(s)
  {
    var i := Find(s.dir, from);
    if i == |s.dir| then (s, -ENOENT)
    else
      var k := s.dir[i].inum;
      (s.(dir := LinkedDir(s.dir, i, to),
          inodes := SetInode(s.inodes, k, Relink(s.inodes[k], 1))), 0)
  }

  /** `unlink` removing the backing file of the entry (`storage`), and only with its last link. */
  function IntendedUnlink(s: Store, name: FileName): (Store, int)
    requires WellFormed(s)
  {
    var i := Find(s.dir, name);
    var s' := s.(dir := Compacted(Kept(s.dir, name)), tmp := None);
    if i == |s.dir| then (s', 0)
    else
      var e := s.dir[i];
      var st := Relink(s.inodes[e.inum], -1);
      (s'.(inodes := SetInode(s.inodes, e.inum, st),
           backing := if st.nlink == 0 then s.backing - {e.storage} else s.backing), 0)
  }

  // ---- one call ----

  function Plain(r: (Store, int)): (Store, Reply) {
    (r.0, Reply(r.1, []))
  }

  function Coded(s: Store, op: Op): (Store, Reply)
    requires WellFormed(s) && InRange(s.next, op)
  {
    match op
    case DoMknod(name, mode, uid, gid, now) => Plain(Mknod(s, name, mode, uid, gid, now))
    case DoLink(from, to) => Plain(Link(s, from, to))
    case DoRename(from, to) => Plain(Rename(s, from, to))
    case DoUnlink(name) => Plain(Unlink(s, name))
    case DoChmod(name, mode) => Plain(Chmod(s, name, mode))
    case DoUtimens(name, atime, mtime) => Plain(Utimens(s, name, atime, mtime))
    case DoWrite(name, buf, off, atime, mtime) => Plain(Write(s, name, buf, off, atime, mtime))
    case DoTruncate(name, size, atime, mtime) => Plain(Ftruncate(s, name, size, atime, mtime))
    case DoOpen(name, wronly, trunc) => Plain(Open(s, name, wronly, trunc))
    case DoRead(name, len, off, now) =>
      var (s', rc, d) := Read(s, name, len, off, now);
      (s', Reply(rc, d))
  }

  function Intended(s: Store, op: Op): (Store, Reply)
    requires WellFormed(s) && InRange(s.next, op)
  {
    match op
    case DoLink(from, to) => Plain(IntendedLink(s, from, to))
    case DoUnlink(name) => Plain(IntendedUnlink(s, name))
    case _ => Coded(s, op)
  }

  // ---- the invariant ----

  predicate Unique(dir: seq<Dentry>) {
    forall i, j | 0 <= i < j < |dir| && Live(dir[i]) && Live(dir[j]) :: dir[i].name != dir[j].name
  }

  /** Two live entries name the same backing file exactly when they name the same inode. */
  predicate Sharing(dir: seq<Dentry>) {
    forall i, j | 0 <= i < |dir| && 0 <= j < |dir| && Live(dir[i]) && Live(dir[j]) ::
      dir[i].storage == dir[j].storage <==> dir[i].inum == dir[j].inum
  }

  predicate Stored(s: Store) {
    forall i | 0 <= i < |s.dir| && Live(s.dir[i]) :: s.dir[i].storage in s.backing
  }

  /** Issued inode numbers are below the counter. */
  predicate Fresh(s: Store) {
    forall i | 0 <= i < |s.dir| :: s.dir[i].inum < s.next
  }

  predicate Core(s: Store) {
    WellFormed(s) && Fresh(s) && SlotSafe(s.dir, s.next) && Unique(s.dir) && Sharing(s.dir) && Stored(s)
  }

  /** The link count of every live inode is the number of live entries that name it. */
  predicate Counted(s: Store)
    requires WellFormed(s)
  {
    forall i | 0 <= i < |s.dir| && Live(s.dir[i]) ::
      s.inodes[s.dir[i].inum].nlink == Tally(s.dir, HasInum(s.dir[i].inum))
  }

  predicate Invariant(s: Store) {
    Core(s) && Counted(s)
  }

  // ---- what a caller has to see to ----

  predicate Bound(dir: seq<Dentry>, name: Name) {
    Find(dir, name) < |dir|
  }

  predicate StorageTaken(dir: seq<Dentry>, name: Name) {
    exists i | 0 <= i < |dir| :: Live(dir[i]) && dir[i].storage == name
  }

  /**
    The obligations no code checks: a new name is not in use, a created name is not the storage
    of another entry, and the table has room below the counter for what link and unlink place.
  */
  predicate Admissible(s: Store, op: Op) {
    match op
    case DoMknod(name, mode, _, _, _) =>
      Regular(mode) ==> !Bound(s.dir, name) && !StorageTaken(s.dir, name)
    case DoLink(from, to) =>
      Bound(s.dir, from) ==> !Bound(s.dir, to) && Tally(s.dir, LIVE) < s.next
    case DoRename(from, to) =>
      Bound(s.dir, from) ==> from == to || !Bound(s.dir, to)
    case DoUnlink(name) =>
      var left := Tally(s.dir, LIVE) - Bit(Bound(s.dir, name));
      left == 0 || left + 2 <= s.next
    case _ => true
  }

  /** Runs, in the intended steps; each state sees the obligations of the next call. */
  predicate Runnable(s: Store, ops: seq<Op>)
    decreases |ops|
  {
    ops == [] ||
    (WellFormed(s) && InRange(s.next, ops[0]) && Runnable(Intended(s, ops[0]).0, ops[1..]))
  }

  function Run(s: Store, ops: seq<Op>): Store
    requires Runnable(s, ops)
    decreases |ops|
  {
    if ops == [] then s else Run(Intended(s, ops[0]).0, ops[1..])
  }
}
