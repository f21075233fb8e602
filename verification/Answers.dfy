/**
  What each call of the code answers and changes in every store it can meet, sound directory or not:
  field by field, slot by slot and byte by byte.
*/
module Answers {
  import opened Bytes
  import opened Codecs
  import opened Layout
  import opened Store
  import opened System
  import opened Unlinking
  import opened Slots
  import opened Sessions
  import opened Files

  // ---- which modes the calls look for ----

  /** The file-type field of a mode is its fourth hexadecimal digit, and a regular file is 8 there. */
  lemma RegularIs(high: nat, kind: nat, low: nat)
    requires kind < 16 && low < 0x1000 && high * 0x10000 + kind * 0x1000 + low < WORD
    ensures Regular(high * 0x10000 + kind * 0x1000 + low) <==> kind == 8
  {
    Digit(high, kind, low);
  }

  lemma Digit(high: nat, kind: nat, low: nat)
    requires kind < 16 && low < 0x1000
    ensures (high * 0x10000 + kind * 0x1000 + low) / 0x1000 % 16 == kind
  {
    var mode := high * 0x10000 + kind * 0x1000 + low;
    assert mode == (high * 16 + kind) * 0x1000 + low;
    assert mode / 0x1000 == high * 16 + kind;
  }

  /** An octal digit of permissions includes writing. */
  predicate Writes(digit: nat) {
    digit == 2 || digit == 3 || digit == 6 || digit == 7
  }

  lemma WriteBit(digit: nat)
    requires digit < 8
    ensures digit / 2 % 2 == 1 <==> Writes(digit)
  {
  }

  lemma EvenPart(m: nat, x: nat)
    ensures (2 * m + x) % 2 == x % 2
  {
  }

  lemma OwnerBit(high: nat, owner: nat, rest: nat)
    requires owner < 8 && rest < 64
    ensures (high * 512 + owner * 64 + rest) / 128 % 2 == owner / 2 % 2
  {
    assert (high * 512 + owner * 64 + rest) / 128 == 4 * high + owner / 2;
    EvenPart(2 * high, owner / 2);
  }

  lemma GroupBit(high: nat, group: nat, rest: nat)
    requires group < 8 && rest < 8
    ensures (high * 64 + group * 8 + rest) / 16 % 2 == group / 2 % 2
  {
    assert (high * 64 + group * 8 + rest) / 16 == 4 * high + group / 2;
    EvenPart(2 * high, group / 2);
  }

  lemma OthersBit(high: nat, others: nat)
    requires others < 8
    ensures (high * 8 + others) / 2 % 2 == others / 2 % 2
  {
    assert (high * 8 + others) / 2 == 4 * high + others / 2;
    EvenPart(2 * high, others / 2);
  }

  /** A file is writable when owner, group or others may write. */
  lemma WritableIs(high: nat, owner: nat, group: nat, others: nat)
    requires owner < 8 && group < 8 && others < 8 && high * 512 + owner * 64 + group * 8 + others < WORD
    ensures Writable(high * 512 + owner * 64 + group * 8 + others)
            <==> Writes(owner) || Writes(group) || Writes(others)
  {
    OwnerBit(high, owner, group * 8 + others);
    GroupBit(high * 8 + owner, group, others);
    OthersBit(high * 64 + owner * 8 + group, others);
    WriteBit(owner);
    WriteBit(group);
    WriteBit(others);
  }

  // ---- records ----

  /** Everything in a record but its link count, its size and its times. */
  predicate SameIdentity(a: Stat, b: Stat) {
    a.mode == b.mode && a.uid == b.uid && a.gid == b.gid && a.ctime == b.ctime && a.ino == b.ino
  }

  predicate SameTimes(a: Stat, b: Stat) {
    a.atime == b.atime && a.mtime == b.mtime
  }

  /** One record may differ; otherwise all but the backing files is as it was. */
  predicate SameBut(s: Store, s': Store, k: nat) {
    && s'.dir == s.dir && s'.tmp == s.tmp && s'.next == s.next && |s'.inodes| == |s.inodes|
    && forall j | 0 <= j < |s.inodes| && j != k :: s'.inodes[j] == s.inodes[j]
  }

  /** Link counts are unsigned words. */
  predicate OneMore(n: word, m: word) {
    m == if n == 0xffff_ffff_ffff_ffff then 0 else n + 1
  }

  predicate Fewer(n: word, m: word, lost: nat) {
    m == if lost <= n then n - lost else n + 0x1_0000_0000_0000_0000 - lost
  }

  lemma RelinkIs(st: Stat)
    ensures SameIdentity(st, Relink(st, 1)) && SameTimes(st, Relink(st, 1)) && Relink(st, 1).size == st.size
    ensures OneMore(st.nlink, Relink(st, 1).nlink)
    ensures SameIdentity(st, Relink(st, -1)) && SameTimes(st, Relink(st, -1)) && Relink(st, -1).size == st.size
    ensures Fewer(st.nlink, Relink(st, -1).nlink, 1)
  {
  }

  // ---- names that are not there ----

  lemma MissingAnswers(s: Store, op: Op)
    requires WellFormed(s) && InRange(s.next, op) && !op.DoMknod? && !Bound(s.dir, Target(op))
    ensures op.DoUnlink? ==> Coded(s, op).1 == Reply(0, [])
    ensures !op.DoUnlink? ==> Coded(s, op) == (s, Reply(-ENOENT, []))
  {
    if op.DoUnlink? { UnlinkMissing(s, op.name); }
  }

  // ---- calls on one inode ----

  lemma ChmodAnswers(s: Store, name: FileName, mode: word)
    requires WellFormed(s) && Bound(s.dir, name)
    ensures var k := s.dir[Find(s.dir, name)].inum;
            var (s', rc) := Chmod(s, name, mode);
            && rc == 0 && SameBut(s, s', k) && s'.backing == s.backing
            && var (a, b) := (s.inodes[k], s'.inodes[k]);
            && b.mode == mode && b.nlink == a.nlink && b.size == a.size && b.uid == a.uid && b.gid == a.gid
            && b.ctime == a.ctime && b.ino == a.ino && SameTimes(a, b)
  {
  }

  lemma UtimensAnswers(s: Store, name: FileName, atime: word, mtime: word)
    requires WellFormed(s) && Bound(s.dir, name)
    ensures var k := s.dir[Find(s.dir, name)].inum;
            var (s', rc) := Utimens(s, name, atime, mtime);
            && rc == 0 && SameBut(s, s', k) && s'.backing == s.backing
            && var (a, b) := (s.inodes[k], s'.inodes[k]);
            && SameIdentity(a, b) && b.nlink == a.nlink && b.size == a.size && b.atime == atime && b.mtime == mtime
  {
  }

  /** Only a request to write, on a file nobody may write, is refused. */
  lemma OpenAnswers(s: Store, name: FileName, wronly: bool, trunc: bool)
    requires WellFormed(s) && Bound(s.dir, name)
    ensures var k := s.dir[Find(s.dir, name)].inum;
            var (s', rc) := Open(s, name, wronly, trunc);
            var refused := wronly && !Writable(s.inodes[k].mode);
            && rc == (if refused then -EPERM else 0) && SameBut(s, s', k) && s'.backing == s.backing
            && var (a, b) := (s.inodes[k], s'.inodes[k]);
            && SameIdentity(a, b) && SameTimes(a, b) && b.nlink == a.nlink
            && b.size == if trunc && !refused then 0 else a.size
  {
  }

  /**
    A write records size and times whether or not the storage of the name still has a file; if it has,
    the bytes go there, and if not, the answer is EIO and no file is made.
  */
  lemma WriteAnswers(s: Store, name: FileName, buf: seq<byte>, off: nat, atime: word, mtime: word)
    requires WellFormed(s) && Bound(s.dir, name) && off + |buf| <= OFF_MAX
    ensures var e := s.dir[Find(s.dir, name)];
            var (s', rc) := Write(s, name, buf, off, atime, mtime);
            && SameBut(s, s', e.inum) && s'.backing.Keys == s.backing.Keys
            && (forall n | n in s.backing && n != e.storage :: s'.backing[n] == s.backing[n])
            && (var (a, b) := (s.inodes[e.inum], s'.inodes[e.inum]);
                && SameIdentity(a, b) && b.nlink == a.nlink
                && b.size == off + |buf| && b.atime == atime && b.mtime == mtime)
            && (e.storage !in s.backing ==> rc == -EIO)
            && (e.storage in s.backing ==>
                  var (f, g) := (s.backing[e.storage], s'.backing[e.storage]);
                  && rc == |buf|
                  && |g| == (if buf == [] || off + |buf| <= |f| then |f| else off + |buf|)
                  && forall i | 0 <= i < |g| ::
                       g[i] == if off <= i < off + |buf| then buf[i - off] else if i < |f| then f[i] else 0)
  {
  }

  /** A read records its time in any case; without a file in the storage it answers EIO and no bytes. */
  lemma ReadAnswers(s: Store, name: FileName, len: nat, off: nat, now: word)
    requires WellFormed(s) && Bound(s.dir, name)
    ensures var e := s.dir[Find(s.dir, name)];
            var (s', rc, d) := Read(s, name, len, off, now);
            && SameBut(s, s', e.inum) && s'.backing == s.backing
            && (var (a, b) := (s.inodes[e.inum], s'.inodes[e.inum]);
                && SameIdentity(a, b) && b.nlink == a.nlink && b.size == a.size
                && b.atime == now && b.mtime == a.mtime)
            && (e.storage !in s.backing ==> rc == -EIO && d == [])
            && (e.storage in s.backing ==>
                  var f := s.backing[e.storage];
                  && rc == |d| == (if off >= |f| then 0 else if off + len <= |f| then len else |f| - off)
                  && forall i | 0 <= i < |d| :: d[i] == f[off + i])
  {
  }

  /**
    A truncation answers 0 and changes the recorded size only. Growing stores a zero byte at the new
    end, if the storage still has a file; nothing is stored otherwise, and nothing is cut off.
  */
  lemma TruncateAnswers(s: Store, name: FileName, n: nat, atime: word, mtime: word)
    requires WellFormed(s) && Bound(s.dir, name) && n < OFF_MAX
    ensures var e := s.dir[Find(s.dir, name)];
            var (s', rc) := Ftruncate(s, name, n, atime, mtime);
            && rc == 0 && SameBut(s, s', e.inum) && s'.backing.Keys == s.backing.Keys
            && (forall m | m in s.backing && m != e.storage :: s'.backing[m] == s.backing[m])
            && (var (a, b) := (s.inodes[e.inum], s'.inodes[e.inum]);
                && SameIdentity(a, b) && SameTimes(a, b) && b.nlink == a.nlink && b.size == n
                && (e.storage in s.backing ==>
                      var (f, g) := (s.backing[e.storage], s'.backing[e.storage]);
                      if a.size >= n then g == f
                      else |g| == (if n < |f| then |f| else n + 1)
                           && forall i | 0 <= i < |g| :: g[i] == if i != n && i < |f| then f[i] else 0))
  {
    FtruncateIs(s, name, n, atime, mtime);
    WriteAnswers(s, name, [0], n, atime, mtime);
  }

  /** getattr finds the record of the first entry, and counts one block more than the full ones. */
  lemma GetattrAnswers(s: Store, name: FileName)
    requires WellFormed(s)
    ensures Getattr(s, name).Some? <==> Bound(s.dir, name)
    ensures Bound(s.dir, name) ==>
              var (st, blocks) := Getattr(s, name).value;
              st == s.inodes[s.dir[Find(s.dir, name)].inum] && 512 * (blocks - 1) <= st.size < 512 * blocks
  {
  }

  // ---- rename ----

  /** Rename answers 0 whether or not the new name is taken, and renames one entry. */
  lemma RenameAnswers(s: Store, from: FileName, to: FileName)
    requires Bound(s.dir, from)
    ensures var i := Find(s.dir, from);
            var (s', rc) := Rename(s, from, to);
            && rc == 0 && |s'.dir| == |s.dir|
            && s'.dir[i].name == to && s'.dir[i].storage == s.dir[i].storage && s'.dir[i].inum == s.dir[i].inum
            && (forall j | 0 <= j < |s.dir| && j != i :: s'.dir[j] == s.dir[j])
            && s'.tmp == s.tmp && s'.inodes == s.inodes && s'.backing == s.backing && s'.next == s.next
  {
  }

  // ---- mknod ----

  /** A new record: what the caller said, the number, and the time, three times over. */
  predicate New(st: Stat, mode: word, uid: word, gid: word, now: word, ino: nat) {
    && st.mode == mode && st.uid == uid && st.gid == gid && st.ino == ino
    && st.nlink == 1 && st.size == 0 && st.atime == now && st.mtime == now && st.ctime == now
  }

  lemma MknodAnswers(s: Store, name: FileName, mode: word, uid: word, gid: word, now: word)
    requires WellFormed(s) && s.next < INT_MAX
    ensures !Regular(mode) ==> Mknod(s, name, mode, uid, gid, now) == (s, -EPERM)
    ensures Regular(mode) ==>
              var n := s.next;
              var (s', rc) := Mknod(s, name, mode, uid, gid, now);
              && rc == 0 && s'.next == n + 1 && s'.tmp == s.tmp
              && |s'.dir| == (if |s.dir| <= n then n + 1 else |s.dir|)
              && s'.dir[n].name == name && s'.dir[n].storage == name && s'.dir[n].inum == n
              && (forall i | 0 <= i < |s'.dir| && i != n ::
                    s'.dir[i] == if i < |s.dir| then s.dir[i] else FREE)
              && |s'.inodes| == (if |s.inodes| <= n then n + 1 else |s.inodes|)
              && New(s'.inodes[n], mode, uid, gid, now, n)
              && (forall k | 0 <= k < |s'.inodes| && k != n ::
                    s'.inodes[k] == if k < |s.inodes| then s.inodes[k] else NO_STAT)
              && name in s'.backing && s'.backing[name] == []
              && (forall m | m != name :: m in s'.backing <==> m in s.backing)
              && (forall m | m in s.backing && m != name :: s'.backing[m] == s.backing[m])
  {
  }

  /** getattr of a name just created, and not in use before, gives that record. */
  lemma CreatedGetattr(s: Store, name: FileName, mode: word, uid: word, gid: word, now: word)
    requires WellFormed(s) && s.next < INT_MAX && Regular(mode) && !Bound(s.dir, name)
    ensures var s' := Mknod(s, name, mode, uid, gid, now).0;
            && WellFormed(s') && Getattr(s', name).Some?
            && New(Getattr(s', name).value.0, mode, uid, gid, now, s.next) && Getattr(s', name).value.1 == 1
  {
    MknodWellFormed(s, name, mode, uid, gid, now);
    var d := Mknod(s, name, mode, uid, gid, now).0.dir;
    forall i | 0 <= i < |d| && i != s.next ensures !Hit(d[i], name) {
      if i < |s.dir| { assert !Hit(s.dir[i], name); }
    }
    FindIs(d, name, s.next);
  }

  /** So does the file system's creation. */
  lemma CreatedNode(a: Fs, op: Op)
    requires Closed(a) && InRange(a.next, op) && op.DoMknod? && Regular(op.mode)
    ensures var a' := Next(a, op).0;
            && op.name in a'.names && a'.names[op.name] == a.next && a.next in a'.nodes && a'.next == a.next + 1
            && New(a'.nodes[a.next].meta, op.mode, op.uid, op.gid, op.now, a.next) && a'.nodes[a.next].data == []
  {
  }

  // ---- link ----

  /** No slot is unused. */
  predicate Full(dir: seq<Dentry>) {
    forall i | 0 <= i < |dir| :: Live(dir[i])
  }

  /** The slot link takes is the first unused one, or the end of a full table. */
  lemma LinkSlot(dir: seq<Dentry>)
    requires NamesMatchInums(dir)
    ensures forall i | 0 <= i < FreeSlot(dir) :: Live(dir[i])
    ensures if Full(dir) then FreeSlot(dir) == |dir| else FreeSlot(dir) < |dir| && !Live(dir[FreeSlot(dir)])
  {
    UnusedIsDead(dir);
  }

  /** A link answers 0 and adds one entry, with the storage and the inode number of the one linked. */
  lemma LinkEntry(s: Store, from: FileName, to: FileName)
    requires WellFormed(s) && Bound(s.dir, from)
    ensures var i, f := Find(s.dir, from), FreeSlot(s.dir);
            var (s', rc) := Link(s, from, to);
            && rc == 0 && s'.tmp == s.tmp && s'.backing == s.backing && s'.next == s.next
            && |s'.dir| == (if f < |s.dir| then |s.dir| else |s.dir| + 1)
            && s'.dir[f].name == to && s'.dir[f].storage == s.dir[i].storage && s'.dir[f].inum == s.dir[i].inum
            && forall j | 0 <= j < |s.dir| && j != f :: s'.dir[j] == s.dir[j]
  {
  }

  /**
    In a full table the inode of the last entry, whichever it is, gains the link; in a table with an
    unused slot no inode does, but for the record 0 that belongs to no file.
  */
  lemma LinkRecords(s: Store, from: FileName, to: FileName)
    requires WellFormed(s) && Bound(s.dir, from)
    ensures var inodes := Link(s, from, to).0.inodes;
            var k := if Full(s.dir) then s.dir[|s.dir| - 1].inum else 0;
            && |inodes| == |s.inodes| && k < |s.inodes|
            && (forall j | 0 <= j < |s.inodes| && j != k :: inodes[j] == s.inodes[j])
            && OneMore(s.inodes[k].nlink, inodes[k].nlink) && SameIdentity(s.inodes[k], inodes[k])
            && SameTimes(s.inodes[k], inodes[k]) && inodes[k].size == s.inodes[k].size
  {
    LinkSlot(s.dir);
    RelinkIs(s.inodes[Leftover(s.dir)]);
  }

  /** The first entry of a name after a link: the new one, if it is so named and comes first. */
  lemma LinkFinds(s: Store, from: FileName, to: FileName, n: FileName)
    requires WellFormed(s) && Bound(s.dir, from) && (Bound(s.dir, n) || n == to)
    ensures var d := Link(s, from, to).0.dir;
            var i := if n == to && FreeSlot(s.dir) <= Find(s.dir, n) then Find(s.dir, from) else Find(s.dir, n);
            Bound(d, n) && i < |s.dir| && d[Find(d, n)].inum == s.dir[i].inum
  {
    LinkEntry(s, from, to);
    LinkSlot(s.dir);
    var d := Link(s, from, to).0.dir;
    var f, i := FreeSlot(s.dir), Find(s.dir, n);
    FindIs(d, n, if n == to && f <= i then f else i);
  }

  /** getattr of any name after a link: the record of its inode, with one link more if that was the one counted. */
  lemma LinkGetattr(s: Store, from: FileName, to: FileName, n: FileName)
    requires WellFormed(s) && Bound(s.dir, from) && (Bound(s.dir, n) || n == to)
    ensures var s' := Link(s, from, to).0;
            var i := if n == to && FreeSlot(s.dir) <= Find(s.dir, n) then Find(s.dir, from) else Find(s.dir, n);
            && WellFormed(s') && i < |s.dir| && Getattr(s', n).Some?
            && var (a, b) := (s.inodes[s.dir[i].inum], Getattr(s', n).value.0);
            && SameIdentity(a, b) && SameTimes(a, b) && b.size == a.size
            && if Full(s.dir) && s.dir[i].inum == s.dir[|s.dir| - 1].inum then OneMore(a.nlink, b.nlink)
               else b.nlink == a.nlink
  {
    LinkWellFormed(s, from, to);
    LinkFinds(s, from, to, n);
    LinkRecords(s, from, to);
    var i := if n == to && FreeSlot(s.dir) <= Find(s.dir, n) then Find(s.dir, from) else Find(s.dir, n);
    assert Live(s.dir[i]);
  }

  // ---- unlink ----

  /** How many entries of the name, among the first and the second, unlink meets on inode k. */
  function Lost(s: Store, name: FileName, k: nat): nat
    requires Bound(s.dir, name)
  {
    var j := Again(s.dir, name);
    Bit(s.dir[Find(s.dir, name)].inum == k)
    + Bit(name in s.backing && j < |s.dir| && s.dir[j].inum == k)
  }

  lemma DropIs(inodes: seq<Stat>, k: nat)
    requires k < |inodes|
    ensures |DropLink(inodes, k)| == |inodes|
    ensures forall j | 0 <= j < |inodes| ::
              DropLink(inodes, k)[j] == if j == k then Relink(inodes[j], -1) else inodes[j]
  {
  }

  lemma FewerTwice(st: Stat)
    ensures var two := Relink(Relink(st, -1), -1);
            SameIdentity(st, two) && SameTimes(st, two) && two.size == st.size && Fewer(st.nlink, two.nlink, 2)
  {
    RelinkIs(st);
    RelinkIs(Relink(st, -1));
  }

  /**
    Unlink of a name that is there answers 0 exactly when the file called like it is there and no
    second entry has the name; it loses a link for each entry it meets and no file but that one.
  */
  lemma UnlinkAnswers(s: Store, name: FileName)
    requires WellFormed(s) && Bound(s.dir, name)
    ensures var (s', rc) := Unlink(s, name);
            && rc == (if name in s.backing && Again(s.dir, name) == |s.dir| then 0 else -ENOENT)
            && s'.next == s.next && s'.tmp == (if rc == 0 then None else Some(s.dir))
            && (forall n | n in s'.backing :: n in s.backing && n != name && s'.backing[n] == s.backing[n])
            && (forall n | n in s.backing && n != name :: n in s'.backing)
            && |s'.inodes| == |s.inodes|
            && forall k | 0 <= k < |s.inodes| :: LostLinks(s.inodes[k], s'.inodes[k], Lost(s, name, k))
  {
    UnlinkFound(s, name);
    var i, j := Find(s.dir, name), Again(s.dir, name);
    DropIs(s.inodes, s.dir[i].inum);
    if j < |s.dir| { DropIs(DropLink(s.inodes, s.dir[i].inum), s.dir[j].inum); }
    forall k | 0 <= k < |s.inodes|
      ensures LostLinks(s.inodes[k], Unlink(s, name).0.inodes[k], Lost(s, name, k))
    {
      RelinkIs(s.inodes[k]);
      FewerTwice(s.inodes[k]);
    }
  }

  predicate LostLinks(a: Stat, b: Stat, lost: nat) {
    SameIdentity(a, b) && SameTimes(a, b) && b.size == a.size && Fewer(a.nlink, b.nlink, lost)
  }

  // ---- readdir ----

  lemma LiveFirst(dir: seq<Dentry>)
    requires dir != []
    ensures Tally(dir, LIVE) == Bit(Live(dir[0])) + Tally(dir[1..], LIVE)
  {
    TallySplit(dir, 1, LIVE);
    TallyAll(dir[..1], LIVE);
    TallyNone(dir[..1], LIVE);
  }

  lemma {:induction false} ListingSize(dir: seq<Dentry>, inodes: seq<Stat>)
    requires Sized(dir, inodes)
    ensures |Listing(dir, inodes)| == Tally(dir, LIVE)
    decreases |dir|
  {
    if dir != [] {
      ListingSize(dir[1..], inodes);
      LiveFirst(dir);
    }
  }

  lemma LiveBefore(dir: seq<Dentry>, i: nat)
    requires 0 < i < |dir|
    ensures Tally(dir[..i], LIVE) == Bit(Live(dir[0])) + Tally(dir[1..][..i - 1], LIVE)
  {
    LiveFirst(dir[..i]);
    assert dir[1..][..i - 1] == dir[..i][1..];
  }

  /** Each live entry has its line, in the place that the live entries before it leave, and there are no others. */
  lemma {:induction false} ListingAt(dir: seq<Dentry>, inodes: seq<Stat>, i: nat)
    requires Sized(dir, inodes) && i < |dir| && Live(dir[i])
    ensures |Listing(dir, inodes)| == Tally(dir, LIVE)
    ensures var p := Tally(dir[..i], LIVE);
            p < |Listing(dir, inodes)| && Listing(dir, inodes)[p] == (dir[i].name, inodes[dir[i].inum])
    decreases i
  {
    ListingSize(dir, inodes);
    if i > 0 {
      ListingAt(dir[1..], inodes, i - 1);
      LiveBefore(dir, i);
    } else {
      assert dir[..0] == [];
    }
  }
}
