/**
  The code as it is: what keeps the directory sound, recorded sizes against stored bytes, the
  visible contents after writes and truncations as POSIX puts them, hard links as aliases, and
  reading back what was written.
*/
module Contents {
  import opened Bytes
  import opened Codecs
  import opened Layout
  import opened Store
  import opened System
  import opened Unlinking
  import opened Slots
  import opened Compaction
  import opened Sessions
  import opened Upkeep
  import opened Divergence

  /** The entry of a name that has one. */
  function EntryOf(s: Store, name: Name): Dentry
    requires Bound(s.dir, name)
  {
    Entry(s.dir, name).value
  }

  /** The inode record and the backing bytes behind a name. */
  function View(s: Store, name: Name): (Stat, seq<byte>)
    requires Core(s) && Bound(s.dir, name)
  {
    var e := EntryOf(s, name);
    (s.inodes[e.inum], s.backing[e.storage])
  }

  // ---- what the code needs to keep the directory sound ----

  /** Another live entry keeps its bytes in the file called `name`. */
  predicate StoredUnder(dir: seq<Dentry>, name: Name) {
    exists j | 0 <= j < |dir| :: Live(dir[j]) && dir[j].name != name && dir[j].storage == name
  }

  /**
    The callers' obligations for the code as it is. They are those of the intended steps, but for an
    unlink that finds its name: the file called like it must not be another entry's storage; and when
    there is no such file the call stops there, and only what stood before counts.
  */
  predicate CodedAdmissible(s: Store, op: Op) {
    if op.DoUnlink? && Bound(s.dir, op.name) then
      if op.name in s.backing then Admissible(s, op) && !StoredUnder(s.dir, op.name)
      else
        var left := Tally(s.dir[..Find(s.dir, op.name)], LIVE);
        left == 0 || left + 2 <= s.next
    else Admissible(s, op)
  }

  lemma FrontCore(s: Store, i: nat)
    requires Core(s) && i <= |s.dir|
    ensures Core(s.(dir := s.dir[..i]))
  {
  }

  /** A directory rebuilt from the first i records, without `name`. */
  lemma RebuiltCoreIff(s: Store, name: FileName, i: nat, s': Store)
    requires Core(s) && i <= |s.dir| && s'.next == s.next && |s'.inodes| == |s.inodes|
    requires s'.dir == Compacted(Kept(s.dir[..i], name))
    ensures var front := s.dir[..i];
            var left := Tally(front, LIVE) - Bit(Bound(front, name));
            Core(s') <==> (left == 0 || left + 2 <= s.next) && Stored(s')
  {
    var front := s.dir[..i];
    var t := s.(dir := front);
    FrontCore(s, i);
    CompactedShape(t, name, s'.inodes);
    UniqueIsAlone(front, name);
    KeptCount(front, name);
    AloneCount(front, name);
    CompactedSlotIff(Kept(front, name), s.next);
  }

  lemma StoredAfterIff(s: Store, name: FileName, s': Store)
    requires Core(s) && s'.dir == Compacted(Kept(s.dir, name)) && s'.backing == s.backing - {name}
    ensures Stored(s') <==> !StoredUnder(s.dir, name)
  {
    KeptIn(s.dir, name);
    forall i | 0 <= i < |s'.dir| && Live(s'.dir[i]) ensures s'.dir[i].storage in s.backing {
      assert s'.dir[i] in s.dir;
    }
    if StoredUnder(s.dir, name) {
      var j :| 0 <= j < |s.dir| && Live(s.dir[j]) && s.dir[j].name != name && s.dir[j].storage == name;
      assert s.dir[j] in s.dir && s.dir[j] in s'.dir;
      var i :| 0 <= i < |s'.dir| && s'.dir[i] == s.dir[j];
      assert s'.dir[i].storage !in s'.backing;
    } else {
      forall i | 0 <= i < |s'.dir| && Live(s'.dir[i]) ensures s'.dir[i].storage in s'.backing {
        assert s'.dir[i] in s.dir;
        var j :| 0 <= j < |s.dir| && s.dir[j] == s'.dir[i];
      }
    }
  }

  lemma StoredStill(s: Store, name: FileName, i: nat, s': Store)
    requires Core(s) && i <= |s.dir| && s'.dir == Compacted(Kept(s.dir[..i], name)) && s'.backing == s.backing
    ensures Stored(s')
  {
    KeptIn(s.dir[..i], name);
    forall j | 0 <= j < |s'.dir| && Live(s'.dir[j]) ensures s'.dir[j].storage in s'.backing {
      assert s'.dir[j] in s.dir[..i];
    }
  }

  lemma UnlinkFileCore(s: Store, name: FileName)
    requires Core(s) && Bound(s.dir, name) && name in s.backing
    ensures Core(Unlink(s, name).0) <==> Admissible(s, DoUnlink(name)) && !StoredUnder(s.dir, name)
  {
    assert s.dir[..|s.dir|] == s.dir;
    UniqueIsAlone(s.dir, name);
    UnlinkOnly(s, name);
    RebuiltCoreIff(s, name, |s.dir|, Unlink(s, name).0);
    StoredAfterIff(s, name, Unlink(s, name).0);
  }

  lemma UnlinkCodedCore(s: Store, name: FileName)
    requires Core(s)
    ensures Core(Unlink(s, name).0) <==> CodedAdmissible(s, DoUnlink(name))
  {
    var s' := Unlink(s, name).0;
    if !Bound(s.dir, name) {
      assert s.dir[..|s.dir|] == s.dir;
      UnlinkMissing(s, name);
      RebuiltCoreIff(s, name, |s.dir|, s');
      StoredStill(s, name, |s.dir|, s');
    } else if name in s.backing {
      UnlinkFileCore(s, name);
    } else {
      var i := Find(s.dir, name);
      UnlinkFound(s, name);
      FindIs(s.dir[..i], name, i);
      RebuiltCoreIff(s, name, i, s');
      StoredStill(s, name, i, s');
    }
  }

  /**
    Every call of the code keeps the directory sound exactly when its obligation was met, whatever
    it does to link counts.
  */
  lemma CodedCore(s: Store, op: Op)
    requires Core(s) && InRange(s.next, op)
    ensures Core(Coded(s, op).0) <==> CodedAdmissible(s, op)
  {
    if op.DoMknod? {
      if Regular(op.mode) { MknodCoreIff(s, op.name, op.mode, op.uid, op.gid, op.now); }
    } else if op.DoLink? {
      if Bound(s.dir, op.from) {
        LinkCoreIff(s, op.from, op.to);
        SameTables(Link(s, op.from, op.to).0, IntendedLink(s, op.from, op.to).0);
      }
    } else if op.DoRename? {
      if Bound(s.dir, op.from) { RenameCoreIff(s, op.from, op.to); }
    } else if op.DoUnlink? {
      UnlinkCodedCore(s, op.name);
    } else {
      OthersSameShape(s, op);
      SameShapeKeeps(s, Coded(s, op).0);
    }
  }

  lemma SameTables(s: Store, t: Store)
    requires s.dir == t.dir && s.next == t.next && s.backing.Keys == t.backing.Keys && |s.inodes| == |t.inodes|
    ensures Core(s) <==> Core(t)
  {
  }

  // ---- recorded sizes ----

  /** No live inode records more bytes than its backing file holds. */
  predicate SizeBounded(s: Store)
    requires Core(s)
  {
    forall i | 0 <= i < |s.dir| && Live(s.dir[i]) ::
      s.inodes[s.dir[i].inum].size <= |s.backing[s.dir[i].storage]|
  }

  /** Writing nothing past the end of the stored bytes still records the larger size. */
  predicate WritesNothingPastEnd(s: Store, op: Op)
    requires Core(s)
  {
    op.DoWrite? && op.buf == [] && Bound(s.dir, op.name) && op.off > |View(s, op.name).1|
  }

  lemma WriteSize(s: Store, op: Op)
    requires Core(s) && SizeBounded(s) && InRange(s.next, op) && op.DoWrite? && Core(Coded(s, op).0)
    ensures SizeBounded(Coded(s, op).0) <==> !WritesNothingPastEnd(s, op)
  {
    if Bound(s.dir, op.name) {
      var i := Find(s.dir, op.name);
      var s' := Coded(s, op).0;
      assert Live(s.dir[i]);
      if WritesNothingPastEnd(s, op) {
        assert s'.inodes[s'.dir[i].inum].size > |s'.backing[s'.dir[i].storage]|;
      }
    }
  }

  lemma MknodSize(s: Store, op: Op)
    requires Core(s) && SizeBounded(s) && InRange(s.next, op) && op.DoMknod? && Admissible(s, op)
    ensures Core(Coded(s, op).0) && SizeBounded(Coded(s, op).0)
  {
    CodedCore(s, op);
    if Regular(op.mode) {
      PutEntries(s.dir, s.next, Dentry(op.name, op.name, s.next));
    }
  }

  lemma LinkSize(s: Store, op: Op)
    requires Core(s) && SizeBounded(s) && op.DoLink? && Admissible(s, op)
    ensures Core(Coded(s, op).0) && SizeBounded(Coded(s, op).0)
  {
    CodedCore(s, op);
    if Bound(s.dir, op.from) {
      var e := EntryOf(s, op.from);
      UnusedIsDead(s.dir);
      PutEntries(s.dir, FreeSlot(s.dir), Dentry(op.to, e.storage, e.inum));
      assert forall k | 0 <= k < |s.inodes| :: Coded(s, op).0.inodes[k].size == s.inodes[k].size;
    }
  }

  lemma RenameSize(s: Store, op: Op)
    requires Core(s) && SizeBounded(s) && op.DoRename? && Admissible(s, op)
    ensures Core(Coded(s, op).0) && SizeBounded(Coded(s, op).0)
  {
    CodedCore(s, op);
  }

  lemma TouchFrame(s: Store, op: Op)
    requires WellFormed(s) && (op.DoChmod? || op.DoUtimens? || op.DoOpen? || op.DoRead?)
    ensures var s' := Coded(s, op).0;
            && s'.dir == s.dir && s'.backing == s.backing && |s'.inodes| == |s.inodes|
            && forall k | 0 <= k < |s.inodes| :: s'.inodes[k].size <= s.inodes[k].size
  {
  }

  lemma TouchSize(s: Store, op: Op)
    requires Core(s) && SizeBounded(s) && (op.DoChmod? || op.DoUtimens? || op.DoOpen? || op.DoRead?)
    ensures Core(Coded(s, op).0) && SizeBounded(Coded(s, op).0)
  {
    CodedCore(s, op);
    TouchFrame(s, op);
  }

  lemma UnlinkSize(s: Store, op: Op)
    requires Core(s) && SizeBounded(s) && op.DoUnlink? && CodedAdmissible(s, op)
    ensures Core(Coded(s, op).0) && SizeBounded(Coded(s, op).0)
  {
    var s' := Coded(s, op).0;
    CodedCore(s, op);
    UnlinkKeepsEntries(s, op.name);
    forall i | 0 <= i < |s'.dir| && Live(s'.dir[i])
      ensures s'.inodes[s'.dir[i].inum].size <= |s'.backing[s'.dir[i].storage]|
    {
      var j :| 0 <= j < |s.dir| && s.dir[j] == s'.dir[i];
    }
  }

  /** What is left after unlink was there before; inode records keep their sizes, files their bytes. */
  lemma UnlinkKeepsEntries(s: Store, name: FileName)
    requires Core(s)
    ensures var s' := Unlink(s, name).0;
            && (forall i | 0 <= i < |s'.dir| && Live(s'.dir[i]) :: s'.dir[i] in s.dir)
            && |s'.inodes| == |s.inodes| && (forall k | 0 <= k < |s.inodes| :: s'.inodes[k].size == s.inodes[k].size)
            && (forall n | n in s'.backing :: n in s.backing && s'.backing[n] == s.backing[n])
  {
    UniqueIsAlone(s.dir, name);
    if Bound(s.dir, name) {
      UnlinkOnly(s, name);
      KeptIn(s.dir[..Find(s.dir, name)], name);
    } else {
      UnlinkMissing(s, name);
    }
    KeptIn(s.dir, name);
    var s' := Unlink(s, name).0;
    forall i | 0 <= i < |s'.dir| && Live(s'.dir[i]) ensures s'.dir[i] in s.dir {
      assert s'.dir[i] in s'.dir;
    }
  }

  /** A call keeps sizes within stored bytes, except for that one kind of write. */
  lemma SizeBoundedIff(s: Store, op: Op)
    requires Core(s) && SizeBounded(s) && InRange(s.next, op) && CodedAdmissible(s, op)
    ensures Core(Coded(s, op).0)
    ensures SizeBounded(Coded(s, op).0) <==> !WritesNothingPastEnd(s, op)
  {
    CodedCore(s, op);
    match op
    case DoMknod(_, _, _, _, _) => MknodSize(s, op);
    case DoLink(_, _) => LinkSize(s, op);
    case DoRename(_, _) => RenameSize(s, op);
    case DoUnlink(_) => UnlinkSize(s, op);
    case DoWrite(_, _, _, _, _) => WriteSize(s, op);
    case DoTruncate(_, _, _, _) => TruncateSize(s, op);
    case _ => TouchSize(s, op);
  }

  lemma TruncateSize(s: Store, op: Op)
    requires Core(s) && SizeBounded(s) && InRange(s.next, op) && op.DoTruncate? && Core(Coded(s, op).0)
    ensures SizeBounded(Coded(s, op).0)
  {
    if Bound(s.dir, op.name) {
      var i := Find(s.dir, op.name);
      assert Live(s.dir[i]);
    }
  }

  predicate CoreThroughout(s: Store, ops: seq<Op>)
    requires CodedRunnable(s, ops)
    decreases |ops|
  {
    Core(s) && (ops == [] || CoreThroughout(Coded(s, ops[0]).0, ops[1..]))
  }

  predicate CodedObligations(s: Store, ops: seq<Op>)
    requires CodedRunnable(s, ops)
    decreases |ops|
  {
    ops == [] || (CodedAdmissible(s, ops[0]) && CodedObligations(Coded(s, ops[0]).0, ops[1..]))
  }

  /** A run of the code keeps the directory sound throughout exactly when each call's obligation was met. */
  lemma {:induction false} CodedRunCoreIff(s: Store, ops: seq<Op>)
    requires Core(s) && CodedRunnable(s, ops)
    ensures CoreThroughout(s, ops) <==> CodedObligations(s, ops)
    decreases |ops|
  {
    if ops != [] {
      CodedCore(s, ops[0]);
      if CodedAdmissible(s, ops[0]) {
        CodedRunCoreIff(Coded(s, ops[0]).0, ops[1..]);
      }
    }
  }

  /** Runs of the code whose callers met their obligations and never wrote nothing past the end. */
  predicate Sizable(s: Store, ops: seq<Op>)
    requires CodedRunnable(s, ops)
    decreases |ops|
  {
    ops == [] ||
    (Core(s) && CodedAdmissible(s, ops[0]) && !WritesNothingPastEnd(s, ops[0])
     && Sizable(Coded(s, ops[0]).0, ops[1..]))
  }

  lemma {:induction false} SizesStayBounded(s: Store, ops: seq<Op>)
    requires Core(s) && SizeBounded(s) && CodedRunnable(s, ops) && Sizable(s, ops)
    ensures Core(CodedRun(s, ops)) && SizeBounded(CodedRun(s, ops))
    decreases |ops|
  {
    if ops != [] {
      SizeBoundedIff(s, ops[0]);
      SizesStayBounded(Coded(s, ops[0]).0, ops[1..]);
    }
  }

  // ---- visible contents ----

  /** The bytes a caller should see: the recorded size of them, zero where nothing is stored. */
  function Visible(v: (Stat, seq<byte>)): (d: seq<byte>)
    ensures |d| == v.0.size
    ensures forall i | 0 <= i < |d| :: d[i] == if i < |v.1| then v.1[i] else 0
  {
    if v.0.size <= |v.1| then v.1[..v.0.size] else v.1 + Zeros(v.0.size - |v.1|)
  }

  /** Bytes left by an earlier, longer life of the file, between its size and n, are all zero. */
  predicate Clean(v: (Stat, seq<byte>), n: nat) {
    forall i | v.0.size <= i < n && i < |v.1| :: v.1[i] == 0
  }

  /** A string of bytes, cut or padded: what is stored after a truncation shows it exactly when that is clean. */
  lemma VisibleTruncateIff(v: (Stat, seq<byte>), v': (Stat, seq<byte>), n: nat)
    requires n < OFF_MAX && v'.0.size == n
    requires v'.1 == if v.0.size < n then WriteAt(v.1, n, [0]) else v.1
    ensures Visible(v') == Resized(Visible(v), n) <==> Clean(v, n)
  {
    var a, b := Visible(v'), Resized(Visible(v), n);
    forall i | 0 <= i < n ensures a[i] == if i < |v.1| then v.1[i] else 0 {}
    if a == b {
      forall i | v.0.size <= i < n && i < |v.1| ensures v.1[i] == 0 {
        assert a[i] == b[i];
      }
    }
  }

  lemma VisibleWriteIff(v: (Stat, seq<byte>), v': (Stat, seq<byte>), buf: seq<byte>, off: nat)
    requires off + |buf| <= OFF_MAX && v'.0.size == off + |buf| && v'.1 == WriteAt(v.1, off, buf)
    ensures Visible(v') == WriteAt(Visible(v), off, buf)
            <==> if buf == [] then off == v.0.size else v.0.size <= off + |buf| && Clean(v, off)
  {
    var a, b := Visible(v'), WriteAt(Visible(v), off, buf);
    assert |a| == off + |buf|;
    if a == b && buf != [] {
      forall i | v.0.size <= i < off && i < |v.1| ensures v.1[i] == 0 {
        assert a[i] == b[i];
      }
    }
  }

  lemma FtruncateView(s: Store, name: FileName, n: nat, atime: word, mtime: word)
    requires Core(s) && Bound(s.dir, name) && n < OFF_MAX
    ensures var s' := Ftruncate(s, name, n, atime, mtime).0;
            var (st, d) := View(s, name);
            Core(s') && Bound(s'.dir, name)
            && View(s', name) == (st.(size := n), if st.size < n then WriteAt(d, n, [0]) else d)
  {
    var op := DoTruncate(name, n, atime, mtime);
    CodedCore(s, op);
  }

  /** Truncation does what POSIX says exactly when it shrinks, or finds no leftovers where it grows. */
  lemma TruncateVisibleIff(s: Store, name: FileName, n: nat, atime: word, mtime: word)
    requires Core(s) && Bound(s.dir, name) && n < OFF_MAX
    ensures var s' := Ftruncate(s, name, n, atime, mtime).0;
            Core(s') && Bound(s'.dir, name)
            && (Visible(View(s', name)) == Resized(Visible(View(s, name)), n) <==> Clean(View(s, name), n))
  {
    FtruncateView(s, name, n, atime, mtime);
    VisibleTruncateIff(View(s, name), View(Ftruncate(s, name, n, atime, mtime).0, name), n);
  }

  lemma WriteView(s: Store, name: FileName, buf: seq<byte>, off: nat, atime: word, mtime: word)
    requires Core(s) && Bound(s.dir, name) && off + |buf| <= OFF_MAX
    ensures var s' := Write(s, name, buf, off, atime, mtime).0;
            var (st, d) := View(s, name);
            Core(s') && Bound(s'.dir, name)
            && View(s', name) == (st.(size := off + |buf|, atime := atime, mtime := mtime), WriteAt(d, off, buf))
  {
    var op := DoWrite(name, buf, off, atime, mtime);
    CodedCore(s, op);
  }

  /**
    A write leaves the contents POSIX says exactly when it reaches the recorded end, which the code
    moves to the end of the write in any case, and finds no leftovers before its start; and a write of
    nothing, which stores nothing but moves the end all the same, exactly when it is made at the end.
  */
  lemma WriteVisibleIff(s: Store, name: FileName, buf: seq<byte>, off: nat, atime: word, mtime: word)
    requires Core(s) && Bound(s.dir, name) && off + |buf| <= OFF_MAX
    ensures var s' := Write(s, name, buf, off, atime, mtime).0;
            var v := View(s, name);
            Core(s') && Bound(s'.dir, name)
            && (Visible(View(s', name)) == WriteAt(Visible(v), off, buf)
                <==> if buf == [] then off == v.0.size else v.0.size <= off + |buf| && Clean(v, off))
  {
    WriteView(s, name, buf, off, atime, mtime);
    VisibleWriteIff(View(s, name), View(Write(s, name, buf, off, atime, mtime).0, name), buf, off);
  }

  /**
    Reads look at the stored bytes, not at the recorded size: right exactly when nothing is asked for,
    the two ends agree, or the request is past both ends or within both.
  */
  lemma ReadVisibleIff(s: Store, name: FileName, len: nat, off: nat, now: word)
    requires Core(s) && Bound(s.dir, name)
    ensures var (st, d) := View(s, name);
            Read(s, name, len, off, now).2 == ReadAt(Visible((st, d)), off, len)
            <==> || len == 0 || st.size == |d|
                 || (off >= |d| && off >= st.size) || (off + len <= st.size && off + len <= |d|)
  {
    var e := EntryOf(s, name);
    assert Live(s.dir[Find(s.dir, name)]);
    var (st, d) := View(s, name);
    ReadsAgreeIff(d, Visible((st, d)), len, off);
  }

  /** Two byte strings of which one extends the other with zeros, or cuts it. */
  lemma ReadsAgreeIff(d: seq<byte>, v: seq<byte>, len: nat, off: nat)
    requires forall i | 0 <= i < |d| && i < |v| :: v[i] == d[i]
    ensures ReadAt(d, off, len) == ReadAt(v, off, len)
            <==> || len == 0 || |v| == |d|
                 || (off >= |d| && off >= |v|) || (off + len <= |v| && off + len <= |d|)
  {
    var a, b := ReadAt(d, off, len), ReadAt(v, off, len);
    if |a| == |b| {
      assert a == b;
    }
  }

  // ---- hard links ----

  /** Such a call changes one inode record and the bytes of one backing file. */
  lemma OnInodeFrame(s: Store, op: Op)
    requires Core(s) && InRange(s.next, op) && OnOneInode(op) && Bound(s.dir, op.name)
    ensures var s', e := Coded(s, op).0, EntryOf(s, op.name);
            && Core(s') && s'.dir == s.dir
            && (forall k | 0 <= k < |s.inodes| && k != e.inum :: s'.inodes[k] == s.inodes[k])
            && (forall n | n in s.backing && n != e.storage :: s'.backing[n] == s.backing[n])
  {
    CodedCore(s, op);
  }

  /**
    After any such call through a name, every other name of the inode shows the same record and
    bytes as that name does; names of other inodes show what they showed before.
  */
  lemma AliasesMove(s: Store, op: Op, b: FileName)
    requires Core(s) && InRange(s.next, op) && OnOneInode(op)
    requires Bound(s.dir, op.name) && Bound(s.dir, b)
    ensures var s' := Coded(s, op).0;
            Core(s') && Bound(s'.dir, op.name) && Bound(s'.dir, b)
            && View(s', b) == if EntryOf(s, b).inum == EntryOf(s, op.name).inum then View(s', op.name) else View(s, b)
  {
    OnInodeFrame(s, op);
    var i, j := Find(s.dir, op.name), Find(s.dir, b);
    assert Live(s.dir[i]) && Live(s.dir[j]);
  }

  /** A new link is an alias at once: same inode, same bytes, as the old name shows after the call. */
  lemma LinkIsAlias(s: Store, from: FileName, to: FileName)
    requires Core(s) && Bound(s.dir, from) && Admissible(s, DoLink(from, to))
    ensures var s' := Link(s, from, to).0;
            Core(s') && Bound(s'.dir, from) && Bound(s'.dir, to)
            && EntryOf(s', to).inum == EntryOf(s', from).inum == EntryOf(s, from).inum
            && View(s', to) == View(s', from) && View(s', to).1 == View(s, from).1
  {
    CodedCore(s, DoLink(from, to));
    var i, f := Find(s.dir, from), FreeSlot(s.dir);
    var e := Dentry(to, s.dir[i].storage, s.dir[i].inum);
    var s' := Link(s, from, to).0;
    UnusedIsDead(s.dir);
    PutEntries(s.dir, f, e);
    assert s'.dir[f] == e && s'.dir[i] == s.dir[i];
    FindOnly(s'.dir, f);
    FindOnly(s'.dir, i);
  }

  // ---- reading back, through renames ----

  function RenameAll(s: Store, rs: seq<(FileName, FileName)>): Store
    decreases |rs|
  {
    if rs == [] then s else RenameAll(Rename(s, rs[0].0, rs[0].1).0, rs[1..])
  }

  /** Renames, in any number and to whatever names, move no inode and no byte. */
  lemma {:induction false} RenamesMoveNothing(s: Store, rs: seq<(FileName, FileName)>)
    requires WellFormed(s)
    ensures var s' := RenameAll(s, rs);
            && WellFormed(s')
            && |s'.dir| == |s.dir| && s'.inodes == s.inodes && s'.backing == s.backing && s'.next == s.next
            && forall i | 0 <= i < |s.dir| :: s'.dir[i].inum == s.dir[i].inum && s'.dir[i].storage == s.dir[i].storage
    decreases |rs|
  {
    if rs != [] {
      RenamesMoveNothing(Rename(s, rs[0].0, rs[0].1).0, rs[1..]);
    }
  }

  /**
    After a write and any renames, a read at any offset through any name that now leads to the inode
    sees the old bytes with the written ones spliced in, and zeros in a gap past the old end.
  */
  lemma ReadAfterWrite(s: Store, a: FileName, buf: seq<byte>, off: nat, atime: word, mtime: word,
                       rs: seq<(FileName, FileName)>, b: FileName, len: nat, pos: nat, now: word)
    requires Core(s) && Bound(s.dir, a) && off + |buf| <= OFF_MAX
    requires var s' := RenameAll(Write(s, a, buf, off, atime, mtime).0, rs);
             Bound(s'.dir, b) && EntryOf(s', b).inum == EntryOf(s, a).inum
    ensures var s' := RenameAll(Write(s, a, buf, off, atime, mtime).0, rs);
            && WellFormed(s')
            && Read(s', b, len, pos, now).2 == ReadAt(WriteAt(View(s, a).1, off, buf), pos, len)
            && (pos == off && len == |buf| ==> Read(s', b, len, pos, now).2 == buf)
  {
    var s1 := Write(s, a, buf, off, atime, mtime).0;
    WriteView(s, a, buf, off, atime, mtime);
    RenamesMoveNothing(s1, rs);
    var s' := RenameAll(s1, rs);
    var i, j := Find(s.dir, a), Find(s'.dir, b);
    assert Live(s.dir[i]) && Live(s.dir[j]);
    assert s'.dir[j].storage == s.dir[j].storage == s.dir[i].storage;
    ReadBack(View(s, a).1, off, buf);
  }
}
