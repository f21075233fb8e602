/**
  Inode numbers over whole runs of the code as it is, with no obligation on its callers; and the
  agreement of the directory listing with lookups.
*/
module Numbers {
  import opened Layout
  import opened Store
  import opened Unlinking
  import opened Slots
  import opened Sessions
  import opened Upkeep
  import opened Divergence

  // ---- numbers ----

  lemma CodedWellFormed(s: Store, op: Op)
    requires WellFormed(s) && InRange(s.next, op)
    ensures WellFormed(Coded(s, op).0)
  {
    match op
    case DoMknod(name, mode, uid, gid, now) => MknodWellFormed(s, name, mode, uid, gid, now);
    case DoLink(from, to) => LinkWellFormed(s, from, to);
    case DoUnlink(name) => UnlinkWellFormed(s, name);
    case DoWrite(name, buf, off, atime, mtime) => WriteWellFormed(s, name, buf, off, atime, mtime);
    case DoTruncate(name, size, atime, mtime) => FtruncateWellFormed(s, name, size, atime, mtime);
    case _ =>
  }

  lemma UnlinkKeepsFresh(s: Store, name: FileName)
    requires WellFormed(s) && Fresh(s)
    ensures Fresh(Unlink(s, name).0)
  {
    HeldFinish(s, name, Begin(s));
    var d := Unlink(s, name).0.dir;
    if d != s.dir {
      var p: nat :| p <= |s.dir| && d == Compacted(Kept(s.dir[..p], name));
      KeptIn(s.dir[..p], name);
      forall i | 0 <= i < |d| ensures d[i].inum < s.next {
        assert d[i] in d;
        assert Live(d[i]) ==> d[i] in s.dir;
      }
    }
  }

  lemma CodedTicks(s: Store, op: Op)
    requires WellFormed(s) && InRange(s.next, op)
    ensures Coded(s, op).0.next == Ticked(s.next, op)
  {
  }

  lemma CodedFresh(s: Store, op: Op)
    requires WellFormed(s) && Fresh(s) && InRange(s.next, op)
    ensures Fresh(Coded(s, op).0)
    ensures Coded(s, op).0.next == s.next + Bit(op.DoMknod? && Regular(op.mode))
  {
    CodedTicks(s, op);
    if op.DoUnlink? { UnlinkKeepsFresh(s, op.name); }
  }

  // ---- ranges are all a run needs ----

  lemma IntendedWellFormed(s: Store, op: Op)
    requires WellFormed(s) && InRange(s.next, op)
    ensures WellFormed(Intended(s, op).0) && Intended(s, op).0.next == Ticked(s.next, op)
  {
    if op.DoLink? {
      LinkWellFormed(s, op.from, op.to);
    } else if op.DoUnlink? {
      CompactedFormed(s.dir, op.name, |s.dir|, s.inodes);
      assert s.dir[..|s.dir|] == s.dir;
    } else {
      CodedWellFormed(s, op);
      CodedTicks(s, op);
    }
  }

  /** Any calls in any order are a run of the code, as long as the C arithmetic stays in range. */
  lemma {:induction false} CodedRunnableIff(s: Store, ops: seq<Op>)
    requires WellFormed(s)
    ensures CodedRunnable(s, ops) <==> InRangeThroughout(s.next, ops)
    decreases |ops|
  {
    if ops != [] && InRange(s.next, ops[0]) {
      CodedWellFormed(s, ops[0]);
      CodedTicks(s, ops[0]);
      CodedRunnableIff(Coded(s, ops[0]).0, ops[1..]);
    }
  }

  /** And of the intended steps. */
  lemma {:induction false} RunnableIff(s: Store, ops: seq<Op>)
    requires WellFormed(s)
    ensures Runnable(s, ops) <==> InRangeThroughout(s.next, ops)
    decreases |ops|
  {
    if ops != [] && InRange(s.next, ops[0]) {
      IntendedWellFormed(s, ops[0]);
      RunnableIff(Intended(s, ops[0]).0, ops[1..]);
    }
  }

  // ---- the numbers given out ----

  /** The inode numbers a run of the code gives out, in order. */
  function Issued(s: Store, ops: seq<Op>): seq<nat>
    requires CodedRunnable(s, ops)
    decreases |ops|
  {
    if ops == [] then []
    else
      (if ops[0].DoMknod? && Regular(ops[0].mode) then [s.next] else []) + Issued(Coded(s, ops[0]).0, ops[1..])
  }

  /**
    However the code is used, the numbers it gives out are consecutive, so no two creations share
    one, and in the end every number in the table is below the counter, which is the next to be given.
  */
  lemma {:induction false} IssuedConsecutive(s: Store, ops: seq<Op>)
    requires WellFormed(s) && Fresh(s) && InRangeThroughout(s.next, ops)
    ensures CodedRunnable(s, ops)
    ensures var s' := CodedRun(s, ops);
            var l := Issued(s, ops);
            && WellFormed(s') && Fresh(s')
            && s'.next == s.next + |l|
            && forall i | 0 <= i < |l| :: l[i] == s.next + i
    decreases |ops|
  {
    if ops != [] {
      CodedWellFormed(s, ops[0]);
      CodedFresh(s, ops[0]);
      CodedTicks(s, ops[0]);
      IssuedConsecutive(Coded(s, ops[0]).0, ops[1..]);
    }
  }

  // ---- listing and lookup ----

  lemma {:induction false} ListingIs(dir: seq<Dentry>, inodes: seq<Stat>, n: Name, st: Stat)
    requires Sized(dir, inodes)
    ensures (n, st) in Listing(dir, inodes)
            <==> exists i :: 0 <= i < |dir| && Hit(dir[i], n) && inodes[dir[i].inum] == st
  {
    if dir != [] {
      var rest := dir[1..];
      ListingIs(rest, inodes, n, st);
      if i :| 0 <= i < |dir| && Hit(dir[i], n) && inodes[dir[i].inum] == st {
        if i > 0 { assert rest[i - 1] == dir[i]; }
      }
      if i :| 0 <= i < |rest| && Hit(rest[i], n) && inodes[rest[i].inum] == st {
        assert dir[i + 1] == rest[i];
      }
    }
  }

  /** No name is listed twice. */
  predicate Once(l: seq<(Name, Stat)>) {
    forall i, j | 0 <= i < j < |l| :: l[i].0 != l[j].0
  }

  lemma {:induction false} ListedOnce(dir: seq<Dentry>, inodes: seq<Stat>)
    requires Sized(dir, inodes) && Unique(dir)
    ensures Once(Listing(dir, inodes))
  {
    if dir != [] {
      var rest := dir[1..];
      ListedOnce(rest, inodes);
      var l, all := Listing(rest, inodes), Listing(dir, inodes);
      assert all == Line(dir[0], inodes) + l;
      if Live(dir[0]) {
        forall j | 0 <= j < |l| ensures l[j].0 != dir[0].name {
          NotListed(dir, inodes, l[j]);
        }
      }
      var h := |all| - |l|;
      forall i, j | 0 <= i < j < |all| ensures all[i].0 != all[j].0 {
        assert all[j] == l[j - h];
        if i >= h { assert all[i] == l[i - h] && l[i - h].0 != l[j - h].0; }
      }
    }
  }

  lemma NotListed(dir: seq<Dentry>, inodes: seq<Stat>, line: (Name, Stat))
    requires dir != [] && Sized(dir, inodes) && Unique(dir) && Live(dir[0])
    requires line in Listing(dir[1..], inodes)
    ensures line.0 != dir[0].name
  {
    var rest := dir[1..];
    ListingIs(rest, inodes, line.0, line.1);
    var i :| 0 <= i < |rest| && Hit(rest[i], line.0);
    assert dir[i + 1] == rest[i];
  }

  ghost predicate Listed(s: Store, n: Name)
    requires WellFormed(s)
  {
    exists st :: (n, st) in Listing(s.dir, s.inodes)
  }

  /**
    A name is listed exactly when getattr finds it, and one of its lines has the record getattr returns
    (which adds a block count). Where names are unique it has no other line.
  */
  lemma ListingAgrees(s: Store, n: FileName, st: Stat)
    requires WellFormed(s)
    ensures Listed(s, n) <==> Getattr(s, n).Some?
    ensures Getattr(s, n) == Some((st, st.size / 512 + 1)) ==> (n, st) in Listing(s.dir, s.inodes)
    ensures Unique(s.dir) ==> Once(Listing(s.dir, s.inodes))
    ensures Unique(s.dir) && (n, st) in Listing(s.dir, s.inodes) ==> Getattr(s, n) == Some((st, st.size / 512 + 1))
  {
    var k := Find(s.dir, n);
    if k < |s.dir| {
      ListingIs(s.dir, s.inodes, n, s.inodes[s.dir[k].inum]);
    }
    if x :| (n, x) in Listing(s.dir, s.inodes) {
      ListingIs(s.dir, s.inodes, n, x);
    }
    if Unique(s.dir) { LookupsAgree(s, n, st); }
  }

  lemma LookupsAgree(s: Store, n: FileName, st: Stat)
    requires WellFormed(s) && Unique(s.dir)
    ensures Once(Listing(s.dir, s.inodes))
    ensures (n, st) in Listing(s.dir, s.inodes) ==> Getattr(s, n) == Some((st, st.size / 512 + 1))
  {
    ListedOnce(s.dir, s.inodes);
    ListingIs(s.dir, s.inodes, n, st);
    if i :| 0 <= i < |s.dir| && Hit(s.dir[i], n) && s.inodes[s.dir[i].inum] == st {
      FindOnly(s.dir, i);
    }
  }
}
