/**
  Which calls keep the invariant: each one exactly when its caller met the obligation.
*/
module Upkeep {
  import opened Codecs
  import opened Layout
  import opened Table
  import opened Store
  import opened System
  import opened Unlinking
  import opened Slots
  import opened Sessions

  lemma NotBound(dir: seq<Dentry>, name: Name)
    ensures Bound(dir, name) <==> exists i | 0 <= i < |dir| :: Hit(dir[i], name)
  {
  }

  lemma FindOnly(dir: seq<Dentry>, i: nat)
    requires Unique(dir) && i < |dir| && Live(dir[i])
    ensures Find(dir, dir[i].name) == i
  {
    FindIs(dir, dir[i].name, i);
  }

  lemma UniqueIsAlone(dir: seq<Dentry>, name: Name)
    requires Unique(dir)
    ensures Alone(dir, name)
  {
  }

  // ---- adding an entry: mknod and link ----

  /** Slot f holds no live entry, so writing there loses none. */
  predicate Spare(dir: seq<Dentry>, f: nat) {
    f < |dir| ==> !Live(dir[f])
  }

  lemma PutEntries(dir: seq<Dentry>, f: nat, e: Dentry)
    requires Spare(dir, f)
    ensures var dir' := Put(dir, f, e, FREE);
            && f < |dir'| && dir'[f] == e
            && (forall i | 0 <= i < |dir| && Live(dir[i]) :: i != f && dir'[i] == dir[i])
            && (forall i | 0 <= i < |dir'| && i != f && Live(dir'[i]) :: i < |dir| && dir'[i] == dir[i])
  {
  }

  lemma PutUnique(dir: seq<Dentry>, f: nat, e: Dentry)
    requires Spare(dir, f) && Live(e) && Unique(dir)
    ensures Unique(Put(dir, f, e, FREE)) <==> !Bound(dir, e.name)
  {
    PutEntries(dir, f, e);
    NotBound(dir, e.name);
    if Bound(dir, e.name) {
      assert Put(dir, f, e, FREE)[Find(dir, e.name)].name == e.name;
    }
  }

  predicate Fits(dir: seq<Dentry>, e: Dentry) {
    forall i | 0 <= i < |dir| && Live(dir[i]) :: dir[i].storage == e.storage <==> dir[i].inum == e.inum
  }

  lemma PutSharing(dir: seq<Dentry>, f: nat, e: Dentry)
    requires Spare(dir, f) && Live(e) && Sharing(dir)
    ensures Sharing(Put(dir, f, e, FREE)) <==> Fits(dir, e)
  {
    PutEntries(dir, f, e);
    var dir' := Put(dir, f, e, FREE);
    if Sharing(dir') {
      forall i | 0 <= i < |dir| && Live(dir[i])
        ensures dir[i].storage == e.storage <==> dir[i].inum == e.inum
      {
        assert dir'[i] == dir[i] && dir'[f] == e;
      }
    }
  }

  lemma PutRest(s: Store, f: nat, e: Dentry, s': Store)
    requires Core(s) && Spare(s.dir, f) && Live(e) && e.name != [] && e.inum <= INT_MAX
    requires s'.dir == Put(s.dir, f, e, FREE) && s'.next >= s.next && e.inum < s'.next
    requires |s'.inodes| >= |s.inodes| && e.inum < |s'.inodes|
    requires s.backing.Keys + {e.storage} == s'.backing.Keys
    ensures WellFormed(s') && Fresh(s') && Stored(s')
  {
    PutEntries(s.dir, f, e);
    assert |s.dir| > 0 || |s'.inodes| > 0;
  }

  lemma MknodCoreIff(s: Store, name: FileName, mode: word, uid: word, gid: word, now: word)
    requires Core(s) && s.next < INT_MAX && Regular(mode)
    ensures Core(Mknod(s, name, mode, uid, gid, now).0) <==> !Bound(s.dir, name) && !StorageTaken(s.dir, name)
  {
    var s' := Mknod(s, name, mode, uid, gid, now).0;
    var e := Dentry(name, name, s.next);
    PutRest(s, s.next, e, s');
    PutUnique(s.dir, s.next, e);
    PutSharing(s.dir, s.next, e);
    PutEntries(s.dir, s.next, e);
    assert Fits(s.dir, e) <==> !StorageTaken(s.dir, name);
  }

  lemma MknodCountOf(s: Store, e: Dentry, k: half)
    requires SlotSafe(s.dir, s.next) && Fresh(s) && e.inum == s.next && 0 < k
    ensures Tally(Put(s.dir, s.next, e, FREE), HasInum(k)) == if k == s.next then 1 else Tally(s.dir, HasInum(k))
  {
    TallyPut(s.dir, s.next, e, HasInum(k));
    if k == s.next {
      TallyNone(s.dir, HasInum(k));
    }
  }

  lemma MknodCounted(s: Store, name: FileName, mode: word, uid: word, gid: word, now: word)
    requires Invariant(s) && s.next < INT_MAX && Regular(mode)
    requires !Bound(s.dir, name) && !StorageTaken(s.dir, name)
    ensures Counted(Mknod(s, name, mode, uid, gid, now).0)
  {
    MknodCoreIff(s, name, mode, uid, gid, now);
    var s' := Mknod(s, name, mode, uid, gid, now).0;
    var e := Dentry(name, name, s.next);
    PutEntries(s.dir, s.next, e);
    forall i | 0 <= i < |s'.dir| && Live(s'.dir[i])
      ensures s'.inodes[s'.dir[i].inum].nlink == Tally(s'.dir, HasInum(s'.dir[i].inum))
    {
      MknodCountOf(s, e, s'.dir[i].inum);
    }
  }

  lemma LinkCoreIff(s: Store, from: FileName, to: FileName)
    requires Core(s) && Bound(s.dir, from)
    ensures Core(IntendedLink(s, from, to).0) <==> !Bound(s.dir, to) && Tally(s.dir, LIVE) < s.next
  {
    var i := Find(s.dir, from);
    var f := FreeSlot(s.dir);
    var e := Dentry(to, s.dir[i].storage, s.dir[i].inum);
    var s' := IntendedLink(s, from, to).0;
    UnusedIsDead(s.dir);
    LinkSlotIff(s.dir, i, to, s.next);
    assert s.backing.Keys + {e.storage} == s.backing.Keys;
    PutRest(s, f, e, s');
    PutUnique(s.dir, f, e);
    PutSharing(s.dir, f, e);
    assert Fits(s.dir, e);
  }

  /** Fewer links than words can count. */
  lemma TallySmall(dir: seq<Dentry>, k: nat, next: counter)
    requires SlotSafe(dir, next) && k != 0
    ensures Tally(dir, HasInum(k)) <= next
  {
    Pigeonhole(dir, next);
    TallyLess(dir, HasInum(k), LIVE);
  }

  lemma {:induction false} TallyLess(dir: seq<Dentry>, p: Dentry -> bool, q: Dentry -> bool)
    requires forall e | e in dir && p(e) :: q(e)
    ensures Tally(dir, p) <= Tally(dir, q)
  {
    if dir != [] {
      TallyLess(dir[..|dir| - 1], p, q);
    }
  }

  lemma RelinkExact(st: Stat, d: int)
    requires 0 <= st.nlink + d < WORD
    ensures Relink(st, d).nlink == st.nlink + d
  {
  }

  lemma LinkCountOf(s: Store, from: FileName, to: FileName, k: half)
    requires Core(s) && Bound(s.dir, from) && Live(s.dir[Find(s.dir, from)])
    requires 0 < k < |s.inodes| && s.inodes[k].nlink == Tally(s.dir, HasInum(k))
    ensures var s' := IntendedLink(s, from, to).0;
            k < |s'.inodes| && s'.inodes[k].nlink == Tally(s'.dir, HasInum(k))
  {
    var f := FreeSlot(s.dir);
    var e := s.dir[Find(s.dir, from)];
    UnusedIsDead(s.dir);
    TallyPut(s.dir, f, Dentry(to, e.storage, e.inum), HasInum(k));
    TallySmall(s.dir, k, s.next);
    RelinkExact(s.inodes[k], 1);
  }

  lemma LinkCounted(s: Store, from: FileName, to: FileName)
    requires Invariant(s) && Bound(s.dir, from)
    requires !Bound(s.dir, to) && Tally(s.dir, LIVE) < s.next
    ensures Counted(IntendedLink(s, from, to).0)
  {
    LinkCoreIff(s, from, to);
    var e := s.dir[Find(s.dir, from)];
    var s' := IntendedLink(s, from, to).0;
    UnusedIsDead(s.dir);
    PutEntries(s.dir, FreeSlot(s.dir), Dentry(to, e.storage, e.inum));
    forall j | 0 <= j < |s'.dir| && Live(s'.dir[j])
      ensures s'.inodes[s'.dir[j].inum].nlink == Tally(s'.dir, HasInum(s'.dir[j].inum))
    {
      LinkCountOf(s, from, to, s'.dir[j].inum);
    }
  }

  // ---- rename ----

  lemma RenameUnique(dir: seq<Dentry>, i: nat, to: FileName)
    requires Unique(dir) && i < |dir| && Live(dir[i])
    ensures Unique(dir[i := dir[i].(name := to)]) <==> dir[i].name == to || !Bound(dir, to)
  {
    var dir' := dir[i := dir[i].(name := to)];
    NotBound(dir, to);
    if dir[i].name != to && Bound(dir, to) {
      var j := Find(dir, to);
      assert dir'[j].name == dir'[i].name && i != j;
    } else {
      forall a, b | 0 <= a < b < |dir'| && Live(dir'[a]) && Live(dir'[b])
        ensures dir'[a].name != dir'[b].name
      {
        assert a != i ==> dir'[a] == dir[a] && (dir[i].name == to || !Hit(dir[a], to));
        assert b != i ==> dir'[b] == dir[b] && (dir[i].name == to || !Hit(dir[b], to));
      }
    }
  }

  lemma RenameCoreIff(s: Store, from: FileName, to: FileName)
    requires Core(s) && Bound(s.dir, from)
    ensures Core(Rename(s, from, to).0) <==> from == to || !Bound(s.dir, to)
  {
    var i := Find(s.dir, from);
    RenameUnique(s.dir, i, to);
    RenameRest(s, i, to);
  }

  /** Apart from names being unique, renaming keeps everything. */
  lemma RenameRest(s: Store, i: nat, to: FileName)
    requires Core(s) && i < |s.dir| && Live(s.dir[i])
    ensures var s' := s.(dir := s.dir[i := s.dir[i].(name := to)]);
            WellFormed(s') && Fresh(s') && SlotSafe(s'.dir, s'.next) && Sharing(s'.dir) && Stored(s')
  {
  }

  lemma RenameCounted(s: Store, from: FileName, to: FileName)
    requires Invariant(s) && Bound(s.dir, from)
    requires WellFormed(Rename(s, from, to).0)
    ensures Counted(Rename(s, from, to).0)
  {
    var i := Find(s.dir, from);
    var e := s.dir[i].(name := to);
    var s' := Rename(s, from, to).0;
    forall j | 0 <= j < |s'.dir| && Live(s'.dir[j])
      ensures s'.inodes[s'.dir[j].inum].nlink == Tally(s'.dir, HasInum(s'.dir[j].inum))
    {
      TallyReplace(s.dir, i, e, HasInum(s'.dir[j].inum));
      assert s'.dir[j].inum == s.dir[j].inum;
    }
  }

  // ---- unlink ----

  /** Compaction keeps what can be said of every live record, and pairs stay pairs. */
  lemma KeptIn(dir: seq<Dentry>, gone: FileName)
    ensures forall e | e in Compacted(Kept(dir, gone)) && Live(e) :: e in dir && e.name != gone
    ensures forall e | e in dir && Keeps(e, gone) :: e in Compacted(Kept(dir, gone))
  {
    var kept := Kept(dir, gone);
    KeptFrom(dir, gone);
    forall e | e in Compacted(kept) && Live(e) ensures e in dir && e.name != gone {
      assert e in kept;
    }
    forall e | e in dir && Keeps(e, gone) ensures e in Compacted(kept) {
      KeptHolds(dir, gone, e);
    }
  }

  lemma {:induction false} KeptHolds(dir: seq<Dentry>, gone: FileName, e: Dentry)
    requires e in dir && Keeps(e, gone)
    ensures e in Kept(dir, gone)
  {
    if dir[|dir| - 1] != e {
      KeptHolds(dir[..|dir| - 1], gone, e);
    }
  }

  lemma {:induction false} UniqueKept(dir: seq<Dentry>, gone: FileName)
    requires Unique(dir) && NamesMatchInums(dir)
    ensures Unique(Kept(dir, gone))
  {
    if dir != [] {
      var init, last := dir[..|dir| - 1], dir[|dir| - 1];
      UniqueKept(init, gone);
      var kept := Kept(init, gone);
      KeptFrom(init, gone);
      if Keeps(last, gone) {
        forall i | 0 <= i < |kept| && Live(kept[i]) ensures kept[i].name != last.name {
          assert kept[i] in init;
          var j :| 0 <= j < |init| && init[j] == kept[i];
          assert dir[j] == init[j] && dir[|dir| - 1] == last;
        }
      } else {
        assert kept + [] == kept;
      }
    }
  }

  lemma UniqueCompacted(dir: seq<Dentry>, gone: FileName)
    requires Unique(dir) && NamesMatchInums(dir)
    ensures Unique(Compacted(Kept(dir, gone)))
  {
    UniqueKept(dir, gone);
    var kept := Kept(dir, gone);
    var d := Compacted(kept);
    assert forall i | 0 <= i < |d| && Live(d[i]) :: i >= 2 && d[i] == kept[i - 2];
  }

  lemma CompactedShape(s: Store, gone: FileName, inodes: seq<Stat>)
    requires Core(s) && |inodes| >= |s.inodes|
    ensures var dir' := Compacted(Kept(s.dir, gone));
            WellFormed(s.(dir := dir', tmp := None, inodes := inodes))
            && Fresh(s.(dir := dir')) && Unique(dir') && Sharing(dir')
  {
    var kept := Kept(s.dir, gone);
    var dir' := Compacted(kept);
    KeptFrom(s.dir, gone);
    KeptIn(s.dir, gone);
    UniqueCompacted(s.dir, gone);
    forall i | 0 <= i < |dir'|
      ensures (dir'[i].name == [] <==> dir'[i].inum == 0) && dir'[i].inum < |s.inodes| && dir'[i].inum <= INT_MAX
      ensures dir'[i].inum < s.next
    {
      if i >= 2 {
        assert kept[i - 2] in s.dir;
      } else {
        assert kept[0] in s.dir;
      }
    }
    forall i, j | 0 <= i < |dir'| && 0 <= j < |dir'| && Live(dir'[i]) && Live(dir'[j])
      ensures dir'[i].storage == dir'[j].storage <==> dir'[i].inum == dir'[j].inum
    {
      assert dir'[i] in s.dir && dir'[j] in s.dir;
    }
  }

  /** Links to inode k after the entries of one name are gone. */
  lemma TallyUnlinked(dir: seq<Dentry>, gone: FileName, k: nat)
    requires Unique(dir) && NamesMatchInums(dir) && k != 0
    ensures Tally(Compacted(Kept(dir, gone)), HasInum(k))
         == Tally(dir, HasInum(k)) - Bit(Bound(dir, gone) && dir[Find(dir, gone)].inum == k)
  {
    var p := (e: Dentry) => e.name == gone && HasInum(k)(e);
    TallyCompacted(Kept(dir, gone), HasInum(k));
    forall e: Dentry | e.name == [] && e in dir ensures !HasInum(k)(e) {
      var i :| 0 <= i < |dir| && dir[i] == e;
    }
    TallyKept(dir, gone, HasInum(k));
    var i := Find(dir, gone);
    UniqueIsAlone(dir, gone);
    forall j | 0 <= j < |dir| && j != i ensures !p(dir[j]) { assert !Hit(dir[j], gone); }
    if i < |dir| { TallyOne(dir, p, i); } else { TallyNone(dir, p); }
  }

  /** The removed name was the last link to its inode exactly when the count drops to zero. */
  lemma UnlinkCountOf(s: Store, name: FileName, k: half)
    requires Core(s) && 0 < k < |s.inodes| && s.inodes[k].nlink == Tally(s.dir, HasInum(k))
    ensures var s' := IntendedUnlink(s, name).0;
            k < |s'.inodes| && s'.inodes[k].nlink == Tally(s'.dir, HasInum(k))
  {
    TallyUnlinked(s.dir, name, k);
    TallySmall(s.dir, k, s.next);
    if Bound(s.dir, name) && s.dir[Find(s.dir, name)].inum == k {
      RelinkExact(s.inodes[k], -1);
    }
  }

  lemma UnlinkCounted(s: Store, name: FileName)
    requires Invariant(s)
    ensures WellFormed(IntendedUnlink(s, name).0) && Counted(IntendedUnlink(s, name).0)
  {
    var s' := IntendedUnlink(s, name).0;
    CompactedShape(s, name, s'.inodes);
    KeptIn(s.dir, name);
    forall j | 0 <= j < |s'.dir| && Live(s'.dir[j])
      ensures s'.inodes[s'.dir[j].inum].nlink == Tally(s'.dir, HasInum(s'.dir[j].inum))
    {
      assert s'.dir[j] in s.dir;
      UnlinkCountOf(s, name, s'.dir[j].inum);
    }
  }

  /** No entry that stays loses its backing file. */
  lemma UnlinkStored(s: Store, name: FileName)
    requires Invariant(s)
    ensures Stored(IntendedUnlink(s, name).0)
  {
    var s' := IntendedUnlink(s, name).0;
    KeptIn(s.dir, name);
    forall j | 0 <= j < |s'.dir| && Live(s'.dir[j]) ensures s'.dir[j].storage in s'.backing {
      assert s'.dir[j] in s.dir;
      if Bound(s.dir, name) {
        var e := s.dir[Find(s.dir, name)];
        UnlinkCountOf(s, name, e.inum);
        if s'.inodes[e.inum].nlink == 0 {
          TallyNone(s'.dir, HasInum(e.inum));
        }
      }
    }
  }

  lemma UnlinkInvariantIff(s: Store, name: FileName)
    requires Invariant(s)
    ensures var left := Tally(s.dir, LIVE) - Bit(Bound(s.dir, name));
            Invariant(IntendedUnlink(s, name).0) <==> left == 0 || left + 2 <= s.next
    ensures Core(IntendedUnlink(s, name).0) ==> Invariant(IntendedUnlink(s, name).0)
  {
    var s' := IntendedUnlink(s, name).0;
    UniqueIsAlone(s.dir, name);
    KeptCount(s.dir, name);
    AloneCount(s.dir, name);
    CompactedSlotIff(Kept(s.dir, name), s.next);
    CompactedShape(s, name, s'.inodes);
    UnlinkCounted(s, name);
    UnlinkStored(s, name);
  }

  // ---- calls that leave the directory alone ----

  /** Only inode k's record, other than its link count, and the bytes of stored files may differ. */
  predicate SameShape(s: Store, s': Store) {
    && s'.dir == s.dir && s'.next == s.next && s'.backing.Keys == s.backing.Keys
    && |s'.inodes| == |s.inodes|
    && forall k | 0 <= k < |s.inodes| :: s'.inodes[k].nlink == s.inodes[k].nlink
  }

  lemma SameShapeKeeps(s: Store, s': Store)
    requires SameShape(s, s') && Core(s)
    ensures Core(s')
    ensures Counted(s) ==> Counted(s')
  {
  }

  lemma OthersSameShape(s: Store, op: Op)
    requires Core(s) && InRange(s.next, op)
    requires !op.DoMknod? && !op.DoLink? && !op.DoRename? && !op.DoUnlink?
    ensures SameShape(s, Coded(s, op).0)
  {
  }

  // ---- every call ----

  /** A call keeps the invariant exactly when the caller's obligation was met. */
  lemma InvariantKeptIff(s: Store, op: Op)
    requires Invariant(s) && InRange(s.next, op)
    ensures Invariant(Intended(s, op).0) <==> Admissible(s, op)
  {
    match op
    case DoMknod(name, mode, uid, gid, now) =>
      if Regular(mode) {
        MknodCoreIff(s, name, mode, uid, gid, now);
        if Admissible(s, op) { MknodCounted(s, name, mode, uid, gid, now); }
      }
    case DoLink(from, to) =>
      if Bound(s.dir, from) {
        LinkCoreIff(s, from, to);
        if Admissible(s, op) { LinkCounted(s, from, to); }
      }
    case DoRename(from, to) =>
      if Bound(s.dir, from) {
        RenameCoreIff(s, from, to);
        if Admissible(s, op) { RenameCounted(s, from, to); }
      }
    case DoUnlink(name) =>
      UnlinkInvariantIff(s, name);
    case _ =>
      OthersSameShape(s, op);
      SameShapeKeeps(s, Coded(s, op).0);
  }

  // ---- what the link counts add up to ----

  function Numbered(n: nat): Dentry -> bool {
    (e: Dentry) => 0 < e.inum < n
  }

  lemma {:induction false} OneMoreNumber(dir: seq<Dentry>, n: nat)
    requires n > 0
    ensures Tally(dir, Numbered(n + 1)) == Tally(dir, Numbered(n)) + Tally(dir, HasInum(n))
  {
    if dir != [] {
      OneMoreNumber(dir[..|dir| - 1], n);
    }
  }

  /** The link counts of the inodes below n that have a name. */
  function LinkSum(s: Store, n: nat): nat
    requires n <= |s.inodes|
  {
    if n <= 1 then 0
    else LinkSum(s, n - 1) + if Tally(s.dir, HasInum(n - 1)) == 0 then 0 else s.inodes[n - 1].nlink
  }

  lemma {:induction false} LinkSumIsTally(s: Store, n: nat)
    requires WellFormed(s) && Counted(s) && n <= |s.inodes|
    ensures LinkSum(s, n) == Tally(s.dir, Numbered(n))
  {
    if n <= 1 {
      TallyNone(s.dir, Numbered(n));
    } else {
      LinkSumIsTally(s, n - 1);
      OneMoreNumber(s.dir, n - 1);
      TallyNone(s.dir, HasInum(n - 1));
      if i :| 0 <= i < |s.dir| && HasInum(n - 1)(s.dir[i]) {
        assert Live(s.dir[i]);
      }
    }
  }

  /** The link counts of all named inodes add up to the number of names. */
  lemma LinkCountsConserved(s: Store)
    requires Invariant(s)
    ensures LinkSum(s, |s.inodes|) == Tally(s.dir, LIVE)
  {
    LinkSumIsTally(s, |s.inodes|);
    TallySame(s.dir, Numbered(|s.inodes|), LIVE);
  }
}
