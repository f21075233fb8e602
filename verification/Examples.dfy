/**
  Short sessions of the code as it is, one for each contract it breaks. The exact conditions are
  in modules Upkeep, Divergence, Contents and Refusals; these show that they are met in practice.
*/
module Examples {
  import opened Bytes
  import opened Codecs
  import opened Layout
  import opened Table
  import opened Store
  import opened System
  import opened Unlinking
  import opened Slots
  import opened Sessions
  import opened Upkeep
  import opened Divergence
  import opened Contents
  import opened Numbers
  import opened Answers

  const A: FileName := [97]
  const B: FileName := [98]
  const C: FileName := [99]
  const D: FileName := [100]
  const E: FileName := [101]
  const F: FileName := [102]
  const MODE: word := 0x81A4

  function File(name: FileName, inum: half): Dentry {
    Dentry(name, name, inum)
  }

  function Create(s: Store, name: FileName): Store
    requires s.next < INT_MAX
  {
    Mknod(s, name, MODE, 0, 0, 0).0
  }

  /** A fresh store with one file. */
  function One(): Store {
    Create(FRESH, A)
  }

  lemma OneIs()
    ensures One().dir == [FREE, File(A, 1)] && One().next == 2
    ensures One().inodes == [NO_STAT, NewStat(MODE, 0, 0, 0, 1)] && One().backing == map[A := []]
    ensures WellFormed(One()) && Core(One()) && Find(One().dir, A) == 1 && FreeSlot(One().dir) == 0
  {
    assert One().dir == [FREE, File(A, 1)];
    assert One().inodes == [NO_STAT, NewStat(MODE, 0, 0, 0, 1)];
    OneEntry(One());
  }

  lemma OneEntry(s: Store)
    requires s.dir == [FREE, File(A, 1)] && s.next == 2 && |s.inodes| == 2 && A in s.backing
    ensures Core(s) && Find(s.dir, A) == 1 && FreeSlot(s.dir) == 0
  {
    FindIs(s.dir, A, 1);
    FreeSlotIs(s.dir, 0);
  }

  /** `create a; link a b`: two names, link count one. */
  lemma LinkMiscounts()
    ensures WellFormed(One()) && var s := Link(One(), A, B).0;
            s.dir == [Dentry(B, A, 1), File(A, 1)] && s.inodes[1].nlink == 1 && Tally(s.dir, HasInum(1)) == 2
  {
    OneIs();
    var s := Link(One(), A, B).0;
    assert s.dir == [Dentry(B, A, 1), File(A, 1)];
    TallyAll(s.dir, HasInum(1));
  }

  function Two(): Store
    requires WellFormed(One())
  {
    Link(One(), A, B).0
  }

  lemma TwoIs()
    ensures WellFormed(One())
    ensures Two().dir == [Dentry(B, A, 1), File(A, 1)] && Two().next == 2 && WellFormed(Two())
    ensures Find(Two().dir, A) == 1 && FreeSlot(Two().dir) == 2
  {
    OneIs();
    LinkWellFormed(One(), A, B);
    var d := Two().dir;
    assert d == [Dentry(B, A, 1), File(A, 1)];
    FindIs(d, A, 1);
    FreeSlotIs(d, 2);
  }

  lemma LinkedThrice(s: Store)
    requires s.dir == [Dentry(B, A, 1), File(A, 1)] && s.next == 2 && WellFormed(s)
    requires Find(s.dir, A) == 1 && FreeSlot(s.dir) == 2
    ensures Link(s, A, C).0.dir == [Dentry(B, A, 1), File(A, 1), Dentry(C, A, 1)] && Link(s, A, C).0.next == 2
  {
    assert LinkedDir(s.dir, 1, C) == [Dentry(B, A, 1), File(A, 1), Dentry(C, A, 1)];
  }

  lemma CreateOverwrites(s: Store)
    requires s.dir == [Dentry(B, A, 1), File(A, 1), Dentry(C, A, 1)] && s.next == 2
    ensures Bound(s.dir, C) && !Bound(Create(s, D).dir, C)
  {
    FindIs(s.dir, C, 2);
    var d := Create(s, D).dir;
    assert d == [Dentry(B, A, 1), File(A, 1), File(D, 2)];
    FindIs(d, C, 3);
  }

  /** `create a; link a b; link a c; create d`: c is gone, though nothing was unlinked or renamed. */
  lemma CreateDestroysLink()
    ensures WellFormed(One()) && WellFormed(Two())
    ensures var s3 := Link(Two(), A, C).0;
            s3.next == 2 && Bound(s3.dir, C) && !Bound(Create(s3, D).dir, C)
  {
    TwoIs();
    LinkedThrice(Two());
    CreateOverwrites(Link(Two(), A, C).0);
  }

  /** `create a; rename a b; create a`: b is emptied. Stated for any file that was renamed away. */
  lemma CreateEmptiesRenamed(s: Store, from: FileName, to: FileName)
    requires Core(s) && s.next < INT_MAX && Bound(s.dir, from) && EntryOf(s, from).storage == from
    requires from != to && !Bound(s.dir, to)
    ensures var s1 := Rename(s, from, to).0;
            Core(s1) && !Bound(s1.dir, from) && Bound(s1.dir, to) && View(s1, to) == View(s, from)
            && var s2 := Create(s1, from);
            Bound(s2.dir, to) && EntryOf(s2, to) == EntryOf(s1, to) && s2.backing[EntryOf(s2, to).storage] == []
  {
    RenameCoreIff(s, from, to);
    var i := Find(s.dir, from);
    var s1 := Rename(s, from, to).0;
    FindOnly(s1.dir, i);
    forall j | 0 <= j < |s1.dir| ensures !Hit(s1.dir[j], from) {
      assert j != i ==> s1.dir[j] == s.dir[j];
    }
    FindIs(s1.dir, from, |s1.dir|);
    var s2 := Create(s1, from);
    PutEntries(s1.dir, s1.next, File(from, s1.next));
    assert s2.dir[i] == s1.dir[i];
    var j := Find(s2.dir, to);
    assert Hit(s2.dir[i], to);
    assert j != s1.next;
  }

  /** `create a; rename a b` */
  function Renamed(): Store {
    Rename(One(), A, B).0
  }

  lemma RenamedIs()
    ensures WellFormed(Renamed()) && Renamed().dir == [FREE, Dentry(B, A, 1)] && B !in Renamed().backing
  {
    OneIs();
    assert Renamed().dir == [FREE, Dentry(B, A, 1)];
  }

  lemma RenamedUnlinked(s: Store)
    requires WellFormed(s) && s.dir == [FREE, Dentry(B, A, 1)] && B !in s.backing
    ensures Unlink(s, B).1 == -ENOENT && Unlink(s, B).0.dir == [] && Unlink(s, B).0.tmp == Some(s.dir)
  {
    FindIs(s.dir, B, 1);
    UnlinkOnly(s, B);
    assert s.dir[..1] == [FREE] && [FREE][..0] == [];
  }

  /** `create a; rename a b; unlink b`: the call fails and the directory is empty. */
  lemma UnlinkRenamedFails()
    ensures WellFormed(Renamed()) && Unlink(Renamed(), B).1 == -ENOENT && Unlink(Renamed(), B).0.dir == []
  {
    RenamedIs();
    RenamedUnlinked(Renamed());
  }

  /** And the next unlink, of any name, removes the last copy of the entry: `.Directory~`. */
  lemma NextUnlinkLosesAll()
    ensures WellFormed(Renamed()) && var s2 := Unlink(Renamed(), B).0;
            WellFormed(s2) && var s3 := Unlink(s2, C).0;
            s2.tmp == Some([FREE, Dentry(B, A, 1)]) && s3.dir == [] && s3.tmp == None
  {
    RenamedIs();
    RenamedUnlinked(Renamed());
    UnlinkWellFormed(Renamed(), B);
    UnlinkMissing(Unlink(Renamed(), B).0, C);
  }

  /** `create a`, restart, create b: both are inode 1. */
  lemma RestartReuses()
    ensures forall i | 0 <= i < |One().dir| :: One().dir[i].inum <= INT_MAX
    ensures var s1 := One().(next := MaxInum(One().dir, 1));
            s1.next == 1 && Create(s1, B).dir[1] == File(B, 1)
  {
    OneIs();
    MaxInumIs(One().dir, 1);
  }

  /** Shrinking and growing again shows the old bytes: `write a "77"; truncate a 0; truncate a 2`. */
  lemma TruncateShowsOldBytes(s: Store)
    requires Core(s) && Bound(s.dir, A) && View(s, A).0.size == 0 && View(s, A).1 == [7, 7]
    ensures var s' := Ftruncate(s, A, 2, 0, 0).0;
            Core(s') && Bound(s'.dir, A) && Visible(View(s', A)) == [7, 7]
  {
    FtruncateView(s, A, 2, 0, 0);
  }

  /** Such a store comes from a fresh one. */
  lemma TruncateShowsOldBytesStart()
    ensures WellFormed(One())
    ensures var s1 := Write(One(), A, [7, 7], 0, 0, 0).0;
            WellFormed(s1) && var s2 := Ftruncate(s1, A, 0, 0, 0).0;
            Core(s2) && Bound(s2.dir, A) && View(s2, A).0.size == 0 && View(s2, A).1 == [7, 7]
  {
    OneIs();
    WriteView(One(), A, [7, 7], 0, 0, 0);
    var s1 := Write(One(), A, [7, 7], 0, 0, 0).0;
    FtruncateView(s1, A, 0, 0, 0);
  }

  function Three(): Store {
    Create(Create(One(), B), C)
  }

  lemma ThreeIs()
    ensures Three().dir == [FREE, File(A, 1), File(B, 2), File(C, 3)] && |Three().inodes| == 4
    ensures WellFormed(Three()) && Find(Three().dir, C) == 3 && Alone(Three().dir, C) && C in Three().backing
  {
    OneIs();
    assert Create(One(), B).dir == [FREE, File(A, 1), File(B, 2)];
    assert Three().dir == [FREE, File(A, 1), File(B, 2), File(C, 3)];
    FindIs(Three().dir, C, 3);
  }

  lemma ThreeKept(dir: seq<Dentry>)
    requires dir == [FREE, File(A, 1), File(B, 2), File(C, 3)]
    ensures Compacted(Kept(dir, C)) == [FREE, FREE, File(A, 1), File(B, 2)]
  {
    KeptNext(dir, C, 3);
    KeptNext(dir, C, 2);
    KeptNext(dir, C, 1);
    KeptNext(dir, C, 0);
    assert dir[..4] == dir && dir[..0] == [];
  }

  /**
    Even with the repaired counter a restart is not safe: `create a; create b; create c; unlink c`
    leaves b in slot 3, and the largest number left is 2.
  */
  lemma RestartUnsafe()
    ensures WellFormed(Three()) && var s2 := Unlink(Three(), C).0;
            WellFormed(s2) && MaxInum(s2.dir, 1) + 1 == 3
            && Bound(s2.dir, B) && !Bound(Create(s2.(next := 3), D).dir, B)
  {
    ThreeIs();
    UnlinkOnly(Three(), C);
    ThreeKept(Three().dir);
    UnlinkWellFormed(Three(), C);
    Restarted(Unlink(Three(), C).0);
  }

  lemma Restarted(s: Store)
    requires WellFormed(s) && s.dir == [FREE, FREE, File(A, 1), File(B, 2)]
    ensures MaxInum(s.dir, 1) == 2 && Bound(s.dir, B) && !Bound(Create(s.(next := 3), D).dir, B)
  {
    MaxInumIs(s.dir, 1);
    assert s.dir[3].inum == 2;
    FindIs(s.dir, B, 3);
    var d := Create(s.(next := 3), D).dir;
    assert d == [FREE, FREE, File(A, 1), File(D, 3)];
    FindIs(d, B, 4);
  }

  // ---- recorded sizes ----

  /** `create a; write a "77"` */
  function Filled(): Store
    requires WellFormed(One())
  {
    Write(One(), A, [7, 7], 0, 0, 0).0
  }

  lemma FilledIs()
    ensures WellFormed(One()) && Core(Filled()) && Bound(Filled().dir, A)
    ensures View(Filled(), A).0.size == 2 && View(Filled(), A).1 == [7, 7] && Visible(View(Filled(), A)) == [7, 7]
  {
    OneIs();
    WriteView(One(), A, [7, 7], 0, 0, 0);
  }

  /** `write a "9"` at the front of a file of two bytes: its size is one. */
  lemma WriteCutsSize()
    ensures WellFormed(One()) && WellFormed(Filled())
    ensures var s := Write(Filled(), A, [9], 0, 0, 0).0;
            Core(s) && Bound(s.dir, A) && Visible(View(s, A)) == [9] && WriteAt([7, 7], 0, [9]) == [9, 7]
  {
    FilledIs();
    FrontWritten(Filled());
  }

  lemma FrontWritten(s: Store)
    requires Core(s) && Bound(s.dir, A) && View(s, A).1 == [7, 7]
    ensures var s' := Write(s, A, [9], 0, 0, 0).0;
            Core(s') && Bound(s'.dir, A) && Visible(View(s', A)) == [9]
  {
    WriteView(s, A, [9], 0, 0, 0);
    assert WriteAt([7, 7], 0, [9]) == [9, 7];
  }

  /** `truncate a 0; read a 2`: the size is zero, and two bytes are read. */
  lemma ReadPassesSize()
    ensures WellFormed(One()) && WellFormed(Filled())
    ensures var s := Ftruncate(Filled(), A, 0, 0, 0).0;
            Core(s) && Bound(s.dir, A) && View(s, A).0.size == 0 && Read(s, A, 2, 0, 0).2 == [7, 7]
  {
    FilledIs();
    FtruncateView(Filled(), A, 0, 0, 0);
    var s := Ftruncate(Filled(), A, 0, 0, 0).0;
    assert ReadAt(View(s, A).1, 0, 2) == [7, 7];
  }

  /** `create a; write a ""` at offset 5: the size is five, and nothing is stored to read. */
  lemma EmptyWriteExtends()
    ensures Core(One()) && SizeBounded(One())
    ensures var s := Write(One(), A, [], 5, 0, 0).0;
            Core(s) && Bound(s.dir, A) && !SizeBounded(s) && View(s, A).0.size == 5 && Read(s, A, 5, 0, 0).2 == []
  {
    OneIs();
    WriteView(One(), A, [], 5, 0, 0);
    var s := Write(One(), A, [], 5, 0, 0).0;
    assert Live(s.dir[Find(s.dir, A)]);
  }

  // ---- unlink ----

  /**
    `create a; unlink c`, with the first read of the table refused: the call returns 0, the new table
    is empty, and the old one, with a in it, is removed.
  */
  lemma RefusedReadLosesAll()
    ensures var m := After(Begin(One()), C, k => k != 3, 5);
            m.pc == Done(0) && m.dir == Some([]) && m.tmp == None
  {
    var ok := (k: nat) => k != 3;
    var m := Begin(One());
    FirstCalls(One(), C, ok);
    assert After(m, C, ok, 4) == Step(After(m, C, ok, 3), C, ok(3));
    assert After(m, C, ok, 5) == Step(After(m, C, ok, 4), C, ok(4));
  }

  /** `create a; create b; link a c` */
  function Linked(): Store
    requires WellFormed(Create(One(), B))
  {
    Link(Create(One(), B), A, C).0
  }

  lemma CreatedTwice()
    ensures var s := Create(One(), B);
            && s.dir == [FREE, File(A, 1), File(B, 2)] && s.next == 3 && WellFormed(s) && |s.inodes| == 3
            && s.backing == map[A := [], B := []]
  {
    OneIs();
    assert Create(One(), B).dir == [FREE, File(A, 1), File(B, 2)];
  }

  lemma LinkedIs()
    ensures WellFormed(Create(One(), B)) && WellFormed(Linked())
    ensures Linked().dir == [Dentry(C, A, 1), File(A, 1), File(B, 2)] && Linked().next == 3
    ensures Linked().backing == map[A := [], B := []]
  {
    CreatedTwice();
    var s := Create(One(), B);
    FindIs(s.dir, A, 1);
    FreeSlotIs(s.dir, 0);
    assert Linked().dir == [Dentry(C, A, 1), File(A, 1), File(B, 2)];
    LinkWellFormed(s, A, C);
  }

  /** Removing b packs the others into slots 2 and 3. */
  lemma UnlinkPacks(s: Store)
    requires s.dir == [Dentry(C, A, 1), File(A, 1), File(B, 2)] && WellFormed(s) && B in s.backing
    ensures Unlink(s, B).0.dir == [FREE, FREE, Dentry(C, A, 1), File(A, 1)] && Unlink(s, B).0.next == s.next
  {
    FindIs(s.dir, B, 2);
    UnlinkOnly(s, B);
    KeptNext(s.dir, B, 2);
    KeptNext(s.dir, B, 1);
    KeptNext(s.dir, B, 0);
    assert s.dir[..3] == s.dir && s.dir[..0] == [];
  }

  lemma SlotThreeOverwritten(s: Store)
    requires s.dir == [FREE, FREE, Dentry(C, A, 1), File(A, 1)] && s.next == 3
    ensures Bound(s.dir, A) && !Bound(Create(s, D).dir, A)
  {
    FindIs(s.dir, A, 3);
    var d := Create(s, D).dir;
    assert d == [FREE, FREE, Dentry(C, A, 1), File(D, 3)];
    FindIs(d, A, 4);
  }

  /** `create a; create b; link a c; unlink b; create d`: a is gone, as unlink had no room below the counter. */
  lemma UnlinkOverBudget()
    ensures WellFormed(Create(One(), B)) && WellFormed(Linked())
    ensures var s := Unlink(Linked(), B).0;
            Unlink(Linked(), B).1 == 0 && s.next == 3 && Bound(s.dir, A) && !Bound(Create(s, D).dir, A)
  {
    LinkedIs();
    FindIs(Linked().dir, B, 2);
    UnlinkOnly(Linked(), B);
    UnlinkPacks(Linked());
    SlotThreeOverwritten(Unlink(Linked(), B).0);
  }

  /** `create a; create b; rename a b; unlink b`: it fails at the second b, with the file gone and no name left. */
  lemma UnlinkTwiceBoundFails()
    ensures WellFormed(Create(One(), B)) && var s := Rename(Create(One(), B), A, B).0;
            WellFormed(s) && var r := Unlink(s, B);
            r.1 == -ENOENT && r.0.dir == [] && B in s.backing && B !in r.0.backing
  {
    CreatedTwice();
    var s0 := Create(One(), B);
    FindIs(s0.dir, A, 1);
    var s := Rename(s0, A, B).0;
    assert s.dir == [FREE, Dentry(B, A, 1), File(B, 2)];
    TwiceBound(s);
  }

  lemma TwiceBound(s: Store)
    requires s.dir == [FREE, Dentry(B, A, 1), File(B, 2)] && WellFormed(s) && B in s.backing
    ensures var r := Unlink(s, B);
            r.1 == -ENOENT && r.0.dir == [] && B !in r.0.backing
  {
    FindIs(s.dir, B, 1);
    assert Hit(s.dir[2], B);
    assert Again(s.dir, B) == 2;
    UnlinkFound(s, B);
    KeptNext(s.dir, B, 1);
    KeptNext(s.dir, B, 0);
    assert s.dir[..0] == [];
  }

  // ---- what was counted, and what was removed, for another name ----

  lemma LinkedRecords()
    ensures WellFormed(Create(One(), B)) && |Linked().inodes| == 3
    ensures Linked().inodes[1].nlink == 1 && Linked().inodes[2].nlink == 1
  {
    CreatedTwice();
    OneIs();
    var s := Create(One(), B);
    assert s.inodes[1].nlink == 1 && s.inodes[2].nlink == 1;
    FindIs(s.dir, A, 1);
    FreeSlotIs(s.dir, 0);
    LinkRecords(s, A, C);
  }

  lemma LinkOnFull(s: Store)
    requires WellFormed(s) && s.dir == [Dentry(C, A, 1), File(A, 1), File(B, 2)] && |s.inodes| == 3
    requires s.inodes[1].nlink == 1 && s.inodes[2].nlink == 1
    ensures WellFormed(Link(s, A, D).0) && var s' := Link(s, A, D).0;
            && Getattr(s', B).Some? && Getattr(s', B).value.0.nlink == 2
            && Getattr(s', D).Some? && Getattr(s', D).value.0.nlink == 1
  {
    FindIs(s.dir, A, 1);
    FindIs(s.dir, B, 2);
    FindIs(s.dir, D, 3);
    FreeSlotIs(s.dir, 3);
    assert Full(s.dir);
    LinkGetattr(s, A, D, B);
    LinkGetattr(s, A, D, D);
  }

  /** `create a; create b; link a c; link a d`: the table was full and ended with b, so b has two links, and d one. */
  lemma LinkCountsAnother()
    ensures WellFormed(Create(One(), B)) && WellFormed(Linked()) && var s := Link(Linked(), A, D).0;
            && WellFormed(s) && Getattr(s, B).Some? && Getattr(s, B).value.0.nlink == 2
            && Getattr(s, D).Some? && Getattr(s, D).value.0.nlink == 1
  {
    LinkedIs();
    LinkedRecords();
    LinkOnFull(Linked());
  }

  lemma LinkLeft(s: Store)
    requires WellFormed(s) && s.dir == [Dentry(B, A, 1), File(A, 1)] && s.backing == map[A := []]
    ensures Unlink(s, A).1 == 0 && Unlink(s, A).0.dir == [FREE, FREE, Dentry(B, A, 1)]
    ensures Unlink(s, A).0.backing == map[]
  {
    FindIs(s.dir, A, 1);
    UnlinkOnly(s, A);
    KeptNext(s.dir, A, 1);
    KeptNext(s.dir, A, 0);
    assert s.dir[..2] == s.dir && s.dir[..0] == [];
  }

  /** `create a; link a b; unlink a`, which returns 0, and `write b "7"`: the file of b is gone. */
  lemma WriteFindsNoFile()
    ensures WellFormed(One()) && WellFormed(Two()) && var s := Unlink(Two(), A).0;
            && Unlink(Two(), A).1 == 0 && WellFormed(s) && Bound(s.dir, B)
            && Write(s, B, [7], 0, 0, 0).1 == -EIO && Write(s, B, [7], 0, 0, 0).0.backing == map[]
            && Read(s, B, 1, 0, 0).1 == -EIO
  {
    TwoIs();
    OneIs();
    LinkLeft(Two());
    UnlinkWellFormed(Two(), A);
    var s := Unlink(Two(), A).0;
    FindIs(s.dir, B, 2);
    WriteAnswers(s, B, [7], 0, 0, 0);
    ReadAnswers(s, B, 1, 0, 0);
  }

  // ---- a session after which unlink breaks the link counts, and nothing was wrong before ----

  lemma {:induction false} RunSnoc(s: Store, ops: seq<Op>, op: Op)
    requires CodedRunnable(s, ops) && WellFormed(CodedRun(s, ops)) && InRange(CodedRun(s, ops).next, op)
    ensures CodedRunnable(s, ops + [op]) && CodedRun(s, ops + [op]) == Coded(CodedRun(s, ops), op).0
    decreases |ops|
  {
    if ops == [] {
      assert [op][1..] == [];
    } else {
      RunSnoc(Coded(s, ops[0]).0, ops[1..], op);
      assert (ops + [op])[1..] == ops[1..] + [op];
    }
  }

  /** The session of these calls on a fresh store ends in s. */
  predicate Reaches(ops: seq<Op>, s: Store) {
    CodedRunnable(FRESH, ops) && s == CodedRun(FRESH, ops) && WellFormed(s)
  }

  lemma Then(ops: seq<Op>, s: Store, op: Op)
    requires Reaches(ops, s) && InRange(s.next, op)
    ensures Reaches(ops + [op], Coded(s, op).0)
  {
    RunSnoc(FRESH, ops, op);
    CodedWellFormed(s, op);
  }

  function Making(name: FileName): Op {
    DoMknod(name, MODE, 0, 0, 0)
  }

  /** The table, counter and files, and the link count of inode 2. */
  predicate Shape(s: Store, dir: seq<Dentry>, next: nat, files: set<Name>, links: nat) {
    && s.dir == dir && s.next == next == |s.inodes| && s.backing.Keys == files
    && |s.inodes| > 2 && s.inodes[2].nlink == links
  }

  function Alias(name: FileName): Dentry {
    Dentry(name, A, 2)
  }

  /** `create a; unlink a` leaves an empty table and the counter at 2. */
  lemma Emptied(s: Store)
    requires WellFormed(s) && s == One()
    ensures Unlink(s, A).0.dir == [] && Unlink(s, A).0.next == 2 && Unlink(s, A).0.backing == map[]
    ensures |Unlink(s, A).0.inodes| == 2
  {
    OneIs();
    UnlinkOnly(s, A);
    OneKept(s.dir);
  }

  lemma OneKept(dir: seq<Dentry>)
    requires dir == [FREE, File(A, 1)]
    ensures Kept(dir, A) == []
  {
    KeptNext(dir, A, 1);
    KeptNext(dir, A, 0);
    assert dir[..2] == dir && dir[..0] == [];
  }

  /** So the next creation is inode 2, in slot 2. */
  lemma Recreated(s: Store)
    requires s.dir == [] && s.next == 2 && s.backing == map[] && |s.inodes| == 2
    ensures Shape(Create(s, A), [FREE, FREE, Alias(A)], 3, {A}, 1)
  {
    assert Create(s, A).dir == [FREE, FREE, Alias(A)];
  }

  /** A link of a, at slot i, placed at slot f. */
  lemma LinkPlaced(s: Store, to: FileName, i: nat, f: nat, dir: seq<Dentry>, links: nat)
    requires WellFormed(s) && Shape(s, s.dir, s.next, {A}, links) && links < 9
    requires i == Find(s.dir, A) < |s.dir| && s.dir[i] == Alias(A) && f == FreeSlot(s.dir)
    requires dir == Put(s.dir, f, Alias(to), FREE)
    ensures Shape(Link(s, A, to).0, dir, s.next, {A}, if Leftover(s.dir) == 2 then links + 1 else links)
  {
  }

  /** The first two links take slots 0 and 1, and inode 0 is counted; the next two are appended, and inode 2 is. */
  lemma FirstLink(s: Store)
    requires WellFormed(s) && Shape(s, [FREE, FREE, Alias(A)], 3, {A}, 1)
    ensures Shape(Link(s, A, B).0, [Alias(B), FREE, Alias(A)], 3, {A}, 1)
  {
    FindIs(s.dir, A, 2);
    FreeSlotIs(s.dir, 0);
    LinkPlaced(s, B, 2, 0, [Alias(B), FREE, Alias(A)], 1);
  }

  lemma SecondLink(s: Store)
    requires WellFormed(s) && Shape(s, [Alias(B), FREE, Alias(A)], 3, {A}, 1)
    ensures Shape(Link(s, A, C).0, [Alias(B), Alias(C), Alias(A)], 3, {A}, 1)
  {
    FindIs(s.dir, A, 2);
    FreeSlotIs(s.dir, 1);
    LinkPlaced(s, C, 2, 1, [Alias(B), Alias(C), Alias(A)], 1);
  }

  lemma ThirdLink(s: Store)
    requires WellFormed(s) && Shape(s, [Alias(B), Alias(C), Alias(A)], 3, {A}, 1)
    ensures Shape(Link(s, A, D).0, [Alias(B), Alias(C), Alias(A), Alias(D)], 3, {A}, 2)
  {
    FindIs(s.dir, A, 2);
    FreeSlotIs(s.dir, 3);
    LinkPlaced(s, D, 2, 3, [Alias(B), Alias(C), Alias(A), Alias(D)], 1);
  }

  lemma FourthLink(s: Store)
    requires WellFormed(s) && Shape(s, [Alias(B), Alias(C), Alias(A), Alias(D)], 3, {A}, 2)
    ensures Shape(Link(s, A, E).0, [Alias(B), Alias(C), Alias(A), Alias(D), Alias(E)], 3, {A}, 3)
  {
    FindIs(s.dir, A, 2);
    FreeSlotIs(s.dir, 4);
    LinkPlaced(s, E, 2, 4, [Alias(B), Alias(C), Alias(A), Alias(D), Alias(E)], 2);
  }

  /** The two creations overwrite the last two links, and the count is right again. */
  lemma LinksOverwritten(s: Store)
    requires WellFormed(s) && Shape(s, [Alias(B), Alias(C), Alias(A), Alias(D), Alias(E)], 3, {A}, 3)
    ensures var s' := Create(Create(s, F), D);
            && Shape(s', [Alias(B), Alias(C), Alias(A), File(F, 3), File(D, 4)], 5, {A, D, F}, 3)
            && s'.inodes[3].nlink == 1 && s'.inodes[4].nlink == 1
  {
    assert Create(s, F).dir == [Alias(B), Alias(C), Alias(A), File(F, 3), Alias(E)];
    assert Create(Create(s, F), D).dir == [Alias(B), Alias(C), Alias(A), File(F, 3), File(D, 4)];
  }

  lemma Tallies(dir: seq<Dentry>)
    requires dir == [Alias(B), Alias(C), Alias(A), File(F, 3), File(D, 4)]
    ensures Tally(dir, HasInum(2)) == 3 && Tally(dir, HasInum(3)) == 1 && Tally(dir, HasInum(4)) == 1
  {
    TallySplit(dir, 3, HasInum(2));
    assert dir[..3] == [Alias(B), Alias(C), Alias(A)] && dir[3..] == [File(F, 3), File(D, 4)];
    TallyAll(dir[..3], HasInum(2));
    TallyNone(dir[3..], HasInum(2));
    TallyOne(dir, HasInum(3), 3);
    TallyOne(dir, HasInum(4), 4);
  }

  lemma AliasesApart(dir: seq<Dentry>)
    requires dir == [Alias(B), Alias(C), Alias(A), File(F, 3), File(D, 4)]
    ensures Unique(dir) && Sharing(dir)
  {
  }

  lemma AliasesCore(s: Store)
    requires WellFormed(s) && Shape(s, [Alias(B), Alias(C), Alias(A), File(F, 3), File(D, 4)], 5, {A, D, F}, 3)
    ensures Core(s)
  {
    AliasesApart(s.dir);
  }

  lemma AliasesCounted(s: Store)
    requires WellFormed(s) && Shape(s, [Alias(B), Alias(C), Alias(A), File(F, 3), File(D, 4)], 5, {A, D, F}, 3)
    requires s.inodes[3].nlink == 1 && s.inodes[4].nlink == 1
    ensures Counted(s)
  {
    Tallies(s.dir);
  }

  /** A file system in every respect, link counts included; and `unlink c` stops between two names of inode 2. */
  lemma UnlinkMiscounts(s: Store)
    requires WellFormed(s) && Shape(s, [Alias(B), Alias(C), Alias(A), File(F, 3), File(D, 4)], 5, {A, D, F}, 3)
    requires s.inodes[3].nlink == 1 && s.inodes[4].nlink == 1
    ensures Invariant(s) && Bound(s.dir, C) && C !in s.backing
    ensures WellFormed(Unlink(s, C).0) && !Counted(Unlink(s, C).0)
  {
    AliasesCore(s);
    AliasesCounted(s);
    FindIs(s.dir, C, 1);
    assert Live(s.dir[0]) && s.dir[0].inum == s.dir[2].inum;
    UnlinkCountsIff(s, C);
  }

  lemma RecreatedSession() returns (s: Store)
    ensures Reaches([Making(A), DoUnlink(A), Making(A)], s) && Shape(s, [FREE, FREE, Alias(A)], 3, {A}, 1)
  {
    Then([], FRESH, Making(A));
    assert [] + [Making(A)] == [Making(A)];
    Then([Making(A)], One(), DoUnlink(A));
    assert [Making(A)] + [DoUnlink(A)] == [Making(A), DoUnlink(A)];
    Emptied(One());
    s := Unlink(One(), A).0;
    Then([Making(A), DoUnlink(A)], s, Making(A));
    assert [Making(A), DoUnlink(A)] + [Making(A)] == [Making(A), DoUnlink(A), Making(A)];
    Recreated(s);
    s := Create(s, A);
  }

  lemma FrontSession(ops: seq<Op>, s: Store) returns (s': Store)
    requires Reaches(ops, s) && Shape(s, [FREE, FREE, Alias(A)], 3, {A}, 1)
    ensures Reaches(ops + [DoLink(A, B), DoLink(A, C)], s')
    ensures Shape(s', [Alias(B), Alias(C), Alias(A)], 3, {A}, 1)
  {
    FirstLink(s);
    Then(ops, s, DoLink(A, B));
    s' := Link(s, A, B).0;
    SecondLink(s');
    Then(ops + [DoLink(A, B)], s', DoLink(A, C));
    assert ops + [DoLink(A, B)] + [DoLink(A, C)] == ops + [DoLink(A, B), DoLink(A, C)];
    s' := Link(s', A, C).0;
  }

  lemma BackSession(ops: seq<Op>, s: Store) returns (s': Store)
    requires Reaches(ops, s) && Shape(s, [Alias(B), Alias(C), Alias(A)], 3, {A}, 1)
    ensures Reaches(ops + [DoLink(A, D), DoLink(A, E)], s')
    ensures Shape(s', [Alias(B), Alias(C), Alias(A), Alias(D), Alias(E)], 3, {A}, 3)
  {
    ThirdLink(s);
    Then(ops, s, DoLink(A, D));
    s' := Link(s, A, D).0;
    FourthLink(s');
    Then(ops + [DoLink(A, D)], s', DoLink(A, E));
    assert ops + [DoLink(A, D)] + [DoLink(A, E)] == ops + [DoLink(A, D), DoLink(A, E)];
    s' := Link(s', A, E).0;
  }

  lemma CreationSession(ops: seq<Op>, s: Store) returns (s': Store)
    requires Reaches(ops, s) && Shape(s, [Alias(B), Alias(C), Alias(A), Alias(D), Alias(E)], 3, {A}, 3)
    ensures Reaches(ops + [Making(F), Making(D)], s')
    ensures Shape(s', [Alias(B), Alias(C), Alias(A), File(F, 3), File(D, 4)], 5, {A, D, F}, 3)
    ensures s'.inodes[3].nlink == 1 && s'.inodes[4].nlink == 1
  {
    LinksOverwritten(s);
    Then(ops, s, Making(F));
    s' := Create(s, F);
    Then(ops + [Making(F)], s', Making(D));
    assert ops + [Making(F)] + [Making(D)] == ops + [Making(F), Making(D)];
    s' := Create(s', D);
  }

  const SESSION := [Making(A), DoUnlink(A), Making(A)] + [DoLink(A, B), DoLink(A, C)] + [DoLink(A, D), DoLink(A, E)]
                   + [Making(F), Making(D)]

  /**
    `create a; unlink a; create a; link a b; link a c; link a d; link a e; create f; create d`: the code
    alone gets there.
  */
  lemma UnlinkMiscountsSession()
    ensures CodedRunnable(FRESH, SESSION)
    ensures var s := CodedRun(FRESH, SESSION);
            Invariant(s) && WellFormed(Unlink(s, C).0) && !Counted(Unlink(s, C).0)
  {
    var s := RecreatedSession();
    s := FrontSession([Making(A), DoUnlink(A), Making(A)], s);
    s := BackSession([Making(A), DoUnlink(A), Making(A)] + [DoLink(A, B), DoLink(A, C)], s);
    s := CreationSession([Making(A), DoUnlink(A), Making(A)] + [DoLink(A, B), DoLink(A, C)]
                         + [DoLink(A, D), DoLink(A, E)], s);
    UnlinkMiscounts(s);
  }
}
