/**
  Sessions of the code on a fresh disk. Whether such a session is one of the file system depends on the
  requests alone: on what a caller could note down about the names, with no look at tables or slots.
*/
module Ledger {
  import opened Layout
  import opened Store
  import opened Unlinking
  import opened Slots
  import opened Sessions
  import opened Upkeep
  import opened Files
  import opened Refinement
  import opened Divergence
  import opened Contents
  import opened Numbers
  import opened Conformance

  /** The files there are, each with the name it was created under, and whether one was ever removed. */
  datatype Ledger = Ledger(files: map<Name, Name>, removed: bool)

  const BLANK := Ledger(map[], false)

  /** A name some file there is was created under. */
  predicate Origin(l: Ledger, n: Name) {
    exists f | f in l.files :: l.files[f] == n
  }

  /**
    A created name is neither in use nor some file's first name; no link is asked of a file that is
    there; a new name is not in use; a removed file has its first name; and a name that is not there
    is not removed unless there are no files or one has been removed before.
  */
  predicate Fair(l: Ledger, op: Op) {
    match op
    case DoMknod(name, mode, _, _, _) => Regular(mode) ==> name !in l.files && !Origin(l, name)
    case DoLink(from, _) => from !in l.files
    case DoRename(from, to) => from in l.files ==> from == to || to !in l.files
    case DoUnlink(name) => if name in l.files then l.files[name] == name else l.files == map[] || l.removed
    case _ => true
  }

  /** The notes after a fair call. */
  function Noted(l: Ledger, op: Op): Ledger {
    match op
    case DoMknod(name, mode, _, _, _) => if Regular(mode) then l.(files := l.files[name := name]) else l
    case DoRename(from, to) =>
      if from in l.files then l.(files := (l.files - {from})[to := l.files[from]]) else l
    case DoUnlink(name) => if name in l.files then Ledger(l.files - {name}, true) else l
    case _ => l
  }

  predicate FairThroughout(l: Ledger, ops: seq<Op>)
    decreases |ops|
  {
    ops == [] || (Fair(l, ops[0]) && FairThroughout(Noted(l, ops[0]), ops[1..]))
  }

  // ---- what the notes say of the store ----

  predicate SlotZeroFree(dir: seq<Dentry>) {
    dir == [] || !Live(dir[0])
  }

  ghost predicate Entries(dir: seq<Dentry>, l: Ledger) {
    && (forall e | Member(dir, e) :: e.name in l.files && l.files[e.name] == e.storage)
    && (forall n | n in l.files :: Named(dir, n))
  }

  predicate Distinct(l: Ledger) {
    forall m, n | m in l.files && n in l.files && l.files[m] == l.files[n] :: m == n
  }

  ghost predicate Origins(s: Store, l: Ledger) {
    forall n: Name :: n in s.backing <==> Origin(l, n)
  }

  predicate Counts(s: Store, l: Ledger) {
    && Tally(s.dir, LIVE) < s.next
    && (l.removed <==> Tally(s.dir, LIVE) + 2 <= s.next)
  }

  ghost predicate Tracks(s: Store, l: Ledger) {
    && Core(s) && SlotZeroFree(s.dir)
    && Entries(s.dir, l) && Distinct(l) && Origins(s, l) && Counts(s, l)
  }

  lemma BoundIsNoted(dir: seq<Dentry>, l: Ledger, n: Name)
    requires Entries(dir, l)
    ensures Bound(dir, n) <==> n in l.files
    ensures Bound(dir, n) ==> dir[Find(dir, n)].storage == l.files[n]
  {
    BoundIsNamed(dir, n);
  }

  lemma TakenIsOrigin(dir: seq<Dentry>, l: Ledger, n: Name)
    requires Entries(dir, l)
    ensures StorageTaken(dir, n) <==> Origin(l, n)
  {
    if StorageTaken(dir, n) {
      var i :| 0 <= i < |dir| && Live(dir[i]) && dir[i].storage == n;
      assert Member(dir, dir[i]);
    }
    if f :| f in l.files && l.files[f] == n {
      var e :| Member(dir, e) && e.name == f;
      var i :| 0 <= i < |dir| && dir[i] == e;
    }
  }

  lemma StoredUnderIs(dir: seq<Dentry>, l: Ledger, n: Name)
    requires Entries(dir, l)
    ensures StoredUnder(dir, n) <==> exists f | f in l.files :: f != n && l.files[f] == n
  {
    if StoredUnder(dir, n) {
      var i :| 0 <= i < |dir| && Live(dir[i]) && dir[i].name != n && dir[i].storage == n;
      assert Member(dir, dir[i]);
    }
    if f :| f in l.files && f != n && l.files[f] == n {
      var e :| Member(dir, e) && e.name == f;
      var i :| 0 <= i < |dir| && dir[i] == e;
    }
  }

  lemma NoneIsBlank(dir: seq<Dentry>, l: Ledger)
    requires Entries(dir, l)
    ensures Tally(dir, LIVE) == 0 <==> l.files == map[]
  {
    TallyNone(dir, LIVE);
    if i :| 0 <= i < |dir| && LIVE(dir[i]) {
      assert Member(dir, dir[i]);
    }
    if l.files != map[] {
      var n :| n in l.files;
      var e :| Member(dir, e) && e.name == n;
      var i :| 0 <= i < |dir| && dir[i] == e;
      assert LIVE(dir[i]);
    }
  }

  // ---- a call is sound exactly when it is fair ----

  /** With slot 0 free, link never finds the table full. */
  lemma LinkUnsound(s: Store, op: Op)
    requires WellFormed(s) && SlotZeroFree(s.dir) && op.DoLink? && Bound(s.dir, op.from)
    ensures !Sound(s, op)
  {
    UnusedIsDead(s.dir);
    FreeSlotIs(s.dir, 0);
  }

  lemma UnlinkSoundIff(s: Store, l: Ledger, name: FileName)
    requires Entries(s.dir, l) && Distinct(l) && Origins(s, l) && Counts(s, l)
    ensures Sound(s, DoUnlink(name)) <==> Fair(l, DoUnlink(name))
  {
    BoundIsNoted(s.dir, l, name);
    StoredUnderIs(s.dir, l, name);
    NoneIsBlank(s.dir, l);
  }

  lemma SoundIsFair(s: Store, l: Ledger, op: Op)
    requires Tracks(s, l)
    ensures Sound(s, op) <==> Fair(l, op)
  {
    if op.DoMknod? {
      BoundIsNoted(s.dir, l, op.name);
      TakenIsOrigin(s.dir, l, op.name);
    } else if op.DoLink? {
      BoundIsNoted(s.dir, l, op.from);
      if Bound(s.dir, op.from) { LinkUnsound(s, op); }
    } else if op.DoRename? {
      BoundIsNoted(s.dir, l, op.from);
      BoundIsNoted(s.dir, l, op.to);
    } else if op.DoUnlink? {
      UnlinkSoundIff(s, l, op.name);
    }
  }

  // ---- the notes stay right ----

  lemma AddEntries(dir: seq<Dentry>, dir': seq<Dentry>, l: Ledger, e: Dentry)
    requires Entries(dir, l) && e.name !in l.files && Live(e)
    requires forall x :: Member(dir', x) <==> Member(dir, x) || x == e
    ensures Entries(dir', l.(files := l.files[e.name := e.storage]))
  {
    assert Member(dir', e);
    forall n | n in l.files ensures Named(dir', n) {
      var x :| Member(dir, x) && x.name == n;
      assert Member(dir', x);
    }
  }

  /** A file created under a name that is no other's first name. */
  lemma AddOrigins(l: Ledger, n: Name)
    requires Distinct(l) && n !in l.files && !Origin(l, n)
    ensures var l' := l.(files := l.files[n := n]);
            Distinct(l') && forall m: Name :: Origin(l', m) <==> Origin(l, m) || m == n
  {
    var l' := l.(files := l.files[n := n]);
    forall m: Name ensures Origin(l', m) <==> Origin(l, m) || m == n {
      if m == n { assert l'.files[n] == n; }
      if f :| f in l.files && l.files[f] == m { assert l'.files[f] == m; }
    }
  }

  lemma MknodTracks(s: Store, l: Ledger, op: Op)
    requires Tracks(s, l) && InRange(s.next, op) && op.DoMknod? && Regular(op.mode)
    requires op.name !in l.files && !Origin(l, op.name)
    requires Core(Coded(s, op).0)
    ensures Tracks(Coded(s, op).0, Noted(l, op))
  {
    var e := Dentry(op.name, op.name, s.next);
    PutMembers(s.dir, s.next, e);
    AddEntries(s.dir, Coded(s, op).0.dir, l, e);
    AddOrigins(l, op.name);
    TallyPut(s.dir, s.next, e, LIVE);
  }

  lemma MoveEntries(dir: seq<Dentry>, dir': seq<Dentry>, l: Ledger, was: Dentry, e: Dentry)
    requires Entries(dir, l) && Member(dir, was) && e == was.(name := e.name)
    requires e.name == was.name || e.name !in l.files
    requires forall x | Member(dir, x) && x.name == was.name :: x == was
    requires forall x :: Member(dir', x) <==> x == e || (Member(dir, x) && x != was)
    ensures Entries(dir', l.(files := (l.files - {was.name})[e.name := was.storage]))
  {
    assert Member(dir', e);
    forall n | n in l.files && n != was.name ensures Named(dir', n) {
      var x :| Member(dir, x) && x.name == n;
      assert Member(dir', x);
    }
  }

  lemma MoveOrigins(l: Ledger, n: Name, to: Name)
    requires Distinct(l) && n in l.files && (to == n || to !in l.files)
    ensures var l' := l.(files := (l.files - {n})[to := l.files[n]]);
            Distinct(l') && forall m: Name :: Origin(l', m) <==> Origin(l, m)
  {
    var l' := l.(files := (l.files - {n})[to := l.files[n]]);
    forall m: Name ensures Origin(l', m) <==> Origin(l, m) {
      if f :| f in l.files && l.files[f] == m { assert l'.files[if f == n then to else f] == m; }
      if f :| f in l'.files && l'.files[f] == m { assert l.files[if f == to then n else f] == m; }
    }
  }

  /** One entry renamed to a name that is free, or its own. */
  lemma RenameNoted(dir: seq<Dentry>, i: nat, to: FileName, l: Ledger)
    requires i < |dir| && Live(dir[i]) && Unique(dir) && Entries(dir, l)
    requires to == dir[i].name || to !in l.files
    ensures var dir' := dir[i := dir[i].(name := to)];
            && Entries(dir', l.(files := (l.files - {dir[i].name})[to := dir[i].storage]))
            && Tally(dir', LIVE) == Tally(dir, LIVE)
  {
    var e := dir[i].(name := to);
    ReplaceMembers(dir, i, e, dir[i := e]);
    forall x | Member(dir, x) && x.name == dir[i].name ensures x == dir[i] {
      var j :| 0 <= j < |dir| && dir[j] == x;
    }
    assert Member(dir, dir[i]);
    MoveEntries(dir, dir[i := e], l, dir[i], e);
    TallyReplace(dir, i, e, LIVE);
  }

  lemma SlotZeroStays(dir: seq<Dentry>, i: nat, e: Dentry)
    requires SlotZeroFree(dir) && i < |dir| && Live(dir[i])
    ensures SlotZeroFree(dir[i := e])
  {
  }

  /** What rename of a name that is there does. */
  lemma RenameFile(s: Store, op: Op)
    requires WellFormed(s) && op.DoRename? && Bound(s.dir, op.from)
    ensures var i := Find(s.dir, op.from);
            Coded(s, op).0 == s.(dir := s.dir[i := s.dir[i].(name := op.to)])
  {
  }

  lemma RenameTracks(s: Store, l: Ledger, op: Op)
    requires Tracks(s, l) && op.DoRename? && op.from in l.files
    requires op.from == op.to || op.to !in l.files
    requires Core(Coded(s, op).0)
    ensures Tracks(Coded(s, op).0, Noted(l, op))
  {
    BoundIsNoted(s.dir, l, op.from);
    var i := Find(s.dir, op.from);
    RenameFile(s, op);
    RenameNoted(s.dir, i, op.to, l);
    SlotZeroStays(s.dir, i, s.dir[i].(name := op.to));
    MoveOrigins(l, op.from, op.to);
  }

  lemma DropEntries(dir: seq<Dentry>, dir': seq<Dentry>, l: Ledger, name: Name)
    requires Entries(dir, l)
    requires forall x :: Member(dir', x) <==> Member(dir, x) && x.name != name
    ensures Entries(dir', l.(files := l.files - {name}))
  {
    forall n | n in l.files && n != name ensures Named(dir', n) {
      var x :| Member(dir, x) && x.name == n;
      assert Member(dir', x);
    }
  }

  lemma DropOrigins(l: Ledger, n: Name)
    requires Distinct(l) && n in l.files && l.files[n] == n
    ensures var l' := l.(files := l.files - {n});
            Distinct(l') && forall m: Name :: Origin(l', m) <==> Origin(l, m) && m != n
  {
    var l' := l.(files := l.files - {n});
    forall m: Name ensures Origin(l', m) <==> Origin(l, m) && m != n {
      if f :| f in l.files && l.files[f] == m && m != n { assert l'.files[f] == m; }
    }
  }

  /** What unlink leaves: one live entry less if the name was there, and slot 0 free. */
  lemma PackedCounts(dir: seq<Dentry>, name: FileName)
    requires Unique(dir) && NamesMatchInums(dir)
    ensures var dir' := Compacted(Kept(dir, name));
            SlotZeroFree(dir') && Tally(dir', LIVE) == Tally(dir, LIVE) - Bit(Bound(dir, name))
  {
    UniqueIsAlone(dir, name);
    KeptCount(dir, name);
    AloneCount(dir, name);
    TallyCompacted(Kept(dir, name), LIVE);
    TallyAll(Kept(dir, name), LIVE);
  }

  lemma PackedTable(dir: seq<Dentry>, l: Ledger, name: FileName)
    requires Unique(dir) && NamesMatchInums(dir) && Entries(dir, l)
    ensures var dir' := Compacted(Kept(dir, name));
            && SlotZeroFree(dir') && Entries(dir', l.(files := l.files - {name}))
            && Tally(dir', LIVE) == Tally(dir, LIVE) - Bit(name in l.files)
  {
    BoundIsNoted(dir, l, name);
    PackedCounts(dir, name);
    CompactedMembers(dir, name);
    DropEntries(dir, Compacted(Kept(dir, name)), l, name);
  }

  lemma UnlinkMissTracks(s: Store, l: Ledger, name: FileName)
    requires Tracks(s, l) && name !in l.files
    requires Core(Unlink(s, name).0)
    ensures Tracks(Unlink(s, name).0, l)
  {
    BoundIsNoted(s.dir, l, name);
    PackedTable(s.dir, l, name);
    UnlinkMissing(s, name);
    NothingDropped(l, name);
  }

  lemma NothingDropped(l: Ledger, name: Name)
    requires name !in l.files
    ensures l.(files := l.files - {name}) == l
  {
    assert l.files - {name} == l.files;
  }

  /** What unlink of a name that has its own file does. */
  lemma UnlinkFile(s: Store, name: FileName)
    requires WellFormed(s) && Unique(s.dir) && Bound(s.dir, name) && name in s.backing
    ensures var s' := Unlink(s, name).0;
            s'.dir == Compacted(Kept(s.dir, name)) && s'.backing == s.backing - {name} && s'.next == s.next
  {
    UniqueIsAlone(s.dir, name);
    UnlinkOnly(s, name);
  }

  lemma UnlinkFileTracks(s: Store, l: Ledger, name: FileName)
    requires Tracks(s, l) && name in l.files && l.files[name] == name
    requires Core(Unlink(s, name).0)
    ensures Tracks(Unlink(s, name).0, Ledger(l.files - {name}, true))
  {
    BoundIsNoted(s.dir, l, name);
    assert Origin(l, name);
    UnlinkFile(s, name);
    PackedTable(s.dir, l, name);
    DropOrigins(l, name);
    LedgerEntries(Unlink(s, name).0.dir, l.(files := l.files - {name}), true);
  }

  lemma LedgerEntries(dir: seq<Dentry>, l: Ledger, removed: bool)
    requires Entries(dir, l)
    ensures Entries(dir, l.(removed := removed))
  {
  }

  lemma OtherTracks(s: Store, t: Store, l: Ledger)
    requires Tracks(s, l) && SameShape(s, t)
    ensures Tracks(t, l)
  {
    SameShapeKeeps(s, t);
  }

  /** A fair call leaves the store as the notes then say. */
  lemma FairTracks(s: Store, l: Ledger, op: Op)
    requires Tracks(s, l) && InRange(s.next, op) && Fair(l, op)
    requires Core(Coded(s, op).0)
    ensures Tracks(Coded(s, op).0, Noted(l, op))
  {
    if op.DoMknod? {
      if Regular(op.mode) { MknodTracks(s, l, op); }
    } else if op.DoLink? {
      BoundIsNoted(s.dir, l, op.from);
    } else if op.DoRename? {
      BoundIsNoted(s.dir, l, op.from);
      if op.from in l.files { RenameTracks(s, l, op); }
    } else if op.DoUnlink? {
      if op.name in l.files { UnlinkFileTracks(s, l, op.name); } else { UnlinkMissTracks(s, l, op.name); }
    } else {
      OthersSameShape(s, op);
      OtherTracks(s, Coded(s, op).0, l);
    }
  }

  // ---- sessions ----

  lemma {:induction false} RunSoundIffFair(s: Store, a: Fs, l: Ledger, ops: seq<Op>)
    requires Refines(s, a) && Tracks(s, l) && CodedRunnable(s, ops)
    ensures SoundThroughout(s, ops) <==> FairThroughout(l, ops)
    decreases |ops|
  {
    if ops != [] {
      SoundIsFair(s, l, ops[0]);
      if Sound(s, ops[0]) {
        CallConformsIff(s, a, ops[0]);
        FairTracks(s, l, ops[0]);
        RunSoundIffFair(Coded(s, ops[0]).0, Next(a, ops[0]).0, Noted(l, ops[0]), ops[1..]);
      }
    }
  }

  /**
    A session of the code on a fresh disk is, step by step, one of the file system exactly when its
    requests are fair, which depends on nothing but the requests.
  */
  lemma SessionConformsIff(ops: seq<Op>)
    requires InRangeThroughout(FRESH.next, ops)
    ensures CodedRunnable(FRESH, ops)
    ensures ConformsThroughout(FRESH, EMPTY, ops) <==> FairThroughout(BLANK, ops)
  {
    FreshRefines();
    FreshTracks();
    CodedRunnableIff(FRESH, ops);
    RunConformsIff(FRESH, EMPTY, ops);
    RunSoundIffFair(FRESH, EMPTY, BLANK, ops);
  }

  /** No link of the run is asked of a name that is there. */
  predicate LinksMiss(s: Store, ops: seq<Op>)
    requires CodedRunnable(s, ops)
    decreases |ops|
  {
    ops == [] || ((ops[0].DoLink? ==> !Bound(s.dir, ops[0].from)) && LinksMiss(Coded(s, ops[0]).0, ops[1..]))
  }

  lemma {:induction false} RunLinksMiss(s: Store, a: Fs, l: Ledger, ops: seq<Op>)
    requires Refines(s, a) && Tracks(s, l) && CodedRunnable(s, ops) && SoundThroughout(s, ops)
    ensures LinksMiss(s, ops)
    decreases |ops|
  {
    if ops != [] {
      SoundIsFair(s, l, ops[0]);
      CallConformsIff(s, a, ops[0]);
      FairTracks(s, l, ops[0]);
      if ops[0].DoLink? { BoundIsNoted(s.dir, l, ops[0].from); }
      RunLinksMiss(Coded(s, ops[0]).0, Next(a, ops[0]).0, Noted(l, ops[0]), ops[1..]);
    }
  }

  /** On a fresh disk no session with a link that takes effect is, link counts included, one of the file system. */
  lemma SessionLinksMiss(ops: seq<Op>)
    requires CodedRunnable(FRESH, ops) && ConformsThroughout(FRESH, EMPTY, ops)
    ensures LinksMiss(FRESH, ops)
  {
    FreshRefines();
    FreshTracks();
    RunConformsIff(FRESH, EMPTY, ops);
    RunLinksMiss(FRESH, EMPTY, BLANK, ops);
  }

  lemma FreshTracks()
    ensures Tracks(FRESH, BLANK)
  {
  }

  /** And then the last store, and every answer, are those of the file system. */
  lemma FairSessionRefines(ops: seq<Op>)
    requires InRangeThroughout(FRESH.next, ops) && FairThroughout(BLANK, ops)
    ensures CodedRunnable(FRESH, ops) && AbsRunnable(EMPTY, ops)
    ensures Refines(CodedRun(FRESH, ops), AbsRun(EMPTY, ops))
    ensures CodedReplies(FRESH, ops) == AbsReplies(EMPTY, ops)
  {
    SessionConformsIff(ops);
    FreshRefines();
    FreshTracks();
    RunSoundIffFair(FRESH, EMPTY, BLANK, ops);
    CodedRunRefines(FRESH, EMPTY, ops);
  }
}
