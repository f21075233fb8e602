/**
  What `safs_unlink` leaves behind when the system refuses calls: at every point of every run, where
  the old table is and what has happened to inode records and files; and which refusals a return of
  success hides.
*/
module Refusals {
  import opened Layout
  import opened Store
  import opened System
  import opened Unlinking

  // ---- inode records and files ----

  /** How many of the first p records have the name and inode number k. */
  function Drops(dir: seq<Dentry>, name: Name, k: nat, p: nat): nat
    requires p <= |dir|
  {
    if p == 0 then 0
    else Drops(dir, name, k, p - 1) + if dir[p - 1].name == name && dir[p - 1].inum == k then 1 else 0
  }

  /** The record with n links less. */
  function Unlinked(st: Stat, n: nat): Stat {
    Relink(st, 0 - n as int)
  }

  predicate Met(dir: seq<Dentry>, name: Name, p: nat)
    requires p <= |dir|
  {
    exists i | 0 <= i < p :: dir[i].name == name
  }

  /**
    Each inode has lost one link for each record of the name that was read, and changed in nothing
    else; no file is gone but the one called like the name, and that only after such a record.
  */
  predicate Framed(s: Store, name: Name, m: Machine) {
    && m.pos <= |s.dir|
    && |m.inodes| == |s.inodes|
    && (forall k | 0 <= k < |s.inodes| :: m.inodes[k] == Unlinked(s.inodes[k], Drops(s.dir, name, k, m.pos)))
    && (m.backing == s.backing || (m.backing == s.backing - {name} && Met(s.dir, name, m.pos)))
    && (m.pc.Deleting? ==> m.pos > 0 && m.pc.victim == s.dir[m.pos - 1] && m.pc.victim.name == name)
  }

  lemma UnlinkedOnce(st: Stat, n: nat)
    ensures Relink(Unlinked(st, n), -1) == Unlinked(st, n + 1)
  {
  }

  /** Reading a record of the name drops one link. */
  lemma ReadFramed(s: Store, name: FileName, m: Machine)
    requires m.pc.Reading? && m.table == s.dir && Framed(s, name, m)
    ensures Framed(s, name, TakeRecord(m, name))
  {
    if m.pos < |s.dir| {
      var e := s.dir[m.pos];
      var inodes := TakeRecord(m, name).inodes;
      assert e.name == name ==> Met(s.dir, name, m.pos + 1);
      assert Met(s.dir, name, m.pos) ==> Met(s.dir, name, m.pos + 1);
      forall k | 0 <= k < |s.inodes|
        ensures inodes[k] == Unlinked(s.inodes[k], Drops(s.dir, name, k, m.pos + 1))
      {
        UnlinkedOnce(s.inodes[k], Drops(s.dir, name, k, m.pos));
      }
    }
  }

  lemma FramedStep(s: Store, name: FileName, m: Machine, ok: bool)
    requires Held(s, name, m) && Framed(s, name, m)
    ensures Framed(s, name, Step(m, name, ok))
  {
    if m.pc.Reading? {
      if ok { ReadFramed(s, name, m); }
    } else if m.pc.Deleting? {
      assert m.backing - {name} == s.backing - {name};
    }
  }

  lemma {:induction false} FramedAlways(s: Store, name: FileName, ok: nat -> bool, n: nat)
    ensures Framed(s, name, After(Begin(s), name, ok, n))
  {
    if n > 0 {
      FramedAlways(s, name, ok, n - 1);
      HeldAlways(s, name, ok, n - 1);
      FramedStep(s, name, After(Begin(s), name, ok, n - 1), ok(n - 1));
    } else {
      assert forall k | 0 <= k < |s.inodes| :: Unlinked(s.inodes[k], 0) == s.inodes[k];
    }
  }

  // ---- the tables ----

  /**
    Whatever the system refuses, and at whatever call the run is looked at, the old table is
    intact under one of its two names until the call has returned 0; and beside it the new table,
    once it exists, is the compacted form of a prefix of the old one. Inode records and files are
    accounted for throughout.
  */
  lemma NothingLostUntilSuccess(s: Store, name: FileName, ok: nat -> bool, n: nat)
    ensures var m := After(Begin(s), name, ok, n);
            Framed(s, name, m) && (m.pc == Done(0) || Intact(s, name, m))
  {
    FramedAlways(s, name, ok, n);
    HeldAlways(s, name, ok, n);
  }

  /** Once its first call is granted, a call has overwritten whatever an earlier, failed one left in `.Directory~`. */
  lemma LeftoversOverwritten(s: Store, name: FileName, ok: nat -> bool, n: nat)
    requires ok(0) && n > 0
    ensures After(Begin(s), name, ok, n).tmp == Some(s.dir) || After(Begin(s), name, ok, n).pc == Done(0)
    ensures After(Begin(s), name, ok, n).pc == Done(0) ==> After(Begin(s), name, ok, n).tmp == None
    decreases n
  {
    HeldAlways(s, name, ok, n);
    if n == 1 {
      assert After(Begin(s), name, ok, 0) == Begin(s);
    } else {
      LeftoversOverwritten(s, name, ok, n - 1);
    }
  }

  type Scribbler = nat -> seq<Stat>

  /** The run in which the inode table after call k is whatever ino(k) says. */
  function Scribbled(m: Machine, name: FileName, ok: nat -> bool, ino: Scribbler, n: nat): Machine {
    if n == 0 then m else Step(Scribbled(m, name, ok, ino, n - 1), name, ok(n - 1)).(inodes := ino(n - 1))
  }

  /** All of a machine but its inode table. */
  function Bare(m: Machine): Machine {
    m.(inodes := [])
  }

  lemma TakeIgnoresInodes(m: Machine, m': Machine, name: FileName)
    requires Bare(m) == Bare(m')
    ensures Bare(TakeRecord(m, name)) == Bare(TakeRecord(m', name))
  {
  }

  lemma StepIgnoresInodes(m: Machine, m': Machine, name: FileName, ok: bool)
    requires Bare(m) == Bare(m')
    ensures Bare(Step(m, name, ok)) == Bare(Step(m', name, ok))
  {
    if m.pc.Reading? { TakeIgnoresInodes(m, m', name); }
  }

  /**
    The results of reading and writing inode records are not looked at, so whatever they are, and
    whatever becomes of the inode table, calls, tables, files and return code are the same; and so the
    old table is as safe.
  */
  lemma {:induction false} TablesDespiteInodes(s: Store, name: FileName, ok: nat -> bool, ino: Scribbler, n: nat)
    ensures Bare(Scribbled(Begin(s), name, ok, ino, n)) == Bare(After(Begin(s), name, ok, n))
    ensures var m := Scribbled(Begin(s), name, ok, ino, n);
            m.pc == Done(0) || Intact(s, name, m)
  {
    NothingLostUntilSuccess(s, name, ok, n);
    if n > 0 {
      TablesDespiteInodes(s, name, ok, ino, n - 1);
      StepIgnoresInodes(Scribbled(Begin(s), name, ok, ino, n - 1), After(Begin(s), name, ok, n - 1), name, ok(n - 1));
    }
    IntactIsBare(s, name, Scribbled(Begin(s), name, ok, ino, n), After(Begin(s), name, ok, n));
  }

  lemma IntactIsBare(s: Store, name: Name, m: Machine, m': Machine)
    requires Bare(m) == Bare(m')
    ensures Intact(s, name, m) <==> Intact(s, name, m')
    ensures m.pc == m'.pc
  {
  }

  // ---- which call reads which record ----

  /** The calls made for one record: the read, and then a delete, or a seek and a write. */
  function Calls(e: Dentry, name: Name): nat {
    if e.name == [] then 1 else if e.name == name then 2 else 3
  }

  /** The number of the call that reads record p. */
  function CallOf(dir: seq<Dentry>, name: Name, p: nat): nat
    requires p <= |dir|
  {
    if p == 0 then 3 else CallOf(dir, name, p - 1) + Calls(dir[p - 1], name)
  }

  /** The reads of the first p records were granted. */
  ghost predicate Granted(dir: seq<Dentry>, name: Name, ok: nat -> bool, p: nat) {
    p <= |dir| && forall q | 0 <= q < p :: ok(CallOf(dir, name, q))
  }

  /** Where the machine is before call n, and, once the loop is over, why it is. */
  ghost predicate Paced(dir: seq<Dentry>, name: Name, ok: nat -> bool, m: Machine, n: nat) {
    match m.pc
    case Renaming => n == 0 && m.pos == 0
    case Opening => n == 1 && m.pos == 0
    case Creating => n == 2 && m.pos == 0
    case Reading => Granted(dir, name, ok, m.pos) && n == CallOf(dir, name, m.pos)
    case Deleting(e) => Within(dir, name, ok, e, m.pos) && e.name == name && n == CallOf(dir, name, m.pos) - 1
    case Seeking(e) => Within(dir, name, ok, e, m.pos) && Keeps(e, name) && n == CallOf(dir, name, m.pos) - 2
    case Writing(e) => Within(dir, name, ok, e, m.pos) && Keeps(e, name) && n == CallOf(dir, name, m.pos) - 1
    case Sweeping => Stopped(dir, name, ok, m.pos) && n == CallOf(dir, name, m.pos) + 1
    case Done(rc) => rc == 0 ==> Stopped(dir, name, ok, m.pos)
  }

  ghost predicate Within(dir: seq<Dentry>, name: Name, ok: nat -> bool, e: Dentry, p: nat) {
    p > 0 && Granted(dir, name, ok, p) && e == dir[p - 1]
  }

  /** The loop ended at record p: at the end of the table, or where the read was refused. */
  ghost predicate Stopped(dir: seq<Dentry>, name: Name, ok: nat -> bool, p: nat) {
    Granted(dir, name, ok, p) && (p < |dir| ==> !ok(CallOf(dir, name, p)))
  }

  lemma PacedStep(dir: seq<Dentry>, name: FileName, ok: nat -> bool, m: Machine, n: nat)
    requires m.table == dir && Paced(dir, name, ok, m, n)
    ensures Paced(dir, name, ok, Step(m, name, ok(n)), n + 1)
  {
  }

  lemma {:induction false} PacedAlways(s: Store, name: FileName, ok: nat -> bool, n: nat)
    ensures var m := After(Begin(s), name, ok, n);
            m.table == s.dir && Paced(s.dir, name, ok, m, n)
  {
    if n > 0 {
      PacedAlways(s, name, ok, n - 1);
      PacedStep(s.dir, name, ok, After(Begin(s), name, ok, n - 1), n - 1);
    }
  }

  // ---- what success means ----

  lemma {:induction false} KeptEmptyIff(dir: seq<Dentry>, name: Name)
    ensures Kept(dir, name) == [] <==> forall i | 0 <= i < |dir| :: !Keeps(dir[i], name)
  {
    if dir != [] {
      var n := |dir| - 1;
      KeptEmptyIff(dir[..n], name);
      assert forall i | 0 <= i < n :: dir[..n][i] == dir[i];
    }
  }

  /** A prefix yields the whole filtered table exactly when nothing to be kept is behind it. */
  lemma PrefixKeepsAllIff(dir: seq<Dentry>, name: Name, p: nat)
    requires p <= |dir|
    ensures Compacted(Kept(dir[..p], name)) == Compacted(Kept(dir, name))
            <==> forall i | p <= i < |dir| :: !Keeps(dir[i], name)
  {
    var rest := dir[p..];
    assert dir == dir[..p] + rest;
    KeptAppend(dir[..p], rest, name);
    KeptEmptyIff(rest, name);
    assert forall i | 0 <= i < |rest| :: rest[i] == dir[p + i];
    assert forall i | p <= i < |dir| :: dir[i] == rest[i - p];
    var a, b := Kept(dir[..p], name), Kept(rest, name);
    if b == [] {
      assert a + b == a;
    } else {
      assert |Compacted(a + b)| != |Compacted(a)|;
    }
  }

  /** No read up to a record that is to be kept is refused. */
  ghost predicate ReadsGranted(dir: seq<Dentry>, name: Name, ok: nat -> bool) {
    forall p, i | 0 <= p <= i < |dir| && Keeps(dir[i], name) :: ok(CallOf(dir, name, p))
  }

  /**
    Returning 0 is not the same as having kept everything: a refused read ends the loop like the
    end of the file does. The new table holds what was read before the first refused read, and is
    the whole filtered table exactly when no read up to the last record to be kept was refused.
  */
  lemma SuccessKeepsAllIff(s: Store, name: FileName, ok: nat -> bool, n: nat)
    requires After(Begin(s), name, ok, n).pc == Done(0)
    ensures exists p: nat :: Stopped(s.dir, name, ok, p)
                             && After(Begin(s), name, ok, n).dir == Some(Compacted(Kept(s.dir[..p], name)))
    ensures After(Begin(s), name, ok, n).dir == Some(Compacted(Kept(s.dir, name))) <==> ReadsGranted(s.dir, name, ok)
  {
    HeldAlways(s, name, ok, n);
    PacedAlways(s, name, ok, n);
    var p := After(Begin(s), name, ok, n).pos;
    PrefixKeepsAllIff(s.dir, name, p);
    if i :| p <= i < |s.dir| && Keeps(s.dir[i], name) {
      assert !ok(CallOf(s.dir, name, p));
    }
  }

  // ---- when the call succeeds ----

  /** What was done about record q, once read, was granted; and its file, if it was to go, was there. */
  predicate Handled(s: Store, name: Name, ok: nat -> bool, q: nat)
    requires q < |s.dir|
  {
    var e, c := s.dir[q], CallOf(s.dir, name, q);
    if e.name == [] then true
    else if e.name == name then ok(c + 1) && name in s.backing && !Met(s.dir, name, q)
    else ok(c + 1) && ok(c + 2)
  }

  predicate HandledTo(s: Store, name: Name, ok: nat -> bool, p: int) {
    0 <= p <= |s.dir| && forall q | 0 <= q < p :: Handled(s, name, ok, q)
  }

  predicate Opened(ok: nat -> bool) {
    ok(0) && ok(1) && ok(2)
  }

  /** The loop was entered, stopped at p with everything before dealt with, and the old table was removed. */
  ghost predicate SucceedsAt(s: Store, name: Name, ok: nat -> bool, p: nat) {
    && Opened(ok) && Stopped(s.dir, name, ok, p) && HandledTo(s, name, ok, p)
    && ok(CallOf(s.dir, name, p) + 1)
  }

  /** Record q was read, with everything before dealt with, and is not dealt with. */
  ghost predicate StuckAt(s: Store, name: Name, ok: nat -> bool, q: nat) {
    && q < |s.dir| && Opened(ok) && Granted(s.dir, name, ok, q + 1)
    && HandledTo(s, name, ok, q) && !Handled(s, name, ok, q)
  }

  /** Stuck because the file to remove is not there, or no longer, though the system would grant the removal. */
  ghost predicate MissesAt(s: Store, name: Name, ok: nat -> bool, q: nat) {
    StuckAt(s, name, ok, q) && s.dir[q].name == name && ok(CallOf(s.dir, name, q) + 1)
  }

  /** A call before the loop, one for a record that was read, or the one after the loop was refused. */
  ghost predicate Refused(s: Store, name: Name, ok: nat -> bool) {
    || !Opened(ok)
    || (exists q: nat :: StuckAt(s, name, ok, q) && !MissesAt(s, name, ok, q))
    || (exists p: nat :: SweepRefusedAt(s, name, ok, p))
  }

  ghost predicate SweepRefusedAt(s: Store, name: Name, ok: nat -> bool, p: nat) {
    && Opened(ok) && Stopped(s.dir, name, ok, p) && HandledTo(s, name, ok, p)
    && !ok(CallOf(s.dir, name, p) + 1)
  }

  /** The file called like the name is there until the first record of the name was dealt with. */
  predicate FileGone(s: Store, name: Name, m: Machine, p: int) {
    0 <= p <= |s.dir| && m.backing == if Met(s.dir, name, p) then s.backing - {name} else s.backing
  }

  ghost predicate Traced(s: Store, name: Name, ok: nat -> bool, m: Machine) {
    match m.pc
    case Renaming => m.backing == s.backing
    case Opening => ok(0) && m.backing == s.backing
    case Creating => ok(0) && ok(1) && m.backing == s.backing
    case Reading => Opened(ok) && HandledTo(s, name, ok, m.pos) && FileGone(s, name, m, m.pos)
    case Deleting(_) => Opened(ok) && HandledTo(s, name, ok, m.pos - 1) && FileGone(s, name, m, m.pos - 1)
    case Seeking(_) => Opened(ok) && HandledTo(s, name, ok, m.pos - 1) && FileGone(s, name, m, m.pos)
    case Writing(_) => Opened(ok) && HandledTo(s, name, ok, m.pos - 1) && FileGone(s, name, m, m.pos)
                       && ok(CallOf(s.dir, name, m.pos - 1) + 1)
    case Sweeping => Opened(ok) && HandledTo(s, name, ok, m.pos)
    case Done(rc) =>
      if rc == 0 then SucceedsAt(s, name, ok, m.pos)
      else if rc == -ENOENT then exists q: nat :: MissesAt(s, name, ok, q)
      else rc == -EIO && Refused(s, name, ok)
  }

  lemma MetNext(dir: seq<Dentry>, name: Name, p: nat)
    requires p < |dir|
    ensures Met(dir, name, p + 1) <==> Met(dir, name, p) || dir[p].name == name
  {
  }

  lemma ReadTraced(s: Store, name: FileName, ok: nat -> bool, m: Machine, n: nat)
    requires m.pc.Reading? && m.table == s.dir && Paced(s.dir, name, ok, m, n) && Traced(s, name, ok, m)
    ensures Traced(s, name, ok, Step(m, name, ok(n)))
  {
    if m.pos < |s.dir| { MetNext(s.dir, name, m.pos); }
  }

  lemma DeleteTraced(s: Store, name: FileName, ok: nat -> bool, m: Machine, n: nat)
    requires m.pc.Deleting? && m.table == s.dir && Paced(s.dir, name, ok, m, n) && Traced(s, name, ok, m)
    ensures Traced(s, name, ok, Step(m, name, ok(n)))
  {
    var q := m.pos - 1;
    MetNext(s.dir, name, q);
    if ok(n) && name in m.backing {
      assert Handled(s, name, ok, q);
    } else {
      assert StuckAt(s, name, ok, q);
      assert ok(n) <==> MissesAt(s, name, ok, q);
    }
  }

  lemma PlaceTraced(s: Store, name: FileName, ok: nat -> bool, m: Machine, n: nat)
    requires (m.pc.Seeking? || m.pc.Writing?) && m.table == s.dir
    requires Paced(s.dir, name, ok, m, n) && Traced(s, name, ok, m)
    ensures Traced(s, name, ok, Step(m, name, ok(n)))
  {
    var q := m.pos - 1;
    if !ok(n) {
      assert StuckAt(s, name, ok, q) && !MissesAt(s, name, ok, q);
    } else if m.pc.Writing? {
      assert Handled(s, name, ok, q);
    }
  }

  lemma TracedStep(s: Store, name: FileName, ok: nat -> bool, m: Machine, n: nat)
    requires m.table == s.dir && Paced(s.dir, name, ok, m, n) && Traced(s, name, ok, m)
    ensures Traced(s, name, ok, Step(m, name, ok(n)))
  {
    if m.pc.Reading? {
      ReadTraced(s, name, ok, m, n);
    } else if m.pc.Deleting? {
      DeleteTraced(s, name, ok, m, n);
    } else if m.pc.Seeking? || m.pc.Writing? {
      PlaceTraced(s, name, ok, m, n);
    } else if m.pc.Sweeping? {
      assert ok(n) || SweepRefusedAt(s, name, ok, m.pos);
    }
  }

  lemma {:induction false} TracedAlways(s: Store, name: FileName, ok: nat -> bool, n: nat)
    ensures Traced(s, name, ok, After(Begin(s), name, ok, n))
  {
    if n > 0 {
      PacedAlways(s, name, ok, n - 1);
      TracedAlways(s, name, ok, n - 1);
      TracedStep(s, name, ok, After(Begin(s), name, ok, n - 1), n - 1);
    }
  }

  /** The loop ends in one way only: stuck at one record, or stopped at one. */
  lemma OneEnd(s: Store, name: Name, ok: nat -> bool, q: nat)
    requires StuckAt(s, name, ok, q)
    ensures forall p: nat :: !SucceedsAt(s, name, ok, p) && !SweepRefusedAt(s, name, ok, p)
    ensures forall r: nat :: StuckAt(s, name, ok, r) ==> r == q
  {
    forall p: nat ensures !(Stopped(s.dir, name, ok, p) && HandledTo(s, name, ok, p)) {}
  }

  lemma OneStop(s: Store, name: Name, ok: nat -> bool, p: nat)
    requires SucceedsAt(s, name, ok, p)
    ensures !Refused(s, name, ok) && forall q: nat :: !MissesAt(s, name, ok, q)
  {
    forall q: nat ensures !StuckAt(s, name, ok, q) {
      if StuckAt(s, name, ok, q) { OneEnd(s, name, ok, q); }
    }
    forall r: nat | Stopped(s.dir, name, ok, r) ensures r == p {}
  }

  /**
    The return code of a call that is over. It is 0 exactly when the calls before the loop were granted,
    every record read was dealt with (so that the file of the name was there, and met once), and the
    removal of the old table was granted; ENOENT exactly when the first record not dealt with has the
    name, and its file is missing; and EIO exactly when a call was refused before either.
  */
  lemma ReturnsIff(s: Store, name: FileName, ok: nat -> bool, n: nat)
    requires After(Begin(s), name, ok, n).pc.Done?
    ensures var pc := After(Begin(s), name, ok, n).pc;
            && (pc == Done(0) <==> exists p: nat :: SucceedsAt(s, name, ok, p))
            && (pc == Done(-ENOENT) <==> exists q: nat :: MissesAt(s, name, ok, q))
            && (pc == Done(-EIO) <==> Refused(s, name, ok))
            && (pc == Done(0) || pc == Done(-ENOENT) || pc == Done(-EIO))
  {
    TracedAlways(s, name, ok, n);
    if p: nat :| SucceedsAt(s, name, ok, p) {
      OneStop(s, name, ok, p);
    }
    if q: nat :| MissesAt(s, name, ok, q) {
      OneEnd(s, name, ok, q);
    }
  }
}
