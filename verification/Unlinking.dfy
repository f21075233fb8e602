/**
  `safs_unlink`, one system call at a time. The old table is renamed to `.Directory~` and a
  new `Directory~` is built from it; any call may be refused by the system, and the
  environment decides which.
*/
module Unlinking {
  import opened Bytes
  import opened Layout
  import opened Table
  import opened Store
  import opened System

  // ---- the new table ----

  predicate Keeps(e: Dentry, name: Name) {
    e.name != [] && e.name != name
  }

  /** The named records other than `name`, in order. */
  function Kept(dir: seq<Dentry>, name: Name): seq<Dentry> {
    if dir == [] then []
    else
      var last := dir[|dir| - 1];
      Kept(dir[..|dir| - 1], name) + if Keeps(last, name) then [last] else []
  }

  lemma {:induction false} KeptFrom(dir: seq<Dentry>, name: Name)
    ensures var k := Kept(dir, name);
            |k| <= |dir| && forall i | 0 <= i < |k| :: Keeps(k[i], name) && k[i] in dir
  {
    if dir != [] {
      var init := dir[..|dir| - 1];
      KeptFrom(init, name);
      assert dir == init + [dir[|dir| - 1]];
    }
  }

  lemma {:induction false} KeptAppend(a: seq<Dentry>, b: seq<Dentry>, name: Name)
    ensures Kept(a + b, name) == Kept(a, name) + Kept(b, name)
    decreases |b|
  {
    if b == [] {
      assert a + b == a;
    } else {
      assert (a + b)[..|a + b| - 1] == a + b[..|b| - 1];
      KeptAppend(a, b[..|b| - 1], name);
    }
  }

  /** Records are placed from slot 2 on; a table that never got a record is empty. */
  function Compacted(kept: seq<Dentry>): (dir: seq<Dentry>)
    ensures |dir| == if kept == [] then 0 else 2 + |kept|
  {
    if kept == [] then [] else [FREE, FREE] + kept
  }

  // ---- the machine ----

  /** The system call about to be made. */
  datatype Pc =
    | Renaming
    | Opening
    | Creating
    | Reading
    | Deleting(victim: Dentry)
    | Seeking(moved: Dentry)
    | Writing(moved: Dentry)
    | Sweeping
    | Done(rc: int)

  /**
    `dir` and `tmp` are the files `Directory~` and `.Directory~`; `table` is the old table, `pos` how
    much of it was read, `out` what was written to the new one.
  */
  datatype Machine = Machine(pc: Pc, dir: Option<seq<Dentry>>, tmp: Option<seq<Dentry>>,
                             inodes: seq<Stat>, backing: map<Name, seq<byte>>,
                             table: seq<Dentry>, pos: nat, out: seq<Dentry>, slot: nat)

  function Begin(s: Store): Machine {
    Machine(Renaming, Some(s.dir), s.tmp, s.inodes, s.backing, s.dir, 0, [], 2)
  }

  function DropLink(inodes: seq<Stat>, k: nat): seq<Stat> {
    if k < |inodes| then SetInode(inodes, k, Relink(inodes[k], -1)) else inodes
  }

  function PlaceRecord(m: Machine, e: Dentry): Machine {
    var out := Put(m.out, m.slot, e, FREE);
    m.(pc := Reading, dir := Some(out), out := out, slot := m.slot + 1)
  }

  function TakeRecord(m: Machine, name: FileName): Machine {
    if m.pos >= |m.table| then m.(pc := Sweeping)
    else
      var e := m.table[m.pos];
      if e.name == [] then m.(pos := m.pos + 1)
      else if e.name == name then m.(pc := Deleting(e), pos := m.pos + 1, inodes := DropLink(m.inodes, e.inum))
      else m.(pc := Seeking(e), pos := m.pos + 1)
  }

  /** One system call; `ok` is whether the system grants it. A refusal is reported as EIO. */
  function Step(m: Machine, name: FileName, ok: bool): Machine {
    match m.pc
    case Renaming => if ok then m.(pc := Opening, dir := None, tmp := Some(m.table)) else m.(pc := Done(-EIO))
    case Opening => m.(pc := if ok then Creating else Done(-EIO))
    case Creating => if ok then m.(pc := Reading, dir := Some([])) else m.(pc := Done(-EIO))
    case Reading => if ok then TakeRecord(m, name) else m.(pc := Sweeping)
    case Deleting(e) =>
      if ok && e.name in m.backing then m.(pc := Reading, backing := m.backing - {e.name})
      else m.(pc := Done(if ok then -ENOENT else -EIO))
    case Seeking(e) => m.(pc := if ok then Writing(e) else Done(-EIO))
    case Writing(e) => if ok then PlaceRecord(m, e) else m.(pc := Done(-EIO))
    case Sweeping => if ok then m.(pc := Done(0), tmp := None) else m.(pc := Done(-EIO))
    case Done(_) => m
  }

  type Stepper = (Machine, bool) -> Machine

  /** The steps of a call for one name. */
  function Steps(name: FileName): Stepper {
    (m, ok) => Step(m, name, ok)
  }

  /** The machine after the calls numbered n0 to n, the k-th of which is granted when ok(k). */
  function Iterate(step: Stepper, m: Machine, ok: nat -> bool, n0: nat, n: nat): Machine
    requires n0 <= n
  {
    if n == n0 then m else step(Iterate(step, m, ok, n0, n - 1), ok(n - 1))
  }

  /** The machine after its first n calls. */
  function After(m: Machine, name: FileName, ok: nat -> bool, n: nat): Machine {
    Iterate(Steps(name), m, ok, 0, n)
  }

  /** The machine between two counts of calls. */
  function From(m: Machine, name: FileName, ok: nat -> bool, n0: nat, n: nat): Machine
    requires n0 <= n
  {
    Iterate(Steps(name), m, ok, n0, n)
  }

  lemma {:induction false} IterateJoin(step: Stepper, m: Machine, ok: nat -> bool, n0: nat, n1: nat, n2: nat)
    requires n0 <= n1 <= n2
    ensures Iterate(step, m, ok, n0, n2) == Iterate(step, Iterate(step, m, ok, n0, n1), ok, n1, n2)
  {
    if n1 < n2 {
      IterateJoin(step, m, ok, n0, n1, n2 - 1);
    }
  }

  /** What no granted step changes, no number of granted steps changes. */
  lemma {:induction false} IterateFixed<T>(step: Stepper, f: Machine -> T, m: Machine, ok: nat -> bool, n: nat)
    requires forall x :: f(step(x, true)) == f(x)
    requires forall k: nat | k < n :: ok(k)
    ensures f(Iterate(step, m, ok, 0, n)) == f(m)
  {
    if n > 0 {
      IterateFixed(step, f, m, ok, n - 1);
    }
  }

  lemma FromSwept(m0: Machine, name: FileName, ok: nat -> bool, n0: nat, n: nat)
    requires n0 <= n && From(m0, name, ok, n0, n).pc.Reading?
    requires ok(n) ==> From(m0, name, ok, n0, n).pos >= |From(m0, name, ok, n0, n).table|
    ensures From(m0, name, ok, n0, n + 1) == From(m0, name, ok, n0, n).(pc := Sweeping)
  {
  }

  lemma FromNext(m: Machine, name: FileName, ok: nat -> bool, n0: nat, n: nat)
    requires n0 <= n
    ensures From(m, name, ok, n0, n + 1) == Step(From(m, name, ok, n0, n), name, ok(n))
  {
  }

  lemma FromRead(m0: Machine, name: FileName, ok: nat -> bool, n0: nat, n: nat)
    requires n0 <= n && From(m0, name, ok, n0, n).pc.Reading? && ok(n)
    ensures From(m0, name, ok, n0, n + 1) == TakeRecord(From(m0, name, ok, n0, n), name)
  {
  }

  lemma AfterFrom(m: Machine, name: FileName, ok: nat -> bool, n0: nat, n: nat)
    requires n0 <= n
    ensures After(m, name, ok, n) == From(After(m, name, ok, n0), name, ok, n0, n)
  {
    IterateJoin(Steps(name), m, ok, 0, n0, n);
  }

  /** The machine once the loop is entered. */
  function Entered(s: Store): Machine {
    Begin(s).(pc := Reading, tmp := Some(s.dir), dir := Some([]))
  }

  /** The three calls before the loop. */
  lemma FirstCalls(s: Store, name: FileName, ok: nat -> bool)
    ensures var m := Begin(s);
            var gone := m.(tmp := Some(s.dir), dir := None);
            && (!ok(0) ==> After(m, name, ok, 1) == m.(pc := Done(-EIO)))
            && (ok(0) && !ok(1) ==> After(m, name, ok, 2) == gone.(pc := Done(-EIO)))
            && (ok(0) && ok(1) && !ok(2) ==> After(m, name, ok, 3) == gone.(pc := Done(-EIO)))
            && (ok(0) && ok(1) && ok(2) ==> After(m, name, ok, 3) == Entered(s))
  {
    var m := Begin(s);
    assert After(m, name, ok, 0) == m;
    assert After(m, name, ok, 1) == Step(m, name, ok(0));
    assert After(m, name, ok, 2) == Step(After(m, name, ok, 1), name, ok(1));
    assert After(m, name, ok, 3) == Step(After(m, name, ok, 2), name, ok(2));
  }

  /** The call after the loop. */
  lemma LastCall(m0: Machine, name: FileName, ok: nat -> bool, n: nat, m: Machine)
    requires After(m0, name, ok, n) == m && m.pc.Sweeping?
    ensures After(m0, name, ok, n + 1) == if ok(n) then m.(pc := Done(0), tmp := None) else m.(pc := Done(-EIO))
  {
  }

  // ---- what every step keeps ----

  /** The machine has dealt with the first p records of `dir`. */
  predicate Progress(dir: seq<Dentry>, name: Name, m: Machine, p: int) {
    && 0 <= p <= |dir|
    && m.tmp == Some(dir) && m.table == dir
    && m.dir == Some(m.out) && m.out == Compacted(Kept(dir[..p], name))
    && m.slot == 2 + |Kept(dir[..p], name)|
  }

  /** The new table has what was read, but for a record to be kept that was read and not yet placed. */
  predicate Rebuilding(dir: seq<Dentry>, name: Name, m: Machine) {
    || Progress(dir, name, m, m.pos)
    || (0 < m.pos <= |dir| && Keeps(dir[m.pos - 1], name) && Progress(dir, name, m, m.pos - 1))
  }

  /** The old table is intact, under its own name or under `.Directory~` beside a compacted prefix. */
  predicate Intact(s: Store, name: Name, m: Machine) {
    || (m.dir == Some(s.dir) && m.tmp == s.tmp && m.pos == 0)
    || (m.tmp == Some(s.dir) && (if m.dir == None then m.pos == 0 else Rebuilding(s.dir, name, m)))
  }

  predicate Held(s: Store, name: Name, m: Machine) {
    match m.pc
    case Renaming => m == Begin(s)
    case Opening => m == Begin(s).(pc := Opening, dir := None, tmp := Some(s.dir))
    case Creating => m == Begin(s).(pc := Creating, dir := None, tmp := Some(s.dir))
    case Reading => Progress(s.dir, name, m, m.pos)
    case Deleting(e) => Progress(s.dir, name, m, m.pos)
    case Seeking(e) =>
      Progress(s.dir, name, m, m.pos - 1) && m.pos <= |s.dir| && s.dir[m.pos - 1] == e && Keeps(e, name)
    case Writing(e) =>
      Progress(s.dir, name, m, m.pos - 1) && m.pos <= |s.dir| && s.dir[m.pos - 1] == e && Keeps(e, name)
    case Sweeping => Progress(s.dir, name, m, m.pos)
    case Done(rc) => if rc == 0 then Progress(s.dir, name, m.(tmp := Some(s.dir)), m.pos) && m.tmp == None
                     else Intact(s, name, m)
  }

  lemma KeptNext(dir: seq<Dentry>, name: Name, p: nat)
    requires p < |dir|
    ensures Kept(dir[..p + 1], name) == Kept(dir[..p], name) + if Keeps(dir[p], name) then [dir[p]] else []
  {
    assert dir[..p + 1][..p] == dir[..p];
  }

  lemma PutCompacted(kept: seq<Dentry>, e: Dentry)
    ensures Put(Compacted(kept), 2 + |kept|, e, FREE) == Compacted(kept + [e])
  {
  }

  lemma ReadKeepsHeld(s: Store, name: FileName, m: Machine, ok: bool)
    requires m.pc.Reading? && Held(s, name, m)
    ensures Held(s, name, Step(m, name, ok))
  {
    if ok && m.pos < |s.dir| {
      KeptNext(s.dir, name, m.pos);
      var kept := Kept(s.dir[..m.pos], name);
      assert kept + [] == kept;
      var e := s.dir[m.pos];
      assert e.name == [] || e.name == name || Keeps(e, name);
    }
  }

  lemma WriteKeepsHeld(s: Store, name: FileName, m: Machine)
    requires m.pc.Writing? && Held(s, name, m)
    ensures Held(s, name, Step(m, name, true))
  {
    KeptNext(s.dir, name, m.pos - 1);
    PutCompacted(Kept(s.dir[..m.pos - 1], name), m.pc.moved);
    assert Keeps(m.pc.moved, name);
  }

  lemma HeldStep(s: Store, name: FileName, m: Machine, ok: bool)
    requires Held(s, name, m)
    ensures Held(s, name, Step(m, name, ok))
  {
    if m.pc.Reading? {
      ReadKeepsHeld(s, name, m, ok);
    } else if m.pc.Writing? && ok {
      WriteKeepsHeld(s, name, m);
    } else if m.pc.Creating? {
      assert s.dir[..0] == [];
    }
  }

  lemma {:induction false} HeldAlways(s: Store, name: FileName, ok: nat -> bool, n: nat)
    ensures Held(s, name, After(Begin(s), name, ok, n))
  {
    if n > 0 {
      HeldAlways(s, name, ok, n - 1);
      HeldStep(s, name, After(Begin(s), name, ok, n - 1), ok(n - 1));
    }
  }

  lemma CompactedFormed(dir: seq<Dentry>, name: Name, p: nat, inodes: seq<Stat>)
    requires Formed(dir, inodes) && p <= |dir|
    ensures Formed(Compacted(Kept(dir[..p], name)), inodes)
  {
    var kept := Kept(dir[..p], name);
    KeptFrom(dir[..p], name);
    forall i | 0 <= i < |kept| ensures kept[i] in dir && kept[i].name != [] {
      assert kept[i] in dir[..p];
    }
    var d := Compacted(kept);
    forall i | 0 <= i < |d|
      ensures (d[i].name == [] <==> d[i].inum == 0) && d[i].inum < |inodes| && d[i].inum <= INT_MAX
    {
      assert kept[0] in dir;
      if i >= 2 { assert d[i] == kept[i - 2]; }
    }
  }

  lemma HeldFormed(s: Store, name: Name, m: Machine)
    requires Held(s, name, m) && m.dir.Some? && Formed(s.dir, s.inodes)
    ensures Formed(m.dir.value, s.inodes)
  {
    if m.dir != Some(s.dir) {
      var p: nat :| p <= |s.dir| && m.dir == Some(Compacted(Kept(s.dir[..p], name)));
      CompactedFormed(s.dir, name, p, s.inodes);
    }
  }

  /** Any new table there may be is as well-formed as the old one. */
  lemma RebuiltWellFormed(s: Store, name: FileName, ok: nat -> bool, n: nat)
    requires WellFormed(s)
    ensures var m := After(Begin(s), name, ok, n);
            m.dir.Some? ==> WellFormed(s.(dir := m.dir.value, tmp := m.tmp, inodes := m.inodes, backing := m.backing))
  {
    HeldAlways(s, name, ok, n);
    InodesGrow(Begin(s), name, ok, n);
    if After(Begin(s), name, ok, n).dir.Some? {
      HeldFormed(s, name, After(Begin(s), name, ok, n));
    }
  }

  lemma StepGrows(m: Machine, name: FileName, ok: bool)
    ensures |Step(m, name, ok).inodes| >= |m.inodes|
  {
  }

  lemma {:induction false} InodesGrow(m: Machine, name: FileName, ok: nat -> bool, n: nat)
    ensures |After(m, name, ok, n).inodes| >= |m.inodes|
  {
    if n > 0 {
      InodesGrow(m, name, ok, n - 1);
      StepGrows(After(m, name, ok, n - 1), name, ok(n - 1));
    }
  }

  // ---- the call when the system refuses nothing ----

  function Stage(pc: Pc): nat {
    match pc
    case Renaming => 5
    case Opening => 4
    case Creating => 3
    case Sweeping => 1
    case Done(_) => 0
    case _ => 2
  }

  function Phase(pc: Pc): nat {
    match pc
    case Seeking(_) => 2
    case Writing(_) => 1
    case Deleting(_) => 1
    case _ => 0
  }

  function Unread(m: Machine): nat {
    if m.pos <= |m.table| then |m.table| - m.pos else 0
  }

  /** Runs to the end of the call; only a backing file that is not there can still stop it. */
  function Finish(m: Machine, name: FileName): (r: Machine)
    ensures r.pc.Done?
    ensures !m.pc.Done? && (Stage(m.pc) <= 2 ==> m.dir.Some?) ==> r.dir.Some?
    decreases Stage(m.pc), Unread(m), Phase(m.pc)
  {
    if m.pc.Done? then m else Finish(Step(m, name, true), name)
  }

  function Unlink(s: Store, name: FileName): (Store, int)
    requires WellFormed(s)
  {
    var m := Finish(Begin(s), name);
    (Store(m.dir.value, m.tmp, m.inodes, m.backing, s.next), m.pc.rc)
  }

  lemma FinishAfter(m: Machine, name: FileName, ok: nat -> bool, n: nat)
    requires forall k: nat | k < n :: ok(k)
    ensures Finish(After(m, name, ok, n), name) == Finish(m, name)
  {
    var finish: Machine -> Machine := x => Finish(x, name);
    forall x: Machine ensures finish(Steps(name)(x, true)) == finish(x) {
      if !x.pc.Done? { FinishStep(x, name); }
    }
    IterateFixed(Steps(name), finish, m, ok, n);
  }

  /** Loop state with the first p records of `dir` dealt with. */
  function At(m: Machine, dir: seq<Dentry>, name: Name, p: nat): Machine
    requires p <= |dir|
  {
    var kept := Kept(dir[..p], name);
    m.(pc := Reading, tmp := Some(dir), dir := Some(Compacted(kept)), table := dir, pos := p, out := Compacted(kept),
       slot := 2 + |kept|)
  }

  lemma Advance(m: Machine, dir: seq<Dentry>, name: FileName, p: nat, q: nat)
    requires p <= q <= |dir|
    requires forall i | p <= i < q :: dir[i].name != name
    ensures Finish(At(m, dir, name, p), name) == Finish(At(m, dir, name, q), name)
    decreases q - p
  {
    if p < q {
      AdvanceOne(m, dir, name, p);
      Advance(m, dir, name, p + 1, q);
    }
  }

  lemma AdvanceOne(m: Machine, dir: seq<Dentry>, name: FileName, p: nat)
    requires p < |dir| && dir[p].name != name
    ensures Finish(At(m, dir, name, p), name) == Finish(At(m, dir, name, p + 1), name)
  {
    KeptNext(dir, name, p);
    if dir[p].name == [] {
      FinishStep(At(m, dir, name, p), name);
      assert Kept(dir[..p], name) + [] == Kept(dir[..p], name);
    } else {
      Moved(m, dir, name, p);
    }
  }

  /** A read, a seek and a write. */
  lemma Moved(m: Machine, dir: seq<Dentry>, name: FileName, p: nat)
    requires p < |dir| && Keeps(dir[p], name)
    ensures Finish(At(m, dir, name, p), name) == Finish(At(m, dir, name, p + 1), name)
  {
    var m0 := At(m, dir, name, p);
    var m1 := m0.(pc := Seeking(dir[p]), pos := p + 1);
    var m2 := m1.(pc := Writing(dir[p]));
    FinishStep(m0, name);
    FinishStep(m1, name);
    FinishStep(m2, name);
    KeptNext(dir, name, p);
    PutCompacted(Kept(dir[..p], name), dir[p]);
    assert PlaceRecord(m2, dir[p]) == At(m, dir, name, p + 1);
  }

  lemma FinishStep(m: Machine, name: FileName)
    requires !m.pc.Done?
    ensures Finish(m, name) == Finish(Step(m, name, true), name)
  {
  }

  lemma Started(s: Store, name: FileName)
    requires WellFormed(s)
    ensures Finish(Begin(s), name) == Finish(At(Begin(s), s.dir, name, 0), name)
  {
    var m0 := Begin(s);
    var m1 := Step(m0, name, true);
    var m2 := Step(m1, name, true);
    var m3 := Step(m2, name, true);
    assert s.dir[..0] == [];
    assert m3 == At(m0, s.dir, name, 0);
    assert Finish(m0, name) == Finish(m1, name) == Finish(m2, name) == Finish(m3, name);
  }

  lemma Finished(m: Machine, dir: seq<Dentry>, name: FileName)
    ensures var r := Finish(At(m, dir, name, |dir|), name);
            r.dir == Some(Compacted(Kept(dir, name))) && r.tmp == None
            && r.inodes == m.inodes && r.backing == m.backing && r.pc == Done(0)
  {
    assert dir[..|dir|] == dir;
    var m0 := At(m, dir, name, |dir|);
    var m1 := Step(m0, name, true);
    var m2 := Step(m1, name, true);
    assert Finish(m0, name) == Finish(m1, name) == Finish(m2, name);
  }

  /** Unlinking a name that is not there reports success and compacts the table. */
  lemma UnlinkMissing(s: Store, name: FileName)
    requires WellFormed(s)
    requires Find(s.dir, name) == |s.dir|
    ensures Unlink(s, name) == (s.(dir := Compacted(Kept(s.dir, name)), tmp := None), 0)
  {
    assert forall i | 0 <= i < |s.dir| :: s.dir[i].name != name by {
      assert forall i | 0 <= i < |s.dir| :: !Hit(s.dir[i], name);
    }
    Started(s, name);
    Advance(Begin(s), s.dir, name, 0, |s.dir|);
    Finished(Begin(s), s.dir, name);
  }

  /** The inode and backing-file effects of removing entry e. */
  function Struck(m: Machine, e: Dentry): Machine {
    m.(inodes := DropLink(m.inodes, e.inum), backing := m.backing - {e.name})
  }

  lemma Remove(m: Machine, dir: seq<Dentry>, name: FileName, p: nat)
    requires p < |dir| && dir[p].name == name
    ensures Finish(At(m, dir, name, p), name) ==
              if name in m.backing then Finish(At(Struck(m, dir[p]), dir, name, p + 1), name)
              else At(m, dir, name, p).(pc := Done(-ENOENT), pos := p + 1, inodes := Struck(m, dir[p]).inodes)
  {
    var m0 := At(m, dir, name, p);
    var m1 := m0.(pc := Deleting(dir[p]), pos := p + 1, inodes := DropLink(m.inodes, dir[p].inum));
    FinishStep(m0, name);
    FinishStep(m1, name);
    if name in m.backing {
      Removed(m, dir, name, p);
    }
  }

  lemma Removed(m: Machine, dir: seq<Dentry>, name: FileName, p: nat)
    requires p < |dir| && dir[p].name == name
    ensures At(Struck(m, dir[p]), dir, name, p + 1)
         == At(m, dir, name, p).(pos := p + 1, inodes := DropLink(m.inodes, dir[p].inum), backing := m.backing - {name})
  {
    KeptNext(dir, name, p);
    assert Kept(dir[..p], name) + [] == Kept(dir[..p], name);
  }

  /** The next live entry of the name after the first, or |dir|. */
  function Again(dir: seq<Dentry>, name: Name): (j: nat)
    requires Find(dir, name) < |dir|
    ensures Find(dir, name) < j <= |dir|
    ensures j < |dir| ==> Hit(dir[j], name)
    ensures forall k | Find(dir, name) < k < j :: !Hit(dir[k], name)
  {
    var i := Find(dir, name) + 1;
    var rest := dir[i..];
    assert forall k | i <= k < |dir| :: dir[k] == rest[k - i];
    i + Find(rest, name)
  }

  /** No other live entry has the name. */
  predicate Alone(dir: seq<Dentry>, name: Name) {
    forall i, j | 0 <= i < |dir| && 0 <= j < |dir| && Hit(dir[i], name) && Hit(dir[j], name) :: i == j
  }

  /** Up to and including the first record of the name. */
  lemma UnlinkTo(s: Store, name: FileName, i: nat)
    requires i == Find(s.dir, name) < |s.dir|
    requires WellFormed(s)
    ensures s.dir[i].name == name
    ensures Finish(Begin(s), name) ==
              if name in s.backing then Finish(At(Struck(Begin(s), s.dir[i]), s.dir, name, i + 1), name)
              else At(Begin(s), s.dir, name, i).(pc := Done(-ENOENT), pos := i + 1,
                                                 inodes := DropLink(s.inodes, s.dir[i].inum))
  {
    assert forall j | 0 <= j < i :: s.dir[j].name != name by {
      assert forall j | 0 <= j < i :: !Hit(s.dir[j], name);
    }
    Started(s, name);
    Advance(Begin(s), s.dir, name, 0, i);
    Remove(Begin(s), s.dir, name, i);
  }

  /** After it, the rest of the table. */
  lemma UnlinkFrom(m: Machine, dir: seq<Dentry>, name: FileName, i: nat)
    requires i < |dir| && forall j | i < j < |dir| :: dir[j].name != name
    ensures var r := Finish(At(m, dir, name, i + 1), name);
            r.dir == Some(Compacted(Kept(dir, name))) && r.tmp == None
            && r.inodes == m.inodes && r.backing == m.backing && r.pc == Done(0)
  {
    Advance(m, dir, name, i + 1, |dir|);
    Finished(m, dir, name);
  }

  /** Or up to the second record of the name, whose file is no longer there. */
  lemma UnlinkAgain(m: Machine, dir: seq<Dentry>, name: FileName, i: nat, j: nat)
    requires i < j < |dir| && dir[j].name == name && forall k | i < k < j :: dir[k].name != name
    requires name !in m.backing
    ensures var r := Finish(At(m, dir, name, i + 1), name);
            r.dir == Some(Compacted(Kept(dir[..j], name))) && r.tmp == Some(dir)
            && r.inodes == DropLink(m.inodes, dir[j].inum) && r.backing == m.backing && r.pc == Done(-ENOENT)
  {
    Advance(m, dir, name, i + 1, j);
    Remove(m, dir, name, j);
  }

  /**
    Unlinking a name that is there. The link count of its inode drops, and the backing file called
    like the name goes. Without such a file the call stops there, with the records behind the entry
    only in `.Directory~`. A second entry of the name, as a rename onto a bound name makes, is met when
    the file is gone: its count drops too, and the call stops at it.
  */
  lemma UnlinkFound(s: Store, name: FileName)
    requires WellFormed(s)
    requires Find(s.dir, name) < |s.dir|
    ensures var i, j := Find(s.dir, name), Again(s.dir, name);
            var inodes := DropLink(s.inodes, s.dir[i].inum);
            Unlink(s, name) ==
              if name !in s.backing
              then (s.(dir := Compacted(Kept(s.dir[..i], name)), tmp := Some(s.dir), inodes := inodes), -ENOENT)
              else if j == |s.dir|
              then (s.(dir := Compacted(Kept(s.dir, name)), tmp := None, inodes := inodes,
                       backing := s.backing - {name}), 0)
              else (s.(dir := Compacted(Kept(s.dir[..j], name)), tmp := Some(s.dir),
                       inodes := DropLink(inodes, s.dir[j].inum), backing := s.backing - {name}), -ENOENT)
  {
    var i, j := Find(s.dir, name), Again(s.dir, name);
    UnlinkTo(s, name, i);
    assert forall k | i < k < j :: s.dir[k].name != name by {
      assert forall k | i < k < j :: !Hit(s.dir[k], name);
    }
    if j == |s.dir| {
      UnlinkFrom(Struck(Begin(s), s.dir[i]), s.dir, name, i);
    } else {
      UnlinkAgain(Struck(Begin(s), s.dir[i]), s.dir, name, i, j);
    }
  }

  /** The same for the only entry of a name. */
  lemma UnlinkOnly(s: Store, name: FileName)
    requires WellFormed(s)
    requires Find(s.dir, name) < |s.dir| && Alone(s.dir, name)
    ensures var i := Find(s.dir, name);
            var k := s.dir[i].inum;
            var inodes := SetInode(s.inodes, k, Relink(s.inodes[k], -1));
            Unlink(s, name) ==
              if name in s.backing
              then (s.(dir := Compacted(Kept(s.dir, name)), tmp := None, inodes := inodes,
                       backing := s.backing - {name}), 0)
              else (s.(dir := Compacted(Kept(s.dir[..i], name)), tmp := Some(s.dir), inodes := inodes), -ENOENT)
  {
    UnlinkFound(s, name);
    assert Again(s.dir, name) == |s.dir|;
  }

  lemma {:induction false} HeldFinish(s: Store, name: FileName, m: Machine)
    requires Held(s, name, m)
    ensures Held(s, name, Finish(m, name))
    decreases Stage(m.pc), Unread(m), Phase(m.pc)
  {
    if !m.pc.Done? {
      HeldStep(s, name, m, true);
      Progresses(m, name);
      HeldFinish(s, name, Step(m, name, true));
      FinishStep(m, name);
    }
  }

  lemma Progresses(m: Machine, name: FileName)
    requires !m.pc.Done?
    ensures var m' := Step(m, name, true);
            || Stage(m'.pc) < Stage(m.pc)
            || (Stage(m'.pc) == Stage(m.pc) && Unread(m') < Unread(m))
            || (Stage(m'.pc) == Stage(m.pc) && Unread(m') == Unread(m) && Phase(m'.pc) < Phase(m.pc))
  {
  }

  lemma {:induction false} FinishGrows(m: Machine, name: FileName)
    ensures |Finish(m, name).inodes| >= |m.inodes|
    decreases Stage(m.pc), Unread(m), Phase(m.pc)
  {
    if !m.pc.Done? {
      StepGrows(m, name, true);
      Progresses(m, name);
      FinishGrows(Step(m, name, true), name);
      FinishStep(m, name);
    }
  }

  lemma UnlinkWellFormed(s: Store, name: FileName)
    requires WellFormed(s)
    ensures WellFormed(Unlink(s, name).0)
  {
    HeldFinish(s, name, Begin(s));
    FinishGrows(Begin(s), name);
    HeldFormed(s, name, Finish(Begin(s), name));
  }

  /** A call that was granted everything has done what the function Unlink says. */
  lemma GrantedIsUnlink(s: Store, name: FileName, ok: nat -> bool, n: nat)
    requires WellFormed(s)
    requires forall k: nat | k < n :: ok(k)
    requires After(Begin(s), name, ok, n).pc.Done?
    ensures var m := After(Begin(s), name, ok, n);
            m.dir.Some? && Unlink(s, name) == (Store(m.dir.value, m.tmp, m.inodes, m.backing, s.next), m.pc.rc)
  {
    FinishAfter(Begin(s), name, ok, n);
  }
}
