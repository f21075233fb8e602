/**
  Where the code departs from its own contracts: for each departure, exactly which calls are
  affected. Sessions that show it are in module Examples.
*/
module Divergence {
  import opened Codecs
  import opened Layout
  import opened Store
  import opened System
  import opened Unlinking
  import opened Slots
  import opened Sessions
  import opened Upkeep

  // ---- link counts the wrong inode ----

  /** The table has no hole and its last entry is another name, or the same one, of the linked inode. */
  predicate EndsWithInode(dir: seq<Dentry>, k: half) {
    dir != [] && FreeSlot(dir) == |dir| && dir[|dir| - 1].inum == k
  }

  lemma LinkAgreesIff(s: Store, from: FileName, to: FileName)
    requires WellFormed(s) && Bound(s.dir, from)
    ensures Link(s, from, to) == IntendedLink(s, from, to)
            <==> EndsWithInode(s.dir, s.dir[Find(s.dir, from)].inum)
  {
    var k := s.dir[Find(s.dir, from)].inum;
    var x := Leftover(s.dir);
    var a, b := Link(s, from, to).0.inodes, IntendedLink(s, from, to).0.inodes;
    assert x == k <==> EndsWithInode(s.dir, k);
    if x != k {
      assert b[k] == Relink(s.inodes[k], 1) && a[k] == s.inodes[k];
    }
  }

  /** As coded, an admitted link keeps link counts equal to the number of names in just those cases. */
  lemma LinkCountsIff(s: Store, from: FileName, to: FileName)
    requires Invariant(s) && Bound(s.dir, from) && Admissible(s, DoLink(from, to))
    ensures WellFormed(Link(s, from, to).0)
    ensures Counted(Link(s, from, to).0) <==> EndsWithInode(s.dir, s.dir[Find(s.dir, from)].inum)
  {
    var i := Find(s.dir, from);
    var k := s.dir[i].inum;
    var s' := Link(s, from, to).0;
    LinkWellFormed(s, from, to);
    LinkAgreesIff(s, from, to);
    LinkCounted(s, from, to);
    if !EndsWithInode(s.dir, k) {
      var f := FreeSlot(s.dir);
      var e := Dentry(to, s.dir[i].storage, k);
      TallyPut(s.dir, f, e, HasInum(k));
      UnusedIsDead(s.dir);
      assert s'.dir[f] == e && s'.inodes[k] == s.inodes[k];
      assert s.inodes[k].nlink == Tally(s.dir, HasInum(k));
    }
  }

  // ---- mknod writes at the slot numbered by the counter ----

  /** A name is lost to the creation of another exactly when its entry stands at that slot. */
  lemma MknodLosesIff(s: Store, name: FileName, mode: word, uid: word, gid: word, now: word, other: FileName)
    requires Unique(s.dir) && s.next < INT_MAX && Regular(mode)
    requires other != name && Bound(s.dir, other)
    ensures Bound(Mknod(s, name, mode, uid, gid, now).0.dir, other) <==> Find(s.dir, other) != s.next
  {
    var d := Mknod(s, name, mode, uid, gid, now).0.dir;
    var i, j := Find(s.dir, other), Find(d, other);
    assert d[s.next] == Dentry(name, name, s.next);
    if i != s.next {
      assert Hit(d[i], other);
    }
    if j < |d| {
      assert j != s.next && d[j] == s.dir[j];
    }
  }

  // ---- unlink removes the file called like the name ----

  /**
    As coded, unlink of a bound name is right exactly when the name is the inode's last and is what
    the backing file is called.
  */
  lemma UnlinkAgreesIff(s: Store, name: FileName)
    requires Invariant(s) && Bound(s.dir, name)
    ensures Unlink(s, name) == IntendedUnlink(s, name)
            <==> s.inodes[s.dir[Find(s.dir, name)].inum].nlink == 1 && s.dir[Find(s.dir, name)].storage == name
  {
    UniqueIsAlone(s.dir, name);
    UnlinkOnly(s, name);
    var e := s.dir[Find(s.dir, name)];
    var st := s.inodes[e.inum];
    TallySmall(s.dir, e.inum, s.next);
    TallyNone(s.dir, HasInum(e.inum));
    assert HasInum(e.inum)(e);
    assert st.nlink == Tally(s.dir, HasInum(e.inum)) && 0 < st.nlink;
    RelinkExact(st, -1);
    if name in s.backing {
      assert name !in Unlink(s, name).0.backing;
      assert e.storage != name ==> e.storage in Unlink(s, name).0.backing;
    } else {
      assert Unlink(s, name).1 == -ENOENT;
    }
  }

  /** A live inode has a name before slot i and one behind it. */
  predicate Straddled(dir: seq<Dentry>, i: nat) {
    exists a, b | 0 <= a < i < b < |dir| :: Live(dir[a]) && dir[a].inum == dir[b].inum
  }

  lemma NoneBehind(dir: seq<Dentry>, i: nat, k: nat)
    requires i < |dir|
    ensures Tally(dir[i + 1..], HasInum(k)) == 0 <==> forall b | i < b < |dir| :: dir[b].inum != k
  {
    var back := dir[i + 1..];
    TallyNone(back, HasInum(k));
    forall b | i < b < |dir| ensures dir[b] == back[b - i - 1] {}
    forall b | 0 <= b < |back| ensures back[b] == dir[b + i + 1] {}
  }

  /** The names of an inode are those in front of slot i, that of slot i, and those behind it. */
  lemma TallyAround(dir: seq<Dentry>, i: nat, k: nat) returns (behind: nat)
    requires i < |dir|
    ensures Tally(dir, HasInum(k)) == Tally(dir[..i], HasInum(k)) + Bit(dir[i].inum == k) + behind
    ensures behind == 0 <==> forall b | i < b < |dir| :: dir[b].inum != k
  {
    var front, back := dir[..i], dir[i + 1..];
    assert dir == front + [dir[i]] + back;
    TallyMiddle(front, dir[i], back, HasInum(k));
    NoneBehind(dir, i, k);
    behind := Tally(back, HasInum(k));
  }

  /** A call that stops at the entry leaves the names that stood in front of it. */
  lemma StoppedTally(s: Store, name: FileName, k: half)
    requires Invariant(s) && Bound(s.dir, name) && name !in s.backing && k != 0
    ensures Tally(Unlink(s, name).0.dir, HasInum(k)) == Tally(s.dir[..Find(s.dir, name)], HasInum(k))
  {
    var i := Find(s.dir, name);
    var front := s.dir[..i];
    UnlinkFound(s, name);
    assert forall a | 0 <= a < i :: front[a] == s.dir[a];
    FindIs(front, name, i);
    TallyUnlinked(front, name, k);
  }

  /** So an inode that has a name in front has the names behind counted too. */
  lemma StoppedCountOf(s: Store, name: FileName, a: nat) returns (behind: nat)
    requires Invariant(s) && Bound(s.dir, name) && name !in s.backing
    requires a < Find(s.dir, name) && Live(s.dir[a])
    ensures var k := s.dir[a].inum;
            var s' := Unlink(s, name).0;
            k < |s'.inodes| && s'.inodes[k].nlink == Tally(s'.dir, HasInum(k)) + behind
    ensures behind == 0 <==> forall b | Find(s.dir, name) < b < |s.dir| :: s.dir[b].inum != s.dir[a].inum
  {
    var i, k := Find(s.dir, name), s.dir[a].inum;
    behind := TallyAround(s.dir, i, k);
    StoppedTally(s, name, k);
    UnlinkFound(s, name);
    TallySmall(s.dir, k, s.next);
    if s.dir[i].inum == k { RelinkExact(s.inodes[k], -1); }
  }

  /** Every entry left by a call that stops came from in front. */
  lemma StoppedEntry(s: Store, name: FileName, j: nat) returns (a: nat)
    requires Invariant(s) && Bound(s.dir, name) && name !in s.backing
    requires var s' := Unlink(s, name).0; j < |s'.dir| && Live(s'.dir[j])
    ensures a < Find(s.dir, name) && s.dir[a] == Unlink(s, name).0.dir[j]
  {
    var front := s.dir[..Find(s.dir, name)];
    UnlinkFound(s, name);
    KeptIn(front, name);
    var e := Unlink(s, name).0.dir[j];
    assert e in Unlink(s, name).0.dir;
    a :| 0 <= a < |front| && front[a] == e;
  }

  lemma StoppedHolds(s: Store, name: FileName, a: nat)
    requires Invariant(s) && Bound(s.dir, name) && name !in s.backing
    requires a < Find(s.dir, name) && Live(s.dir[a])
    ensures s.dir[a] in Unlink(s, name).0.dir
  {
    var front := s.dir[..Find(s.dir, name)];
    UnlinkFound(s, name);
    KeptIn(front, name);
    assert front[a] == s.dir[a];
    assert !Hit(s.dir[a], name);
  }

  lemma StraddledMiscounts(s: Store, name: FileName, a: nat, b: nat)
    requires Invariant(s) && Bound(s.dir, name) && name !in s.backing && WellFormed(Unlink(s, name).0)
    requires a < Find(s.dir, name) < b < |s.dir| && Live(s.dir[a]) && s.dir[a].inum == s.dir[b].inum
    ensures !Counted(Unlink(s, name).0)
  {
    var s' := Unlink(s, name).0;
    StoppedHolds(s, name, a);
    var j :| 0 <= j < |s'.dir| && s'.dir[j] == s.dir[a];
    var behind := StoppedCountOf(s, name, a);
  }

  lemma StoppedCountRight(s: Store, name: FileName, j: nat)
    requires Invariant(s) && Bound(s.dir, name) && name !in s.backing
    requires !Straddled(s.dir, Find(s.dir, name))
    requires var s' := Unlink(s, name).0; j < |s'.dir| && Live(s'.dir[j])
    ensures var s' := Unlink(s, name).0;
            var k := s'.dir[j].inum;
            k < |s'.inodes| && s'.inodes[k].nlink == Tally(s'.dir, HasInum(k))
  {
    var a := StoppedEntry(s, name, j);
    var behind := StoppedCountOf(s, name, a);
  }

  /**
    As coded, unlink of a bound name keeps link counts equal to the number of names exactly when
    there is a file of that name, or no inode is named on both sides of the entry.
  */
  lemma UnlinkCountsIff(s: Store, name: FileName)
    requires Invariant(s) && Bound(s.dir, name)
    ensures WellFormed(Unlink(s, name).0)
    ensures Counted(Unlink(s, name).0) <==> name in s.backing || !Straddled(s.dir, Find(s.dir, name))
  {
    UnlinkWellFormed(s, name);
    var i := Find(s.dir, name);
    var s' := Unlink(s, name).0;
    if name in s.backing {
      UniqueIsAlone(s.dir, name);
      UnlinkOnly(s, name);
      UnlinkCounted(s, name);
    } else if a, b :| 0 <= a < i < b < |s.dir| && Live(s.dir[a]) && s.dir[a].inum == s.dir[b].inum {
      StraddledMiscounts(s, name, a, b);
    } else {
      forall j | 0 <= j < |s'.dir| && Live(s'.dir[j])
        ensures s'.inodes[s'.dir[j].inum].nlink == Tally(s'.dir, HasInum(s'.dir[j].inum))
      {
        StoppedCountRight(s, name, j);
      }
    }
  }

  lemma UnlinkMissingAgrees(s: Store, name: FileName)
    requires WellFormed(s) && !Bound(s.dir, name)
    ensures Unlink(s, name) == IntendedUnlink(s, name)
  {
    UnlinkMissing(s, name);
  }

  /**
    When there is no file of that name, as for a second link, the failing call leaves every name
    that stood behind the removed one out of `Directory~`.
  */
  lemma UnlinkAliasHides(s: Store, name: FileName, other: FileName)
    requires WellFormed(s) && Bound(s.dir, name) && name !in s.backing
    ensures var r := Unlink(s, name);
            r.1 == -ENOENT && r.0.tmp == Some(s.dir)
            && (Bound(r.0.dir, other) <==> Find(s.dir, other) < Find(s.dir, name))
  {
    UnlinkFound(s, name);
    var i := Find(s.dir, name);
    var front := s.dir[..i];
    KeptIn(front, name);
    var d := Unlink(s, name).0.dir;
    if Bound(d, other) {
      var e := d[Find(d, other)];
      assert e in d && e in front;
      var j :| 0 <= j < i && s.dir[j] == e;
      assert Hit(s.dir[j], other);
    }
    if Find(s.dir, other) < i {
      var e := s.dir[Find(s.dir, other)];
      assert front[Find(s.dir, other)] == e;
      assert !Hit(e, name);
      assert e in d;
      var j :| 0 <= j < |d| && d[j] == e;
      assert Hit(d[j], other);
    }
  }

  // ---- runs of the code as it is ----

  /** The call is one the code gets right. */
  predicate Honest(s: Store, op: Op)
    requires WellFormed(s)
  {
    match op
    case DoLink(from, _) =>
      Bound(s.dir, from) ==> EndsWithInode(s.dir, s.dir[Find(s.dir, from)].inum)
    case DoUnlink(name) =>
      Bound(s.dir, name) ==>
        s.inodes[s.dir[Find(s.dir, name)].inum].nlink == 1 && s.dir[Find(s.dir, name)].storage == name
    case _ => true
  }

  lemma CodedAgreesIff(s: Store, op: Op)
    requires Invariant(s) && InRange(s.next, op)
    ensures Coded(s, op) == Intended(s, op) <==> Honest(s, op)
  {
    match op
    case DoLink(from, to) =>
      if Bound(s.dir, from) { LinkAgreesIff(s, from, to); }
    case DoUnlink(name) =>
      if Bound(s.dir, name) { UnlinkAgreesIff(s, name); } else { UnlinkMissingAgrees(s, name); }
    case _ =>
  }

  predicate CodedRunnable(s: Store, ops: seq<Op>)
    decreases |ops|
  {
    ops == [] || (WellFormed(s) && InRange(s.next, ops[0]) && CodedRunnable(Coded(s, ops[0]).0, ops[1..]))
  }

  function CodedRun(s: Store, ops: seq<Op>): Store
    requires CodedRunnable(s, ops)
    decreases |ops|
  {
    if ops == [] then s else CodedRun(Coded(s, ops[0]).0, ops[1..])
  }

  // ---- the counter scan at start-up ----

  lemma {:induction false} MaxInumIs(dir: seq<Dentry>, start: counter)
    requires forall i | 0 <= i < |dir| :: dir[i].inum <= INT_MAX
    ensures var m := MaxInum(dir, start);
            && start <= m
            && (forall i | 0 <= i < |dir| :: dir[i].inum <= m)
            && (m == start || exists i :: 0 <= i < |dir| && dir[i].inum == m)
  {
    if dir != [] {
      var start' := if dir[0].inum > start then dir[0].inum else start;
      var rest := dir[1..];
      MaxInumIs(rest, start');
      var m := MaxInum(dir, start);
      assert forall i | 1 <= i < |dir| :: dir[i] == rest[i - 1];
      if m != start' {
        var i :| 0 <= i < |rest| && rest[i].inum == m;
        assert dir[i + 1].inum == m;
      } else if m != start {
        assert dir[0].inum == m;
      }
    }
  }

  /** As coded, the reloaded counter is above every live inode number only when nothing is live. */
  lemma ReloadFreshIff(s: Store)
    requires WellFormed(s)
    ensures Fresh(s.(next := MaxInum(s.dir, 1))) <==> forall i | 0 <= i < |s.dir| :: !Live(s.dir[i])
  {
    var m := MaxInum(s.dir, 1);
    MaxInumIs(s.dir, 1);
    if exists i :: 0 <= i < |s.dir| && Live(s.dir[i]) {
      var i :| 0 <= i < |s.dir| && Live(s.dir[i]);
      var j :| 0 <= j < |s.dir| && s.dir[j].inum == m;
      assert !(s.dir[j].inum < m);
    }
  }

  /** One more than the largest number is above them all, whatever the table. */
  lemma IntendedReloadFresh(s: Store)
    requires WellFormed(s) && MaxInum(s.dir, 1) < INT_MAX
    ensures Fresh(s.(next := MaxInum(s.dir, 1) + 1))
  {
    MaxInumIs(s.dir, 1);
  }

  /** As coded, the first file created after a restart with live files takes the number of one of them. */
  lemma ReloadReuses(s: Store, name: FileName, mode: word, uid: word, gid: word, now: word)
    requires WellFormed(s) && MaxInum(s.dir, 1) < INT_MAX && Regular(mode)
    requires exists i :: 0 <= i < |s.dir| && Live(s.dir[i])
    ensures var s1 := s.(next := MaxInum(s.dir, 1));
            exists i :: 0 <= i < |s.dir| && Live(s.dir[i]) && s.dir[i].inum == s1.next
                        && Mknod(s1, name, mode, uid, gid, now).0.inodes[s.dir[i].inum]
                        == NewStat(mode, uid, gid, now, s1.next)
  {
    var m := MaxInum(s.dir, 1);
    MaxInumIs(s.dir, 1);
    var i :| 0 <= i < |s.dir| && Live(s.dir[i]);
    var j :| 0 <= j < |s.dir| && s.dir[j].inum == m;
    assert Live(s.dir[j]);
  }
}
