/**
  Where entries live in the directory table. `mknod` writes at the slot numbered by the inode
  counter, `link` takes the first hole, `unlink` packs the table from slot 2: whether the three
  can share one table is a matter of counting.
*/
module Slots {
  import opened Layout
  import opened Table
  import opened Store
  import opened Unlinking

  // ---- counting records ----

  /** How many records satisfy p. */
  function Tally(dir: seq<Dentry>, p: Dentry -> bool): (n: nat)
    ensures n <= |dir|
  {
    if dir == [] then 0
    else Tally(dir[..|dir| - 1], p) + if p(dir[|dir| - 1]) then 1 else 0
  }

  const LIVE: Dentry -> bool := (e: Dentry) => e.inum != 0

  function HasInum(k: nat): Dentry -> bool {
    (e: Dentry) => e.inum == k
  }

  function Bit(b: bool): nat {
    if b then 1 else 0
  }

  lemma {:induction false} TallyAppend(a: seq<Dentry>, b: seq<Dentry>, p: Dentry -> bool)
    ensures Tally(a + b, p) == Tally(a, p) + Tally(b, p)
    decreases |b|
  {
    if b == [] {
      assert a + b == a;
    } else {
      assert (a + b)[..|a + b| - 1] == a + b[..|b| - 1];
      TallyAppend(a, b[..|b| - 1], p);
    }
  }

  lemma {:induction false} TallyNone(dir: seq<Dentry>, p: Dentry -> bool)
    ensures Tally(dir, p) == 0 <==> forall i | 0 <= i < |dir| :: !p(dir[i])
  {
    if dir != [] {
      TallyNone(dir[..|dir| - 1], p);
      assert forall i | 0 <= i < |dir| - 1 :: dir[..|dir| - 1][i] == dir[i];
    }
  }

  lemma {:induction false} TallyAll(dir: seq<Dentry>, p: Dentry -> bool)
    ensures Tally(dir, p) == |dir| <==> forall i | 0 <= i < |dir| :: p(dir[i])
  {
    if dir != [] {
      TallyAll(dir[..|dir| - 1], p);
      assert forall i | 0 <= i < |dir| - 1 :: dir[..|dir| - 1][i] == dir[i];
    }
  }

  lemma TallySplit(dir: seq<Dentry>, i: nat, p: Dentry -> bool)
    requires i <= |dir|
    ensures Tally(dir, p) == Tally(dir[..i], p) + Tally(dir[i..], p)
  {
    assert dir == dir[..i] + dir[i..];
    TallyAppend(dir[..i], dir[i..], p);
  }

  /** Overwriting, or appending after a gap of free records, counts what came and what went. */
  lemma TallyPut(dir: seq<Dentry>, i: nat, e: Dentry, p: Dentry -> bool)
    requires !p(FREE)
    ensures Tally(Put(dir, i, e, FREE), p) == Tally(dir, p) + Bit(p(e)) - Bit(i < |dir| && p(dir[i]))
  {
    if i < |dir| {
      TallyReplace(dir, i, e, p);
    } else {
      TallyExtend(dir, i, e, p);
    }
  }

  lemma TallyReplace(dir: seq<Dentry>, i: nat, e: Dentry, p: Dentry -> bool)
    requires i < |dir|
    ensures Tally(dir[i := e], p) == Tally(dir, p) + Bit(p(e)) - Bit(p(dir[i]))
  {
    TallyMiddle(dir[..i], dir[i], dir[i + 1..], p);
    TallyMiddle(dir[..i], e, dir[i + 1..], p);
    assert dir == dir[..i] + [dir[i]] + dir[i + 1..];
    assert dir[i := e] == dir[..i] + [e] + dir[i + 1..];
  }

  /** Free records in a row. */
  function Gap(n: nat): (g: seq<Dentry>)
    ensures |g| == n && forall i | 0 <= i < n :: g[i] == FREE
  {
    seq(n, _ => FREE)
  }

  lemma PutBeyond(dir: seq<Dentry>, i: nat, e: Dentry)
    requires |dir| <= i
    ensures Put(dir, i, e, FREE) == (dir + Gap(i - |dir|)) + [e]
  {
    var a, b := Put(dir, i, e, FREE), (dir + Gap(i - |dir|)) + [e];
    assert |a| == |b| && forall k | 0 <= k < |a| :: a[k] == b[k];
  }

  lemma TallyExtend(dir: seq<Dentry>, i: nat, e: Dentry, p: Dentry -> bool)
    requires |dir| <= i && !p(FREE)
    ensures Tally(Put(dir, i, e, FREE), p) == Tally(dir, p) + Bit(p(e))
  {
    var gap := Gap(i - |dir|);
    PutBeyond(dir, i, e);
    TallyNone(gap, p);
    TallyAppend(dir, gap, p);
    TallySnoc(dir + gap, e, p);
  }

  lemma TallySnoc(a: seq<Dentry>, e: Dentry, p: Dentry -> bool)
    ensures Tally(a + [e], p) == Tally(a, p) + Bit(p(e))
  {
    assert (a + [e])[..|a|] == a;
  }

  lemma TallyMiddle(a: seq<Dentry>, e: Dentry, b: seq<Dentry>, p: Dentry -> bool)
    ensures Tally(a + [e] + b, p) == Tally(a, p) + Bit(p(e)) + Tally(b, p)
  {
    TallyAppend(a + [e], b, p);
    TallySnoc(a, e, p);
  }

  /** Compaction drops the records it does not keep, and p counts only records with a name. */
  lemma {:induction false} TallyKept(dir: seq<Dentry>, name: Name, p: Dentry -> bool)
    requires forall e: Dentry | e.name == [] && e in dir :: !p(e)
    ensures Tally(Kept(dir, name), p) + Tally(dir, (e: Dentry) => e.name == name && p(e)) == Tally(dir, p)
  {
    if dir != [] {
      var init, last := dir[..|dir| - 1], dir[|dir| - 1];
      TallyKept(init, name, p);
      if Keeps(last, name) {
        TallyAppend(Kept(init, name), [last], p);
      } else {
        assert Kept(init, name) + [] == Kept(init, name);
      }
    }
  }

  lemma TallyCompacted(kept: seq<Dentry>, p: Dentry -> bool)
    requires !p(FREE)
    ensures Tally(Compacted(kept), p) == Tally(kept, p)
  {
    if kept != [] {
      TallyAppend([FREE, FREE], kept, p);
      TallyNone([FREE, FREE], p);
    }
  }

  /** Only position i can satisfy p. */
  lemma TallyOne(dir: seq<Dentry>, p: Dentry -> bool, i: nat)
    requires i < |dir|
    requires forall j | 0 <= j < |dir| && j != i :: !p(dir[j])
    ensures Tally(dir, p) == Bit(p(dir[i]))
  {
    TallySplit(dir, i, p);
    TallySplit(dir[i..], 1, p);
    TallyNone(dir[..i], p);
    TallyNone(dir[i..][1..], p);
    assert dir[i..][..1] == [dir[i]];
  }

  // ---- slot safety ----

  /** Every occupied slot is below the counter, so that `mknod` writes on none of them. */
  predicate SlotSafe(dir: seq<Dentry>, next: nat) {
    forall i | 0 <= i < |dir| && Live(dir[i]) :: i < next
  }

  lemma UnusedIsDead(dir: seq<Dentry>)
    requires NamesMatchInums(dir)
    ensures forall i | 0 <= i < |dir| :: Unused(dir[i]) <==> !Live(dir[i])
  {
  }

  /** Pigeonhole: below the counter there is room for that many entries; with that many, no hole. */
  lemma Pigeonhole(dir: seq<Dentry>, next: nat)
    requires SlotSafe(dir, next)
    ensures Tally(dir, LIVE) <= next
    ensures Tally(dir, LIVE) == next ==> next <= |dir| && forall i | 0 <= i < next :: Live(dir[i])
  {
    if next < |dir| {
      TallyTail(dir, next, LIVE);
      AllInFront(dir, next);
    } else if Tally(dir, LIVE) == next {
      TallyAll(dir, LIVE);
    }
  }

  /** Nothing counts from position n on. */
  lemma TallyTail(dir: seq<Dentry>, n: nat, p: Dentry -> bool)
    requires n <= |dir|
    requires forall i | n <= i < |dir| :: !p(dir[i])
    ensures Tally(dir, p) == Tally(dir[..n], p)
  {
    var rest := dir[n..];
    forall i | 0 <= i < |rest| ensures !p(rest[i]) { assert rest[i] == dir[n + i]; }
    TallySplit(dir, n, p);
    TallyNone(rest, p);
  }

  lemma AllInFront(dir: seq<Dentry>, n: nat)
    requires n <= |dir|
    ensures Tally(dir[..n], LIVE) == n ==> forall i | 0 <= i < n :: Live(dir[i])
  {
    TallyAll(dir[..n], LIVE);
    if Tally(dir[..n], LIVE) == n {
      forall i | 0 <= i < n ensures Live(dir[i]) { assert LIVE(dir[..n][i]); }
    }
  }

  /** The slot `link` takes is no higher than the number of live entries. */
  lemma FreeSlotBound(dir: seq<Dentry>)
    requires NamesMatchInums(dir)
    ensures FreeSlot(dir) <= Tally(dir, LIVE)
  {
    var f := FreeSlot(dir);
    UnusedIsDead(dir);
    TallySplit(dir, f, LIVE);
    TallyAll(dir[..f], LIVE);
    assert forall i | 0 <= i < f :: dir[..f][i] == dir[i];
  }

  /** `link` keeps slot safety exactly when fewer entries are live than inode numbers were counted. */
  lemma LinkSlotIff(dir: seq<Dentry>, i: nat, to: FileName, next: nat)
    requires NamesMatchInums(dir) && i < |dir| && Live(dir[i])
    requires SlotSafe(dir, next)
    ensures SlotSafe(LinkedDir(dir, i, to), next) <==> Tally(dir, LIVE) < next
    ensures Tally(LinkedDir(dir, i, to), LIVE) == Tally(dir, LIVE) + 1
  {
    var f := FreeSlot(dir);
    var dir' := LinkedDir(dir, i, to);
    UnusedIsDead(dir);
    FreeSlotBound(dir);
    Pigeonhole(dir, next);
    TallyPut(dir, f, Dentry(to, dir[i].storage, dir[i].inum), LIVE);
    assert f < |dir'| && Live(dir'[f]);
    assert f < |dir| ==> !Live(dir[f]);
  }

  /** Compaction is safe exactly when what remains, placed from slot 2, ends below the counter. */
  lemma CompactedSlotIff(kept: seq<Dentry>, next: nat)
    requires forall i | 0 <= i < |kept| :: Live(kept[i])
    ensures SlotSafe(Compacted(kept), next) <==> kept == [] || |kept| + 2 <= next
  {
    var d := Compacted(kept);
    if kept != [] {
      assert d[|d| - 1] == kept[|kept| - 1];
    }
  }

  /** The live entries of one name. */
  function Called(name: Name): Dentry -> bool {
    (e: Dentry) => Hit(e, name)
  }

  /** All that compaction keeps is live: as many records as live entries, less those of the name. */
  lemma KeptCount(dir: seq<Dentry>, name: FileName)
    requires NamesMatchInums(dir)
    ensures forall i | 0 <= i < |Kept(dir, name)| :: Live(Kept(dir, name)[i])
    ensures |Kept(dir, name)| == Tally(dir, LIVE) - Tally(dir, Called(name))
  {
    var kept := Kept(dir, name);
    KeptFrom(dir, name);
    forall i | 0 <= i < |kept| ensures Live(kept[i]) {
      assert kept[i] in dir;
    }
    TallyAll(kept, LIVE);
    TallyKept(dir, name, LIVE);
    TallySame(dir, (e: Dentry) => e.name == name && LIVE(e), Called(name));
  }

  lemma {:induction false} TallySame(dir: seq<Dentry>, p: Dentry -> bool, q: Dentry -> bool)
    requires forall i | 0 <= i < |dir| :: p(dir[i]) <==> q(dir[i])
    ensures Tally(dir, p) == Tally(dir, q)
  {
    if dir != [] {
      TallySame(dir[..|dir| - 1], p, q);
    }
  }

  /** A name with at most one entry is counted once or not at all. */
  lemma AloneCount(dir: seq<Dentry>, name: Name)
    requires Alone(dir, name)
    ensures Tally(dir, Called(name)) == Bit(Find(dir, name) < |dir|)
  {
    var i := Find(dir, name);
    if i < |dir| {
      forall j | 0 <= j < |dir| && j != i ensures !Called(name)(dir[j]) { assert !Hit(dir[j], name); }
      TallyOne(dir, Called(name), i);
    } else {
      TallyNone(dir, Called(name));
    }
  }
}
