/**
  Whether occupied slots stay below the inode counter, so that no creation lands on one: for each call
  of the code exactly when, and over runs on which names may clash, be bound twice or share storage.
*/
module Room {
  import opened Layout
  import opened Store
  import opened Unlinking
  import opened Slots
  import opened Sessions
  import opened Divergence
  import opened Numbers

  // ---- what unlink packs ----

  /** How many records unlink has dealt with when it ends: all, or those before the record it stops at. */
  function Cut(s: Store, name: Name): (p: nat)
    ensures p <= |s.dir|
  {
    if !Bound(s.dir, name) then |s.dir|
    else if name !in s.backing then Find(s.dir, name)
    else Again(s.dir, name)
  }

  lemma UnlinkCut(s: Store, name: FileName)
    requires WellFormed(s)
    ensures Unlink(s, name).0.dir == Compacted(Kept(s.dir[..Cut(s, name)], name))
    ensures Unlink(s, name).0.next == s.next
  {
    assert s.dir[..|s.dir|] == s.dir;
    if Bound(s.dir, name) {
      UnlinkFound(s, name);
    } else {
      UnlinkMissing(s, name);
    }
  }

  lemma KeptLive(dir: seq<Dentry>, name: FileName, p: nat)
    requires NamesMatchInums(dir) && p <= |dir|
    ensures forall i | 0 <= i < |Kept(dir[..p], name)| :: Live(Kept(dir[..p], name)[i])
  {
    KeptCount(dir[..p], name);
  }

  /** Whatever it stops at, unlink of a name that is there packs fewer records than there were live entries. */
  lemma KeptFewer(dir: seq<Dentry>, name: FileName, p: nat)
    requires NamesMatchInums(dir) && p <= |dir| && Bound(dir, name)
    ensures |Kept(dir[..p], name)| < Tally(dir, LIVE)
  {
    assert dir == dir[..p] + dir[p..];
    KeptAppend(dir[..p], dir[p..], name);
    KeptCount(dir, name);
    TallyNone(dir, Called(name));
    assert Called(name)(dir[Find(dir, name)]);
  }

  // ---- one call ----

  /** The new table ends below the counter. */
  predicate HasRoom(s: Store, op: Op) {
    match op
    case DoLink(from, _) => Bound(s.dir, from) ==> Tally(s.dir, LIVE) < s.next
    case DoUnlink(name) =>
      var kept := Kept(s.dir[..Cut(s, name)], name);
      kept == [] || |kept| + 2 <= s.next
    case _ => true
  }

  /** A call of the code keeps occupied slots below the counter exactly when its table has room. */
  lemma SlotSafeIff(s: Store, op: Op)
    requires WellFormed(s) && SlotSafe(s.dir, s.next) && InRange(s.next, op)
    ensures SlotSafe(Coded(s, op).0.dir, Coded(s, op).0.next) <==> HasRoom(s, op)
  {
    if op.DoUnlink? {
      UnlinkCut(s, op.name);
      KeptLive(s.dir, op.name, Cut(s, op.name));
      CompactedSlotIff(Kept(s.dir[..Cut(s, op.name)], op.name), s.next);
    } else if op.DoLink? {
      if Bound(s.dir, op.from) {
        LinkSlotIff(s.dir, Find(s.dir, op.from), op.to, s.next);
      }
    }
  }

  /** Fewer live entries than the counter are room enough, for an unlink if its name is there. */
  predicate Few(s: Store, op: Op) {
    match op
    case DoLink(from, _) => Bound(s.dir, from) ==> Tally(s.dir, LIVE) < s.next
    case DoUnlink(name) => Bound(s.dir, name) && Tally(s.dir, LIVE) < s.next
    case _ => true
  }

  lemma FewIsRoom(s: Store, op: Op)
    requires WellFormed(s) && Few(s, op)
    ensures HasRoom(s, op)
  {
    if op.DoUnlink? { KeptFewer(s.dir, op.name, Cut(s, op.name)); }
  }

  // ---- runs ----

  predicate SlotSafeThroughout(s: Store, ops: seq<Op>)
    requires CodedRunnable(s, ops)
    decreases |ops|
  {
    SlotSafe(s.dir, s.next) && (ops == [] || SlotSafeThroughout(Coded(s, ops[0]).0, ops[1..]))
  }

  predicate RoomThroughout(s: Store, ops: seq<Op>)
    requires CodedRunnable(s, ops)
    decreases |ops|
  {
    ops == [] || (HasRoom(s, ops[0]) && RoomThroughout(Coded(s, ops[0]).0, ops[1..]))
  }

  predicate FewThroughout(s: Store, ops: seq<Op>)
    requires CodedRunnable(s, ops)
    decreases |ops|
  {
    ops == [] || (Few(s, ops[0]) && FewThroughout(Coded(s, ops[0]).0, ops[1..]))
  }

  /** Over a run of the code every occupied slot stays below the counter exactly when every table had room. */
  lemma {:induction false} RunSlotSafeIff(s: Store, ops: seq<Op>)
    requires WellFormed(s) && SlotSafe(s.dir, s.next) && CodedRunnable(s, ops)
    ensures SlotSafeThroughout(s, ops) <==> RoomThroughout(s, ops)
    decreases |ops|
  {
    if ops != [] {
      SlotSafeIff(s, ops[0]);
      CodedWellFormed(s, ops[0]);
      if HasRoom(s, ops[0]) {
        RunSlotSafeIff(Coded(s, ops[0]).0, ops[1..]);
      }
    }
  }

  /**
    So it does over every mix of calls, whatever their names, in which links of a name that is there and
    unlinks are made, of names that are there, while fewer entries are live than the counter.
  */
  lemma {:induction false} RunFewSafe(s: Store, ops: seq<Op>)
    requires WellFormed(s) && SlotSafe(s.dir, s.next) && CodedRunnable(s, ops) && FewThroughout(s, ops)
    ensures SlotSafeThroughout(s, ops)
    decreases |ops|
  {
    if ops != [] {
      FewIsRoom(s, ops[0]);
      SlotSafeIff(s, ops[0]);
      CodedWellFormed(s, ops[0]);
      RunFewSafe(Coded(s, ops[0]).0, ops[1..]);
    }
  }

  lemma SessionSlotSafe(ops: seq<Op>)
    requires CodedRunnable(FRESH, ops)
    ensures SlotSafeThroughout(FRESH, ops) <==> RoomThroughout(FRESH, ops)
    ensures FewThroughout(FRESH, ops) ==> SlotSafeThroughout(FRESH, ops)
  {
    RunSlotSafeIff(FRESH, ops);
    if FewThroughout(FRESH, ops) { RunFewSafe(FRESH, ops); }
  }
}
