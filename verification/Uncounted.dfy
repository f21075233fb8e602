/**
  The code with hard links. As coded a link counts the wrong inode, so no theorem about it can speak of
  link counts; but in everything else, answers included, runs with links are runs of the file system.
*/
module Uncounted {
  import opened Layout
  import opened Store
  import opened Unlinking
  import opened Sessions
  import opened Files
  import opened Refinement
  import opened Divergence
  import opened Contents
  import opened Conformance

  // ---- stores that are the same but for link counts ----

  predicate SameStat(a: Stat, b: Stat) {
    a == b.(nlink := a.nlink)
  }

  predicate SameButCounts(s: Store, t: Store) {
    && s.dir == t.dir && s.tmp == t.tmp && s.backing == t.backing && s.next == t.next
    && |s.inodes| == |t.inodes| && forall k | 0 <= k < |s.inodes| :: SameStat(s.inodes[k], t.inodes[k])
  }

  lemma DropsSame(a: seq<Stat>, b: seq<Stat>, k: nat)
    requires |a| == |b| && forall i | 0 <= i < |a| :: SameStat(a[i], b[i])
    ensures |DropLink(a, k)| == |DropLink(b, k)| == |a|
    ensures forall i | 0 <= i < |a| :: SameStat(DropLink(a, k)[i], DropLink(b, k)[i])
  {
  }

  lemma UnlinksSame(s: Store, t: Store, name: FileName)
    requires WellFormed(s) && WellFormed(t) && SameButCounts(s, t)
    ensures SameButCounts(Unlink(s, name).0, Unlink(t, name).0) && Unlink(s, name).1 == Unlink(t, name).1
  {
    if Bound(s.dir, name) {
      UnlinkFound(s, name);
      UnlinkFound(t, name);
      var i, j := s.dir[Find(s.dir, name)].inum, Again(s.dir, name);
      DropsSame(s.inodes, t.inodes, i);
      if j < |s.dir| {
        DropsSame(DropLink(s.inodes, i), DropLink(t.inodes, i), s.dir[j].inum);
      }
    } else {
      UnlinkMissing(s, name);
      UnlinkMissing(t, name);
    }
  }

  lemma WriteSame(s: Store, t: Store, op: Op)
    requires WellFormed(s) && WellFormed(t) && SameButCounts(s, t) && InRange(s.next, op)
    requires op.DoWrite?
    ensures SameButCounts(Coded(s, op).0, Coded(t, op).0) && Coded(s, op).1 == Coded(t, op).1
  {
  }

  lemma TruncateSame(s: Store, t: Store, op: Op)
    requires WellFormed(s) && WellFormed(t) && SameButCounts(s, t) && InRange(s.next, op)
    requires op.DoTruncate?
    ensures SameButCounts(Coded(s, op).0, Coded(t, op).0) && Coded(s, op).1 == Coded(t, op).1
  {
  }

  lemma MetaSame(s: Store, t: Store, op: Op)
    requires WellFormed(s) && WellFormed(t) && SameButCounts(s, t) && InRange(s.next, op)
    requires op.DoChmod? || op.DoUtimens?
    ensures SameButCounts(Coded(s, op).0, Coded(t, op).0) && Coded(s, op).1 == Coded(t, op).1
  {
  }

  lemma AccessSame(s: Store, t: Store, op: Op)
    requires WellFormed(s) && WellFormed(t) && SameButCounts(s, t) && InRange(s.next, op)
    requires op.DoOpen? || op.DoRead?
    ensures SameButCounts(Coded(s, op).0, Coded(t, op).0) && Coded(s, op).1 == Coded(t, op).1
  {
  }

  lemma EntriesSame(s: Store, t: Store, op: Op)
    requires WellFormed(s) && WellFormed(t) && SameButCounts(s, t) && InRange(s.next, op)
    requires op.DoMknod? || op.DoLink? || op.DoRename?
    ensures SameButCounts(Coded(s, op).0, Coded(t, op).0) && Coded(s, op).1 == Coded(t, op).1
  {
  }

  /** No call of the code looks at link counts. */
  lemma CodedSame(s: Store, t: Store, op: Op)
    requires WellFormed(s) && WellFormed(t) && SameButCounts(s, t) && InRange(s.next, op)
    ensures SameButCounts(Coded(s, op).0, Coded(t, op).0) && Coded(s, op).1 == Coded(t, op).1
  {
    if op.DoUnlink? {
      UnlinksSame(s, t, op.name);
    } else if op.DoWrite? {
      WriteSame(s, t, op);
    } else if op.DoTruncate? {
      TruncateSame(s, t, op);
    } else if op.DoChmod? || op.DoUtimens? {
      MetaSame(s, t, op);
    } else if op.DoMknod? || op.DoLink? || op.DoRename? {
      EntriesSame(s, t, op);
    } else {
      AccessSame(s, t, op);
    }
  }

  lemma LinksSame(s: Store, from: FileName, to: FileName)
    requires WellFormed(s)
    ensures SameButCounts(Link(s, from, to).0, IntendedLink(s, from, to).0)
    ensures Link(s, from, to).1 == IntendedLink(s, from, to).1
  {
  }

  lemma SameChain(s: Store, t: Store, u: Store)
    requires SameButCounts(s, t) && SameButCounts(t, u)
    ensures SameButCounts(s, u)
  {
  }

  // ---- the file system but for link counts ----

  ghost predicate RefinesButCounts(s: Store, a: Fs) {
    exists t :: SameButCounts(s, t) && Refines(t, a)
  }

  /** The caller met its obligation, and an unlink finds a file called like the name that stores no other entry. */
  predicate Tidy(s: Store, op: Op) {
    Admissible(s, op)
    && (op.DoUnlink? && Bound(s.dir, op.name) ==> op.name in s.backing && !StoredUnder(s.dir, op.name))
  }

  ghost predicate ConformsButCounts(s: Store, a: Fs, op: Op)
    requires WellFormed(s) && InRange(s.next, op) && Closed(a) && InRange(a.next, op)
  {
    RefinesButCounts(Coded(s, op).0, Next(a, op).0) && Coded(s, op).1 == Next(a, op).1
  }

  lemma TidyConforms(s: Store, t: Store, a: Fs, op: Op)
    requires SameButCounts(s, t) && WellFormed(s) && Refines(t, a) && InRange(s.next, op) && Tidy(s, op)
    ensures Closed(a) && ConformsButCounts(s, a, op)
  {
    CodedSame(s, t, op);
    var s', t' := Coded(s, op).0, Coded(t, op).0;
    if op.DoLink? {
      CallRefines(t, a, op);
      LinksSame(t, op.from, op.to);
      SameChain(s', t', Intended(t, op).0);
    } else {
      CallConformsIff(t, a, op);
    }
  }

  lemma SameCore(s: Store, t: Store)
    requires SameButCounts(s, t)
    ensures Core(s) <==> Core(t)
  {
    SameTables(s, t);
  }

  lemma ConformsIsTidy(s: Store, t: Store, a: Fs, op: Op)
    requires SameButCounts(s, t) && Core(s) && Refines(t, a) && InRange(s.next, op) && Closed(a)
    requires ConformsButCounts(s, a, op)
    ensures Tidy(s, op)
  {
    var u :| SameButCounts(Coded(s, op).0, u) && Refines(u, Next(a, op).0);
    SameCore(Coded(s, op).0, u);
    CodedCore(s, op);
    if op.DoUnlink? && Bound(s.dir, op.name) && op.name !in s.backing {
      UnlinkStopped(s, a, op.name);
    }
  }

  /** A call of the code is, but for link counts, the file system's call exactly when it is a tidy one. */
  lemma CallConformsButCountsIff(s: Store, a: Fs, op: Op)
    requires RefinesButCounts(s, a) && InRange(s.next, op)
    ensures Core(s) && Closed(a) && a.next == s.next
    ensures ConformsButCounts(s, a, op) <==> Tidy(s, op)
  {
    var t :| SameButCounts(s, t) && Refines(t, a);
    SameCore(s, t);
    MatchClosed(t, a);
    if Tidy(s, op) {
      TidyConforms(s, t, a, op);
    }
    if ConformsButCounts(s, a, op) {
      ConformsIsTidy(s, t, a, op);
    }
  }

  // ---- runs ----

  ghost predicate ConformsButCountsThroughout(s: Store, a: Fs, ops: seq<Op>)
    requires CodedRunnable(s, ops)
    decreases |ops|
  {
    ops == [] ||
    (Closed(a) && InRange(a.next, ops[0]) && ConformsButCounts(s, a, ops[0])
     && ConformsButCountsThroughout(Coded(s, ops[0]).0, Next(a, ops[0]).0, ops[1..]))
  }

  predicate TidyThroughout(s: Store, ops: seq<Op>)
    requires CodedRunnable(s, ops)
    decreases |ops|
  {
    ops == [] || (Tidy(s, ops[0]) && TidyThroughout(Coded(s, ops[0]).0, ops[1..]))
  }

  lemma {:induction false} RunConformsButCountsIff(s: Store, a: Fs, ops: seq<Op>)
    requires RefinesButCounts(s, a) && CodedRunnable(s, ops)
    ensures ConformsButCountsThroughout(s, a, ops) <==> TidyThroughout(s, ops)
    decreases |ops|
  {
    if ops != [] {
      CallConformsButCountsIff(s, a, ops[0]);
      if Tidy(s, ops[0]) {
        RunConformsButCountsIff(Coded(s, ops[0]).0, Next(a, ops[0]).0, ops[1..]);
      }
    }
  }

  /** And then the last store is, but for link counts, the file system's last state, and all answers are its answers. */
  lemma {:induction false} TidyRunRefines(s: Store, a: Fs, ops: seq<Op>)
    requires RefinesButCounts(s, a) && CodedRunnable(s, ops) && TidyThroughout(s, ops)
    ensures AbsRunnable(a, ops) && RefinesButCounts(CodedRun(s, ops), AbsRun(a, ops))
    ensures CodedReplies(s, ops) == AbsReplies(a, ops)
    decreases |ops|
  {
    if ops != [] {
      CallConformsButCountsIff(s, a, ops[0]);
      TidyRunRefines(Coded(s, ops[0]).0, Next(a, ops[0]).0, ops[1..]);
    }
  }

  lemma TidySessionRefines(ops: seq<Op>)
    requires CodedRunnable(FRESH, ops) && TidyThroughout(FRESH, ops)
    ensures AbsRunnable(EMPTY, ops) && RefinesButCounts(CodedRun(FRESH, ops), AbsRun(EMPTY, ops))
    ensures CodedReplies(FRESH, ops) == AbsReplies(EMPTY, ops)
  {
    FreshRefines();
    assert SameButCounts(FRESH, FRESH);
    TidyRunRefines(FRESH, EMPTY, ops);
  }
}
