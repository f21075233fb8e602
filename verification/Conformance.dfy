/**
  The code as it is against the abstract file system: exactly which calls, and which runs, do to the
  store and answer what the file system does and answers.
*/
module Conformance {
  import opened Layout
  import opened Store
  import opened Unlinking
  import opened Sessions
  import opened Upkeep
  import opened Files
  import opened Refinement
  import opened Divergence
  import opened Contents
  import opened Numbers

  /**
    The caller met its obligation; a link counts the right inode; and an unlink finds a file called
    like the name that no other entry keeps its bytes in.
  */
  predicate Sound(s: Store, op: Op) {
    Admissible(s, op) &&
    match op
    case DoLink(from, _) =>
      Bound(s.dir, from) ==> EndsWithInode(s.dir, s.dir[Find(s.dir, from)].inum)
    case DoUnlink(name) =>
      Bound(s.dir, name) ==> name in s.backing && !StoredUnder(s.dir, name)
    case _ => true
  }

  /** The call leads to the file system's next state, with its answer. */
  ghost predicate Conforms(s: Store, a: Fs, op: Op)
    requires WellFormed(s) && InRange(s.next, op) && Closed(a) && InRange(a.next, op)
  {
    Refines(Coded(s, op).0, Next(a, op).0) && Coded(s, op).1 == Next(a, op).1
  }

  lemma MatchSameBytes(s: Store, t: Store, a: Fs)
    requires Matches(s, a) && t.dir == s.dir && t.inodes == s.inodes && t.next == s.next
    requires forall e | Member(s.dir, e) :: e.storage in t.backing && t.backing[e.storage] == s.backing[e.storage]
    ensures Matches(t, a)
  {
    forall e | Member(t.dir, e) ensures Bind(e, t, a) {
      assert Bind(e, s, a);
    }
  }

  /** On a name with a file, the code and the intended step differ in no more than which file is gone. */
  lemma UnlinkTables(s: Store, name: FileName)
    requires Invariant(s) && Bound(s.dir, name) && name in s.backing
    ensures var t, u := Unlink(s, name), IntendedUnlink(s, name);
            && t.0 == u.0.(backing := s.backing - {name}) && t.1 == u.1
            && forall n | n in u.0.backing :: n in s.backing && u.0.backing[n] == s.backing[n]
  {
    UniqueIsAlone(s.dir, name);
    UnlinkOnly(s, name);
  }

  lemma StoredMembers(s: Store, e: Dentry)
    requires Stored(s) && Member(s.dir, e)
    ensures e.storage in s.backing
  {
    var i :| 0 <= i < |s.dir| && s.dir[i] == e;
  }

  /** An unlink that finds its name's file, with no other entry stored there. */
  lemma UnlinkConforms(s: Store, a: Fs, name: FileName)
    requires Refines(s, a) && Sound(s, DoUnlink(name)) && Bound(s.dir, name)
    ensures Closed(a) && Conforms(s, a, DoUnlink(name))
  {
    var op := DoUnlink(name);
    CallRefines(s, a, op);
    UnlinkTables(s, name);
    UnlinkCodedCore(s, name);
    UnlinkCountsIff(s, name);
    var t, u := Unlink(s, name).0, IntendedUnlink(s, name).0;
    forall e | Member(u.dir, e) ensures e.storage in t.backing && t.backing[e.storage] == u.backing[e.storage] {
      StoredMembers(t, e);
      StoredMembers(u, e);
    }
    MatchSameBytes(u, t, Next(a, op).0);
  }

  lemma UnlinkMissingConforms(s: Store, a: Fs, name: FileName)
    requires Refines(s, a) && Closed(a) && !Bound(s.dir, name)
    ensures Conforms(s, a, DoUnlink(name)) <==> Sound(s, DoUnlink(name))
  {
    UnlinkMissingAgrees(s, name);
    InvariantKeptIff(s, DoUnlink(name));
    if Admissible(s, DoUnlink(name)) { CallRefines(s, a, DoUnlink(name)); }
  }

  /** Without a file of the name the answer is ENOENT, which the file system does not give. */
  lemma UnlinkStopped(s: Store, a: Fs, name: FileName)
    requires WellFormed(s) && Closed(a) && Bound(s.dir, name) && name !in s.backing
    ensures Coded(s, DoUnlink(name)).1 != Next(a, DoUnlink(name)).1
  {
    UnlinkFound(s, name);
    assert Next(a, DoUnlink(name)).1.rc == 0;
  }

  lemma UnlinkConformsIff(s: Store, a: Fs, name: FileName)
    requires Refines(s, a) && Closed(a)
    ensures Conforms(s, a, DoUnlink(name)) <==> Sound(s, DoUnlink(name))
  {
    if !Bound(s.dir, name) {
      UnlinkMissingConforms(s, a, name);
    } else if name !in s.backing {
      UnlinkStopped(s, a, name);
    } else if Sound(s, DoUnlink(name)) {
      UnlinkConforms(s, a, name);
    } else {
      UnlinkCodedCore(s, name);
    }
  }

  lemma LinkConformsIff(s: Store, a: Fs, op: Op)
    requires Refines(s, a) && Closed(a) && op.DoLink?
    ensures Conforms(s, a, op) <==> Sound(s, op)
  {
    CodedCore(s, op);
    if Admissible(s, op) {
      CallRefines(s, a, op);
      if Bound(s.dir, op.from) {
        LinkAgreesIff(s, op.from, op.to);
        LinkCountsIff(s, op.from, op.to);
      }
    }
  }

  /** A call of the code is the file system's call exactly when it is a sound one. */
  lemma CallConformsIff(s: Store, a: Fs, op: Op)
    requires Refines(s, a) && InRange(s.next, op)
    ensures Closed(a)
    ensures Conforms(s, a, op) <==> Sound(s, op)
  {
    MatchClosed(s, a);
    if op.DoUnlink? {
      UnlinkConformsIff(s, a, op.name);
    } else if op.DoLink? {
      LinkConformsIff(s, a, op);
    } else {
      InvariantKeptIff(s, op);
      if Admissible(s, op) { CallRefines(s, a, op); }
    }
  }

  // ---- runs of the code ----

  /** Every call of the run leads from a store of the file system to a store of its next state, with its answer. */
  ghost predicate ConformsThroughout(s: Store, a: Fs, ops: seq<Op>)
    requires CodedRunnable(s, ops)
    decreases |ops|
  {
    ops == [] ||
    (Closed(a) && InRange(a.next, ops[0]) && Conforms(s, a, ops[0])
     && ConformsThroughout(Coded(s, ops[0]).0, Next(a, ops[0]).0, ops[1..]))
  }

  predicate SoundThroughout(s: Store, ops: seq<Op>)
    requires CodedRunnable(s, ops)
    decreases |ops|
  {
    ops == [] || (Sound(s, ops[0]) && SoundThroughout(Coded(s, ops[0]).0, ops[1..]))
  }

  /** A run of the code is, step by step, a run of the file system exactly when each of its calls is a sound one. */
  lemma {:induction false} RunConformsIff(s: Store, a: Fs, ops: seq<Op>)
    requires Refines(s, a) && CodedRunnable(s, ops)
    ensures ConformsThroughout(s, a, ops) <==> SoundThroughout(s, ops)
    decreases |ops|
  {
    if ops != [] {
      CallConformsIff(s, a, ops[0]);
      if Sound(s, ops[0]) {
        RunConformsIff(Coded(s, ops[0]).0, Next(a, ops[0]).0, ops[1..]);
      }
    }
  }

  function CodedReplies(s: Store, ops: seq<Op>): seq<Reply>
    requires CodedRunnable(s, ops)
    decreases |ops|
  {
    if ops == [] then [] else [Coded(s, ops[0]).1] + CodedReplies(Coded(s, ops[0]).0, ops[1..])
  }

  /** And then its last store refines the file system's last state, and all replies are the same. */
  lemma {:induction false} CodedRunRefines(s: Store, a: Fs, ops: seq<Op>)
    requires Refines(s, a) && CodedRunnable(s, ops) && SoundThroughout(s, ops)
    ensures AbsRunnable(a, ops) && Refines(CodedRun(s, ops), AbsRun(a, ops))
    ensures CodedReplies(s, ops) == AbsReplies(a, ops)
    decreases |ops|
  {
    if ops != [] {
      CallConformsIff(s, a, ops[0]);
      CodedRunRefines(Coded(s, ops[0]).0, Next(a, ops[0]).0, ops[1..]);
    }
  }

  lemma CodedSessionRefines(ops: seq<Op>)
    requires CodedRunnable(FRESH, ops) && SoundThroughout(FRESH, ops)
    ensures AbsRunnable(EMPTY, ops) && Refines(CodedRun(FRESH, ops), AbsRun(EMPTY, ops))
    ensures CodedReplies(FRESH, ops) == AbsReplies(EMPTY, ops)
  {
    FreshRefines();
    CodedRunRefines(FRESH, EMPTY, ops);
  }

  // ---- runs on which the code and its intended form agree ----

  predicate Careful(s: Store, ops: seq<Op>)
    requires CodedRunnable(s, ops)
    decreases |ops|
  {
    ops == [] || (Admissible(s, ops[0]) && Honest(s, ops[0]) && Careful(Coded(s, ops[0]).0, ops[1..]))
  }

  /**
    On a careful run the code and its intended form go through the same stores and give the same
    answers, and the obligations of the intended form are met.
  */
  lemma {:induction false} CarefulRunAgrees(s: Store, ops: seq<Op>)
    requires Invariant(s) && CodedRunnable(s, ops) && Careful(s, ops)
    ensures Runnable(s, ops) && Obligations(s, ops)
    ensures Run(s, ops) == CodedRun(s, ops) && Invariant(CodedRun(s, ops))
    ensures Replies(s, ops) == CodedReplies(s, ops)
    decreases |ops|
  {
    if ops != [] {
      CodedAgreesIff(s, ops[0]);
      InvariantKeptIff(s, ops[0]);
      CarefulRunAgrees(Coded(s, ops[0]).0, ops[1..]);
    }
  }

  /** An admitted call on which the two agree is a sound one. */
  lemma HonestIsSound(s: Store, op: Op)
    requires Invariant(s) && InRange(s.next, op) && Admissible(s, op) && Honest(s, op)
    ensures Sound(s, op)
  {
    if op.DoUnlink? && Bound(s.dir, op.name) {
      InvariantKeptIff(s, op);
      CodedAgreesIff(s, op);
      UnlinkCodedCore(s, op.name);
    }
  }

  /** So a careful run of the code is a run of the file system. */
  lemma CarefulRunRefines(s: Store, a: Fs, ops: seq<Op>)
    requires Refines(s, a) && CodedRunnable(s, ops) && Careful(s, ops)
    ensures AbsRunnable(a, ops) && Refines(CodedRun(s, ops), AbsRun(a, ops))
    ensures CodedReplies(s, ops) == AbsReplies(a, ops)
  {
    CarefulRunAgrees(s, ops);
    RunRefines(s, a, ops);
  }

  // ---- lookups and listings ----

  /** The record of a name, with the block count that getattr adds. */
  function Lookup(a: Fs, n: Name): Option<(Stat, nat)>
    requires Closed(a)
  {
    if n !in a.names then None
    else
      var st := a.nodes[a.names[n]].meta;
      Some((st, st.size / 512 + 1))
  }

  lemma LookupIs(s: Store, a: Fs, n: FileName)
    requires Matches(s, a) && WellFormed(s) && Closed(a)
    ensures Getattr(s, n) == Lookup(a, n)
  {
    NamesAgree(s, a, n);
  }

  /** getattr finds what the file system has, and readdir lists just that, once. */
  lemma LookupsRefine(s: Store, a: Fs, n: FileName, st: Stat)
    requires Refines(s, a)
    ensures Closed(a)
    ensures Getattr(s, n) == Lookup(a, n)
    ensures (n, st) in Listing(s.dir, s.inodes) <==> Lookup(a, n) == Some((st, st.size / 512 + 1))
    ensures Once(Listing(s.dir, s.inodes))
  {
    MatchClosed(s, a);
    LookupIs(s, a, n);
    ListingAgrees(s, n, st);
  }
}
