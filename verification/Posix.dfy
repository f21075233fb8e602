/**
  What callers see. The file system of module Files keeps, for each file, a recorded size and stored
  bytes that need not agree; a POSIX file is one string of bytes. This module says exactly which calls
  look like calls on such files, and follows whole runs of the code.
*/
module Posix {
  import opened Bytes
  import opened Store
  import opened System
  import opened Sessions
  import opened Files
  import opened Refinement
  import opened Divergence
  import opened Contents
  import opened Conformance
  import opened Uncounted

  // ---- one file ----

  /** The file as callers should see it: as many bytes as its recorded size. */
  function Seen(node: Node): Node {
    Node(node.meta, Visible((node.meta, node.data)))
  }

  /** The calls as POSIX has them, on a file whose size is the number of its bytes. */
  function PosixApply(node: Node, op: Op): (Node, Reply)
    requires OnOneInode(op) && |node.data| == node.meta.size
    requires op.DoWrite? ==> op.off + |op.buf| <= OFF_MAX
    requires op.DoTruncate? ==> op.size < OFF_MAX
  {
    var (m, d) := (node.meta, node.data);
    match op
    case DoChmod(_, mode) => (Node(m.(mode := mode), d), Reply(0, []))
    case DoUtimens(_, atime, mtime) => (Node(m.(atime := atime, mtime := mtime), d), Reply(0, []))
    case DoWrite(_, buf, off, atime, mtime) =>
      var d' := WriteAt(d, off, buf);
      (Node(m.(size := |d'|, atime := atime, mtime := mtime), d'), Reply(|buf|, []))
    case DoTruncate(_, size, _, _) => (Node(m.(size := size), Resized(d, size)), Reply(0, []))
    case DoOpen(_, wronly, trunc) =>
      if wronly && !Writable(m.mode) then (node, Reply(-EPERM, []))
      else if trunc then (Node(m.(size := 0), []), Reply(0, []))
      else (node, Reply(0, []))
    case DoRead(_, len, off, now) =>
      var r := ReadAt(d, off, len);
      (Node(m.(atime := now), d), Reply(|r|, r))
  }

  /**
    A write reaches the recorded end and finds no leftovers before its start, or is of nothing, at the
    end; a truncation finds no leftovers where it grows; a read does not tell the two ends apart.
  */
  predicate Legible(node: Node, op: Op) {
    var (size, d) := (node.meta.size, node.data);
    match op
    case DoWrite(_, buf, off, _, _) =>
      if buf == [] then off == size else size <= off + |buf| && Clean((node.meta, d), off)
    case DoTruncate(_, n, _, _) => Clean((node.meta, d), n)
    case DoRead(_, len, off, _) =>
      || len == 0 || size == |d| || (off >= |d| && off >= size) || (off + len <= size && off + len <= |d|)
    case _ => true
  }

  /** A call on a file looks like the POSIX call exactly when it is legible there. */
  lemma ApplySeenIff(node: Node, op: Op)
    requires OnOneInode(op)
    requires op.DoWrite? ==> op.off + |op.buf| <= OFF_MAX
    requires op.DoTruncate? ==> op.size < OFF_MAX
    ensures var (n, r) := Apply(node, op);
            (Seen(n), r) == PosixApply(Seen(node), op) <==> Legible(node, op)
  {
    var next := Apply(node, op).0;
    match op
    case DoWrite(_, buf, off, _, _) => VisibleWriteIff((node.meta, node.data), (next.meta, next.data), buf, off);
    case DoTruncate(_, n, _, _) => VisibleTruncateIff((node.meta, node.data), (next.meta, next.data), n);
    case DoRead(_, len, off, _) => ReadsAgreeIff(node.data, Seen(node).data, len, off);
    case _ =>
  }

  // ---- all files ----

  /** Every size is the number of bytes. */
  ghost predicate Whole(a: Fs) {
    forall k | k in a.nodes :: |a.nodes[k].data| == a.nodes[k].meta.size
  }

  function SeenFs(a: Fs): (p: Fs)
    ensures Whole(p) && (Closed(a) ==> Closed(p)) && p.next == a.next
  {
    a.(nodes := map k | k in a.nodes :: Seen(a.nodes[k]))
  }

  function PosixNext(p: Fs, op: Op): (Fs, Reply)
    requires Closed(p) && Whole(p) && InRange(p.next, op)
  {
    if OnOneInode(op) && op.name in p.names then
      var k := p.names[op.name];
      var (node, r) := PosixApply(p.nodes[k], op);
      (p.(nodes := p.nodes[k := node]), r)
    else Next(p, op)
  }

  ghost predicate LegibleIn(a: Fs, op: Op)
    requires Closed(a)
  {
    OnOneInode(op) && op.name in a.names ==> Legible(a.nodes[a.names[op.name]], op)
  }

  lemma SeenUpdate(a: Fs, k: nat, node: Node)
    ensures SeenFs(a.(nodes := a.nodes[k := node])) == SeenFs(a).(nodes := SeenFs(a).nodes[k := Seen(node)])
  {
    assert SeenFs(a.(nodes := a.nodes[k := node])).nodes == SeenFs(a).nodes[k := Seen(node)];
  }

  lemma SeenRemove(a: Fs, k: nat)
    ensures SeenFs(a.(nodes := a.nodes - {k})) == SeenFs(a).(nodes := SeenFs(a).nodes - {k})
  {
    assert SeenFs(a.(nodes := a.nodes - {k})).nodes == SeenFs(a).nodes - {k};
  }

  lemma ApplyNextSeenIff(a: Fs, op: Op)
    requires Closed(a) && InRange(a.next, op) && OnOneInode(op) && op.name in a.names
    ensures (SeenFs(Next(a, op).0), Next(a, op).1) == PosixNext(SeenFs(a), op) <==> LegibleIn(a, op)
  {
    var k := a.names[op.name];
    var node := Apply(a.nodes[k], op).0;
    ApplySeenIff(a.nodes[k], op);
    SeenUpdate(a, k, node);
    assert SeenFs(a).nodes[k := Seen(node)][k] == Seen(node);
    assert PosixNext(SeenFs(a), op).0.nodes[k] == PosixApply(Seen(a.nodes[k]), op).0;
  }

  lemma MknodNextSeen(a: Fs, op: Op)
    requires Closed(a) && InRange(a.next, op) && op.DoMknod?
    ensures (SeenFs(Next(a, op).0), Next(a, op).1) == PosixNext(SeenFs(a), op)
  {
    var node := Node(NewStat(op.mode, op.uid, op.gid, op.now, a.next), []);
    SeenUpdate(a, a.next, node);
    assert Seen(node) == node;
  }

  lemma LinkNextSeen(a: Fs, op: Op)
    requires Closed(a) && op.DoLink?
    ensures (SeenFs(Next(a, op).0), Next(a, op).1) == PosixNext(SeenFs(a), op)
  {
    if op.from in a.names {
      var k := a.names[op.from];
      SeenUpdate(a, k, Relinked(a.nodes[k]));
      assert Seen(Relinked(a.nodes[k])) == Relinked(Seen(a.nodes[k]));
    }
  }

  lemma UnlinkNextSeen(a: Fs, op: Op)
    requires Closed(a) && op.DoUnlink?
    ensures (SeenFs(Next(a, op).0), Next(a, op).1) == PosixNext(SeenFs(a), op)
  {
    if op.name in a.names {
      var k := a.names[op.name];
      var node := a.nodes[k].(meta := Relink(a.nodes[k].meta, -1));
      SeenRemove(a, k);
      SeenUpdate(a, k, node);
      assert Seen(node) == Seen(a.nodes[k]).(meta := node.meta);
    }
  }

  /** Names, creations and removals look the same in any case. */
  lemma NamesNextSeen(a: Fs, op: Op)
    requires Closed(a) && InRange(a.next, op) && !(OnOneInode(op) && op.name in a.names)
    ensures (SeenFs(Next(a, op).0), Next(a, op).1) == PosixNext(SeenFs(a), op)
  {
    if op.DoMknod? {
      MknodNextSeen(a, op);
    } else if op.DoLink? {
      LinkNextSeen(a, op);
    } else if op.DoUnlink? {
      UnlinkNextSeen(a, op);
    }
  }

  /** A call of the file system looks like the POSIX call exactly when it is legible. */
  lemma NextSeenIff(a: Fs, op: Op)
    requires Closed(a) && InRange(a.next, op)
    ensures (SeenFs(Next(a, op).0), Next(a, op).1) == PosixNext(SeenFs(a), op) <==> LegibleIn(a, op)
  {
    if OnOneInode(op) && op.name in a.names {
      ApplyNextSeenIff(a, op);
    } else {
      NamesNextSeen(a, op);
    }
  }

  // ---- runs ----

  ghost predicate PosixRunnable(p: Fs, ops: seq<Op>)
    decreases |ops|
  {
    ops == [] || (Closed(p) && Whole(p) && InRange(p.next, ops[0]) && PosixRunnable(PosixNext(p, ops[0]).0, ops[1..]))
  }

  ghost function PosixRun(p: Fs, ops: seq<Op>): Fs
    requires PosixRunnable(p, ops)
    decreases |ops|
  {
    if ops == [] then p else PosixRun(PosixNext(p, ops[0]).0, ops[1..])
  }

  ghost function PosixReplies(p: Fs, ops: seq<Op>): seq<Reply>
    requires PosixRunnable(p, ops)
    decreases |ops|
  {
    if ops == [] then [] else [PosixNext(p, ops[0]).1] + PosixReplies(PosixNext(p, ops[0]).0, ops[1..])
  }

  /** The store is, but for link counts, that of the POSIX file system p. */
  ghost predicate Shows(s: Store, p: Fs) {
    exists a :: RefinesButCounts(s, a) && SeenFs(a) == p
  }

  /** The call is legible on the record and the stored bytes behind its name. */
  predicate LegibleCall(s: Store, op: Op)
    requires Core(s)
  {
    OnOneInode(op) && Bound(s.dir, op.name) ==> Legible(Node(View(s, op.name).0, View(s, op.name).1), op)
  }

  lemma SizeAndBytesDecide(node: Node, other: Node, op: Op)
    requires node.meta.size == other.meta.size && node.data == other.data
    ensures Legible(node, op) <==> Legible(other, op)
  {
  }

  lemma ViewIsNode(s: Store, t: Store, a: Fs, name: FileName)
    requires SameButCounts(s, t) && Core(s) && Matches(t, a) && Bound(s.dir, name)
    ensures name in a.names && a.names[name] in a.nodes
    ensures var node := a.nodes[a.names[name]];
            node.meta.size == View(s, name).0.size && node.data == View(s, name).1
  {
    NamesAgree(t, a, name);
  }

  lemma LegibleSame(s: Store, t: Store, a: Fs, op: Op)
    requires SameButCounts(s, t) && Core(s) && Matches(t, a) && Closed(a)
    ensures LegibleCall(s, op) <==> LegibleIn(a, op)
  {
    if OnOneInode(op) {
      NamesAgree(t, a, op.name);
      if Bound(s.dir, op.name) {
        ViewIsNode(s, t, a, op.name);
        SizeAndBytesDecide(Node(View(s, op.name).0, View(s, op.name).1), a.nodes[a.names[op.name]], op);
      }
    }
  }

  /** What a tidy call of the code shows is what the POSIX call makes, exactly when the call is legible. */
  lemma CallShowsIff(s: Store, a: Fs, op: Op)
    requires RefinesButCounts(s, a) && InRange(s.next, op) && Tidy(s, op)
    ensures Core(s) && Closed(a) && a.next == s.next
    ensures RefinesButCounts(Coded(s, op).0, Next(a, op).0)
    ensures (SeenFs(Next(a, op).0), Coded(s, op).1) == PosixNext(SeenFs(a), op) <==> LegibleCall(s, op)
  {
    CallConformsButCountsIff(s, a, op);
    var t :| SameButCounts(s, t) && Refines(t, a);
    LegibleSame(s, t, a, op);
    NextSeenIff(a, op);
  }

  lemma CallShows(s: Store, p: Fs, op: Op)
    requires Shows(s, p) && InRange(s.next, op) && Core(s) && Tidy(s, op) && LegibleCall(s, op)
    ensures Closed(p) && Whole(p) && p.next == s.next
    ensures Shows(Coded(s, op).0, PosixNext(p, op).0) && Coded(s, op).1 == PosixNext(p, op).1
  {
    var a :| RefinesButCounts(s, a) && SeenFs(a) == p;
    CallShowsIff(s, a, op);
  }

  /** A run of the code of tidy and legible calls. */
  predicate LegibleThroughout(s: Store, ops: seq<Op>)
    requires CodedRunnable(s, ops)
    decreases |ops|
  {
    ops == [] ||
    (Core(s) && Tidy(s, ops[0]) && LegibleCall(s, ops[0]) && LegibleThroughout(Coded(s, ops[0]).0, ops[1..]))
  }

  /** Such a run is, answers included, the run of a file system whose files are strings of bytes. */
  lemma {:induction false} RunShows(s: Store, p: Fs, ops: seq<Op>)
    requires Shows(s, p) && CodedRunnable(s, ops) && LegibleThroughout(s, ops)
    ensures PosixRunnable(p, ops) && Shows(CodedRun(s, ops), PosixRun(p, ops))
    ensures CodedReplies(s, ops) == PosixReplies(p, ops)
    decreases |ops|
  {
    if ops != [] {
      CallShows(s, p, ops[0]);
      RunShows(Coded(s, ops[0]).0, PosixNext(p, ops[0]).0, ops[1..]);
    }
  }

  lemma SessionShows(ops: seq<Op>)
    requires CodedRunnable(FRESH, ops) && LegibleThroughout(FRESH, ops)
    ensures PosixRunnable(EMPTY, ops) && Shows(CodedRun(FRESH, ops), PosixRun(EMPTY, ops))
    ensures CodedReplies(FRESH, ops) == PosixReplies(EMPTY, ops)
  {
    FreshRefines();
    assert SameButCounts(FRESH, FRESH);
    assert SeenFs(EMPTY) == EMPTY;
    RunShows(FRESH, EMPTY, ops);
  }
}
