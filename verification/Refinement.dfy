/**
  The tables, backing files and counter refine the abstract file system, call by call and over
  every run whose callers met their obligations.
*/
module Refinement {
  import opened Layout
  import opened Table
  import opened Store
  import opened Unlinking
  import opened Slots
  import opened Sessions
  import opened Upkeep
  import opened Files

  // ---- entries as members rather than positions ----

  predicate Bind(e: Dentry, s: Store, a: Fs) {
    && e.name in a.names && a.names[e.name] == e.inum
    && e.inum < |s.inodes| && e.storage in s.backing
    && e.inum in a.nodes && a.nodes[e.inum] == Node(s.inodes[e.inum], s.backing[e.storage])
  }

  predicate Member(dir: seq<Dentry>, e: Dentry) {
    e in dir && Live(e)
  }

  ghost predicate Named(dir: seq<Dentry>, n: Name) {
    exists e :: Member(dir, e) && e.name == n
  }

  ghost predicate Linked(dir: seq<Dentry>, k: nat) {
    exists e :: Member(dir, e) && e.inum == k
  }

  /**
    Every live entry is a binding to a node with the inode's record and the storage's bytes, and
    there are no other bindings and no other nodes.
  */
  ghost predicate Matches(s: Store, a: Fs) {
    && (forall e | Member(s.dir, e) :: Bind(e, s, a))
    && (forall n | n in a.names :: Named(s.dir, n))
    && (forall k | k in a.nodes :: Linked(s.dir, k))
    && a.next == s.next
  }

  ghost predicate Refines(s: Store, a: Fs) {
    Invariant(s) && Matches(s, a)
  }

  lemma SameNames(s: Store, a: Fs, b: Fs)
    requires Matches(s, a) && Matches(s, b)
    ensures forall n | n in a.names :: n in b.names && a.names[n] == b.names[n]
    ensures forall k | k in a.nodes :: k in b.nodes && a.nodes[k] == b.nodes[k]
  {
    forall n | n in a.names ensures n in b.names && a.names[n] == b.names[n] {
      var e :| Member(s.dir, e) && e.name == n;
      assert Bind(e, s, a) && Bind(e, s, b);
    }
    forall k | k in a.nodes ensures k in b.nodes && a.nodes[k] == b.nodes[k] {
      var e :| Member(s.dir, e) && e.inum == k;
      assert Bind(e, s, a) && Bind(e, s, b);
    }
  }

  /** A store has at most one abstract state. */
  lemma MatchUnique(s: Store, a: Fs, b: Fs)
    requires Matches(s, a) && Matches(s, b)
    ensures a == b
  {
    SameNames(s, a, b);
    SameNames(s, b, a);
    assert a.names == b.names && a.nodes == b.nodes;
  }

  lemma BoundIsNamed(dir: seq<Dentry>, n: Name)
    ensures Bound(dir, n) <==> Named(dir, n)
    ensures Bound(dir, n) ==> Member(dir, dir[Find(dir, n)]) && dir[Find(dir, n)].name == n
  {
    if Bound(dir, n) {
      assert Member(dir, dir[Find(dir, n)]);
    }
    if Named(dir, n) {
      var e :| Member(dir, e) && e.name == n;
      var i :| 0 <= i < |dir| && dir[i] == e;
      assert Hit(dir[i], n);
    }
  }

  lemma NamesAgree(s: Store, a: Fs, n: Name)
    requires Matches(s, a)
    ensures n in a.names <==> Bound(s.dir, n)
    ensures Bound(s.dir, n) ==> Bind(s.dir[Find(s.dir, n)], s, a)
  {
    BoundIsNamed(s.dir, n);
  }

  lemma MatchClosed(s: Store, a: Fs)
    requires Matches(s, a)
    ensures Closed(a)
  {
    forall n | n in a.names ensures a.names[n] in a.nodes {
      var e :| Member(s.dir, e) && e.name == n;
      assert Bind(e, s, a);
    }
  }

  // ---- what the invariant says of two members ----

  predicate Apart(e: Dentry, f: Dentry) {
    (e.name == f.name ==> e == f) && (e.storage == f.storage <==> e.inum == f.inum)
  }

  ghost predicate Members(s: Store) {
    && (forall e, f | Member(s.dir, e) && Member(s.dir, f) :: Apart(e, f))
    && (forall e | Member(s.dir, e) :: e.name != [] && e.inum < s.next)
  }

  lemma CoreMembers(s: Store)
    requires Core(s)
    ensures Members(s)
  {
    forall e, f | Member(s.dir, e) && Member(s.dir, f) ensures Apart(e, f) {
      var i :| 0 <= i < |s.dir| && s.dir[i] == e;
      var j :| 0 <= j < |s.dir| && s.dir[j] == f;
      assert i == j || e.name != f.name;
    }
  }

  // ---- how the members of the directory change ----

  lemma PutMembers(dir: seq<Dentry>, f: nat, e: Dentry)
    requires Spare(dir, f) && Live(e)
    ensures forall x :: Member(Put(dir, f, e, FREE), x) <==> Member(dir, x) || x == e
  {
    var dir' := Put(dir, f, e, FREE);
    PutEntries(dir, f, e);
    forall x ensures Member(dir', x) <==> Member(dir, x) || x == e {
      if Member(dir, x) {
        var i :| 0 <= i < |dir| && dir[i] == x;
        assert dir'[i] == x;
      }
      if x == e { assert dir'[f] == x; }
    }
  }

  lemma ReplaceMembers(dir: seq<Dentry>, i: nat, e: Dentry, dir': seq<Dentry>)
    requires i < |dir| && Live(dir[i]) && Live(e) && Unique(dir) && dir' == dir[i := e]
    ensures forall x :: Member(dir', x) <==> x == e || (Member(dir, x) && x != dir[i])
  {
    forall x ensures Member(dir', x) <==> x == e || (Member(dir, x) && x != dir[i]) {
      if x == e { assert dir'[i] == x; }
      if Member(dir, x) && x != dir[i] {
        var j :| 0 <= j < |dir| && dir[j] == x;
        assert dir'[j] == x;
      }
      if Member(dir', x) && x != e {
        var j :| 0 <= j < |dir'| && dir'[j] == x;
        assert dir[j] == x && j != i;
      }
    }
  }

  lemma CompactedMembers(dir: seq<Dentry>, gone: FileName)
    requires NamesMatchInums(dir)
    ensures forall x :: Member(Compacted(Kept(dir, gone)), x) <==> Member(dir, x) && x.name != gone
  {
    KeptIn(dir, gone);
  }

  // ---- the five ways an abstract state follows ----

  lemma BindAdded(x: Dentry, s: Store, a: Fs, s': Store, a': Fs, e: Dentry)
    requires Bind(x, s, a) && Apart(x, e) && x.name != e.name
    requires a'.names == a.names[e.name := e.inum]
    requires |s'.inodes| >= |s.inodes| && (x.inum != e.inum ==> s'.inodes[x.inum] == s.inodes[x.inum])
    requires x.storage in s'.backing && (x.storage != e.storage ==> s'.backing[x.storage] == s.backing[x.storage])
    requires e.inum < |s'.inodes| && e.storage in s'.backing
    requires a'.nodes == a.nodes[e.inum := Node(s'.inodes[e.inum], s'.backing[e.storage])]
    ensures Bind(x, s', a')
  {
  }

  lemma AddBinds(s: Store, a: Fs, s': Store, a': Fs, e: Dentry)
    requires forall x | Member(s.dir, x) :: Bind(x, s, a)
    requires forall x | Member(s'.dir, x) :: Apart(x, e) && (Member(s.dir, x) || x == e)
    requires a'.names == a.names[e.name := e.inum]
    requires e.inum < |s'.inodes| && e.storage in s'.backing
    requires a'.nodes == a.nodes[e.inum := Node(s'.inodes[e.inum], s'.backing[e.storage])]
    requires |s'.inodes| >= |s.inodes|
    requires forall k | 0 <= k < |s.inodes| && k != e.inum :: s'.inodes[k] == s.inodes[k]
    requires forall n | n in s.backing :: n in s'.backing && (n != e.storage ==> s'.backing[n] == s.backing[n])
    ensures forall x | Member(s'.dir, x) :: Bind(x, s', a')
  {
    forall x | Member(s'.dir, x) ensures Bind(x, s', a') {
      if x != e { BindAdded(x, s, a, s', a', e); }
    }
  }

  /** Names and nodes, old and new, have an entry. */
  lemma AddLeaves(dir: seq<Dentry>, dir': seq<Dentry>, e: Dentry, n: Name, k: nat)
    requires forall x | Member(dir, x) || x == e :: Member(dir', x)
    ensures Named(dir, n) || n == e.name ==> Named(dir', n)
    ensures Linked(dir, k) || k == e.inum ==> Linked(dir', k)
  {
    assert Member(dir', e);
    if Named(dir, n) {
      var x :| Member(dir, x) && x.name == n;
      assert Member(dir', x);
    }
    if Linked(dir, k) {
      var x :| Member(dir, x) && x.inum == k;
      assert Member(dir', x);
    }
  }

  lemma MatchAdd(s: Store, a: Fs, s': Store, a': Fs, e: Dentry)
    requires Matches(s, a) && Members(s')
    requires forall x :: Member(s'.dir, x) <==> Member(s.dir, x) || x == e
    requires a'.names == a.names[e.name := e.inum] && a'.next == s'.next
    requires e.inum < |s'.inodes| && e.storage in s'.backing
    requires a'.nodes == a.nodes[e.inum := Node(s'.inodes[e.inum], s'.backing[e.storage])]
    requires |s'.inodes| >= |s.inodes|
    requires forall k | 0 <= k < |s.inodes| && k != e.inum :: s'.inodes[k] == s.inodes[k]
    requires forall n | n in s.backing :: n in s'.backing && (n != e.storage ==> s'.backing[n] == s.backing[n])
    ensures Matches(s', a')
  {
    assert Member(s'.dir, e);
    AddBinds(s, a, s', a', e);
    forall n | n in a'.names ensures Named(s'.dir, n) {
      AddLeaves(s.dir, s'.dir, e, n, 0);
    }
    forall k | k in a'.nodes ensures Linked(s'.dir, k) {
      AddLeaves(s.dir, s'.dir, e, [], k);
    }
  }

  lemma MatchRename(s: Store, a: Fs, s': Store, a': Fs, was: Dentry, e: Dentry)
    requires Matches(s, a) && Members(s) && Members(s') && Member(s.dir, was)
    requires e == was.(name := e.name)
    requires forall x :: Member(s'.dir, x) <==> x == e || (Member(s.dir, x) && x != was)
    requires s'.inodes == s.inodes && s'.backing == s.backing
    requires a' == a.(names := (a.names - {was.name})[e.name := e.inum]) && a'.next == s'.next
    ensures Matches(s', a')
  {
    assert Bind(was, s, a);
    forall x | Member(s'.dir, x) ensures Bind(x, s', a') {
      assert Apart(x, e);
      if x != e { assert Bind(x, s, a) && Apart(x, was); }
    }
    assert Member(s'.dir, e);
    forall n | n in a'.names ensures Named(s'.dir, n) {
      if n != e.name { var x :| Member(s.dir, x) && x.name == n; assert Member(s'.dir, x); }
    }
    forall k | k in a'.nodes ensures Linked(s'.dir, k) {
      var x :| Member(s.dir, x) && x.inum == k;
      assert Member(s'.dir, if x == was then e else x);
    }
  }

  lemma BindKept(x: Dentry, s: Store, a: Fs, s': Store, a': Fs, e: Dentry)
    requires Bind(x, s, a) && Apart(x, e) && x.name != e.name
    requires a'.names == a.names - {e.name}
    requires |s'.inodes| == |s.inodes| && (x.inum != e.inum ==> s'.inodes[x.inum] == s.inodes[x.inum])
    requires x.inum == e.inum ==>
               s'.backing == s.backing
               && a'.nodes == a.nodes[e.inum := Node(s'.inodes[e.inum], a.nodes[e.inum].data)]
    requires x.inum != e.inum ==>
               (s'.backing == s.backing || s'.backing == s.backing - {e.storage})
               && a'.nodes - {e.inum} == a.nodes - {e.inum}
    ensures Bind(x, s', a')
  {
    if x.inum != e.inum {
      assert x.inum in a.nodes - {e.inum};
      assert (a'.nodes - {e.inum})[x.inum] == a'.nodes[x.inum];
    }
  }

  lemma RemoveBinds(s: Store, a: Fs, s': Store, a': Fs, e: Dentry)
    requires forall x | Member(s.dir, x) :: Bind(x, s, a) && Apart(x, e)
    requires forall x | Member(s'.dir, x) :: Member(s.dir, x) && x.name != e.name
    requires a'.names == a.names - {e.name}
    requires |s'.inodes| == |s.inodes| && e.inum < |s.inodes| && e.inum in a.nodes
    requires forall k | 0 <= k < |s.inodes| && k != e.inum :: s'.inodes[k] == s.inodes[k]
    requires Linked(s'.dir, e.inum) ==>
               s'.backing == s.backing
               && a'.nodes == a.nodes[e.inum := Node(s'.inodes[e.inum], a.nodes[e.inum].data)]
    requires !Linked(s'.dir, e.inum) ==>
               s'.backing == s.backing - {e.storage} && a'.nodes == a.nodes - {e.inum}
    ensures forall x | Member(s'.dir, x) :: Bind(x, s', a')
  {
    forall x | Member(s'.dir, x) ensures Bind(x, s', a') {
      BindKept(x, s, a, s', a', e);
    }
  }

  /** Names and nodes that are left have an entry left. */
  lemma RemoveLeaves(dir: seq<Dentry>, dir': seq<Dentry>, e: Dentry, n: Name, k: nat)
    requires forall x | Member(dir, x) :: Apart(x, e)
    requires forall x | Member(dir, x) && x.name != e.name :: Member(dir', x)
    ensures Named(dir, n) && n != e.name ==> Named(dir', n)
    ensures Linked(dir, k) && k != e.inum ==> Linked(dir', k)
  {
    if Named(dir, n) && n != e.name {
      var x :| Member(dir, x) && x.name == n;
      assert Member(dir', x);
    }
    if Linked(dir, k) && k != e.inum {
      var x :| Member(dir, x) && x.inum == k;
      assert Apart(x, e) && Member(dir', x);
    }
  }

  lemma MatchRemove(s: Store, a: Fs, s': Store, a': Fs, e: Dentry)
    requires Matches(s, a) && Members(s) && Member(s.dir, e)
    requires forall x :: Member(s'.dir, x) <==> Member(s.dir, x) && x.name != e.name
    requires a'.names == a.names - {e.name} && a'.next == s'.next
    requires |s'.inodes| == |s.inodes| && e.inum < |s.inodes| && e.inum in a.nodes
    requires forall k | 0 <= k < |s.inodes| && k != e.inum :: s'.inodes[k] == s.inodes[k]
    requires Linked(s'.dir, e.inum) ==>
               s'.backing == s.backing
               && a'.nodes == a.nodes[e.inum := Node(s'.inodes[e.inum], a.nodes[e.inum].data)]
    requires !Linked(s'.dir, e.inum) ==>
               s'.backing == s.backing - {e.storage} && a'.nodes == a.nodes - {e.inum}
    ensures Matches(s', a')
  {
    RemoveBinds(s, a, s', a', e);
    forall n | n in a'.names ensures Named(s'.dir, n) {
      RemoveLeaves(s.dir, s'.dir, e, n, 0);
    }
    forall k | k in a'.nodes ensures Linked(s'.dir, k) {
      RemoveLeaves(s.dir, s'.dir, e, [], k);
    }
  }

  lemma MatchSameDir(s: Store, a: Fs, s': Store, a': Fs, e: Dentry)
    requires Matches(s, a) && Members(s) && Member(s.dir, e)
    requires s'.dir == s.dir && s'.next == s.next
    requires |s'.inodes| == |s.inodes| && e.inum < |s.inodes|
    requires e.storage in s'.backing
    requires a' == a.(nodes := a.nodes[e.inum := Node(s'.inodes[e.inum], s'.backing[e.storage])])
    requires forall k | 0 <= k < |s.inodes| && k != e.inum :: s'.inodes[k] == s.inodes[k]
    requires forall n | n in s.backing :: n in s'.backing && (n != e.storage ==> s'.backing[n] == s.backing[n])
    ensures Matches(s', a')
  {
    forall x | Member(s'.dir, x) ensures Bind(x, s', a') {
      assert Bind(x, s, a) && Apart(x, e);
    }
    forall k | k in a'.nodes ensures Linked(s'.dir, k) {
      if k == e.inum { assert Member(s'.dir, e); }
    }
  }

  // ---- one call ----

  lemma MknodMatches(s: Store, a: Fs, op: Op)
    requires Refines(s, a) && Closed(a) && InRange(s.next, op) && op.DoMknod? && Admissible(s, op)
    ensures Matches(Intended(s, op).0, Next(a, op).0) && Intended(s, op).1 == Next(a, op).1
  {
    if Regular(op.mode) {
      var s' := Intended(s, op).0;
      var e := Dentry(op.name, op.name, s.next);
      MknodCoreIff(s, op.name, op.mode, op.uid, op.gid, op.now);
      CoreMembers(s');
      PutMembers(s.dir, s.next, e);
      MatchAdd(s, a, s', Next(a, op).0, e);
    }
  }

  /** The entry `link` adds. */
  function Twin(s: Store, op: Op): Dentry
    requires op.DoLink? && Bound(s.dir, op.from)
  {
    s.dir[Find(s.dir, op.from)].(name := op.to)
  }

  lemma LinkMembers(s: Store, op: Op)
    requires Core(s) && op.DoLink? && Admissible(s, op) && Bound(s.dir, op.from)
    ensures var s' := IntendedLink(s, op.from, op.to).0;
            Members(s') && forall x :: Member(s'.dir, x) <==> Member(s.dir, x) || x == Twin(s, op)
  {
    LinkCoreIff(s, op.from, op.to);
    CoreMembers(IntendedLink(s, op.from, op.to).0);
    UnusedIsDead(s.dir);
    PutMembers(s.dir, FreeSlot(s.dir), Twin(s, op));
  }

  /** The node after a link. */
  function Relinked(node: Node): Node {
    node.(meta := Relink(node.meta, 1))
  }

  lemma LinkNext(s: Store, a: Fs, op: Op, e: Dentry)
    requires Bind(e, s, a) && Closed(a) && op.DoLink? && e.name == op.from
    ensures Next(a, op)
         == (Fs(a.names[op.to := e.inum], a.nodes[e.inum := Relinked(a.nodes[e.inum])], a.next), Reply(0, []))
  {
  }

  /** One more entry for the inode of an entry that is there. */
  lemma LinkedMatches(s: Store, a: Fs, was: Dentry, e: Dentry, s': Store)
    requires Matches(s, a) && Bind(was, s, a) && Members(s')
    requires e == was.(name := e.name)
    requires forall x :: Member(s'.dir, x) <==> Member(s.dir, x) || x == e
    requires s'.inodes == s.inodes[e.inum := Relink(s.inodes[e.inum], 1)] && s'.backing == s.backing
    requires s'.next == s.next
    ensures Matches(s', Fs(a.names[e.name := e.inum], a.nodes[e.inum := Relinked(a.nodes[e.inum])], a.next))
  {
    MatchAdd(s, a, s', Fs(a.names[e.name := e.inum], a.nodes[e.inum := Relinked(a.nodes[e.inum])], a.next), e);
  }

  lemma LinkMatches(s: Store, a: Fs, op: Op)
    requires Matches(s, a) && WellFormed(s) && Closed(a) && op.DoLink?
    requires Bound(s.dir, op.from) ==>
               var s' := IntendedLink(s, op.from, op.to).0;
               Members(s') && forall x :: Member(s'.dir, x) <==> Member(s.dir, x) || x == Twin(s, op)
    ensures Matches(Intended(s, op).0, Next(a, op).0) && Intended(s, op).1 == Next(a, op).1
  {
    NamesAgree(s, a, op.from);
    if Bound(s.dir, op.from) {
      var was := s.dir[Find(s.dir, op.from)];
      LinkNext(s, a, op, was);
      LinkedMatches(s, a, was, Twin(s, op), IntendedLink(s, op.from, op.to).0);
    }
  }

  lemma RenamedMembers(dir: seq<Dentry>, i: nat, to: FileName, dir': seq<Dentry>)
    requires i < |dir| && Live(dir[i]) && Unique(dir) && dir' == dir[i := dir[i].(name := to)]
    ensures Member(dir, dir[i])
    ensures forall x :: Member(dir', x) <==> x == dir[i].(name := to) || (Member(dir, x) && x != dir[i])
  {
    var e := dir[i].(name := to);
    ReplaceMembers(dir, i, e, dir');
  }

  lemma RenameApart(s: Store, op: Op)
    requires Core(s) && op.DoRename? && Admissible(s, op) && Bound(s.dir, op.from)
    ensures Members(s) && Members(Rename(s, op.from, op.to).0)
  {
    RenameCoreIff(s, op.from, op.to);
    CoreMembers(s);
    CoreMembers(Rename(s, op.from, op.to).0);
  }

  lemma RenameMembers(s: Store, op: Op)
    requires Core(s) && op.DoRename? && Admissible(s, op) && Bound(s.dir, op.from)
    ensures var s' := Rename(s, op.from, op.to).0;
            var was := s.dir[Find(s.dir, op.from)];
            && Members(s) && Members(s') && Member(s.dir, was)
            && forall x :: Member(s'.dir, x) <==> x == was.(name := op.to) || (Member(s.dir, x) && x != was)
  {
    RenameApart(s, op);
    RenamedMembers(s.dir, Find(s.dir, op.from), op.to, Rename(s, op.from, op.to).0.dir);
  }

  lemma RenameNext(s: Store, a: Fs, op: Op, was: Dentry)
    requires Bind(was, s, a) && Closed(a) && op.DoRename? && was.name == op.from
    ensures Next(a, op) == (a.(names := (a.names - {was.name})[op.to := was.inum]), Reply(0, []))
  {
  }

  lemma RenameMatches(s: Store, a: Fs, op: Op)
    requires Matches(s, a) && WellFormed(s) && Closed(a) && op.DoRename?
    requires Bound(s.dir, op.from) ==>
               var s' := Rename(s, op.from, op.to).0;
               var was := s.dir[Find(s.dir, op.from)];
               && Members(s) && Members(s') && Member(s.dir, was)
               && forall x :: Member(s'.dir, x) <==> x == was.(name := op.to) || (Member(s.dir, x) && x != was)
    ensures Matches(Intended(s, op).0, Next(a, op).0) && Intended(s, op).1 == Next(a, op).1
  {
    NamesAgree(s, a, op.from);
    if Bound(s.dir, op.from) {
      var was := s.dir[Find(s.dir, op.from)];
      RenameNext(s, a, op, was);
      MatchRename(s, a, Rename(s, op.from, op.to).0, Next(a, op).0, was, was.(name := op.to));
    }
  }

  lemma UnlinkMembers(s: Store, name: FileName)
    requires Invariant(s)
    ensures var s' := IntendedUnlink(s, name).0;
            && Members(s)
            && (forall x :: Member(s'.dir, x) <==> Member(s.dir, x) && x.name != name)
            && (Bound(s.dir, name) ==>
                  var k := s.dir[Find(s.dir, name)].inum;
                  k < |s'.inodes| && (Linked(s'.dir, k) <==> s'.inodes[k].nlink != 0))
  {
    CoreMembers(s);
    CompactedMembers(s.dir, name);
    if Bound(s.dir, name) {
      var k := s.dir[Find(s.dir, name)].inum;
      UnlinkCountOf(s, name, k);
      LinkedIsCounted(IntendedUnlink(s, name).0.dir, k);
    }
  }

  lemma UnlinkMatches(s: Store, a: Fs, op: Op)
    requires Matches(s, a) && WellFormed(s) && Closed(a) && op.DoUnlink? && Members(s)
    requires var s' := IntendedUnlink(s, op.name).0;
             && (forall x :: Member(s'.dir, x) <==> Member(s.dir, x) && x.name != op.name)
             && (Bound(s.dir, op.name) ==>
                   var k := s.dir[Find(s.dir, op.name)].inum;
                   k < |s'.inodes| && (Linked(s'.dir, k) <==> s'.inodes[k].nlink != 0))
    ensures Matches(Intended(s, op).0, Next(a, op).0) && Intended(s, op).1 == Next(a, op).1
  {
    NamesAgree(s, a, op.name);
    BoundIsNamed(s.dir, op.name);
    if Bound(s.dir, op.name) {
      assert Bind(s.dir[Find(s.dir, op.name)], s, a);
      var e := s.dir[Find(s.dir, op.name)];
      MatchRemove(s, a, Intended(s, op).0, Next(a, op).0, e);
    } else {
      MatchSameMembers(s, a, Intended(s, op).0);
    }
  }

  lemma MatchSameMembers(s: Store, a: Fs, s': Store)
    requires Matches(s, a)
    requires forall x | Member(s.dir, x) || Member(s'.dir, x) :: Member(s.dir, x) && Member(s'.dir, x)
    requires s'.inodes == s.inodes && s'.backing == s.backing && s'.next == s.next
    ensures Matches(s', a)
  {
    forall x | Member(s'.dir, x) ensures Bind(x, s', a) { assert Bind(x, s, a); }
    forall n | n in a.names ensures Named(s'.dir, n) {
      var x :| Member(s.dir, x) && x.name == n;
      assert Member(s'.dir, x);
    }
    forall k | k in a.nodes ensures Linked(s'.dir, k) {
      var x :| Member(s.dir, x) && x.inum == k;
      assert Member(s'.dir, x);
    }
  }

  lemma LinkedIsCounted(dir: seq<Dentry>, k: nat)
    requires k != 0
    ensures Linked(dir, k) <==> Tally(dir, HasInum(k)) != 0
  {
    TallyNone(dir, HasInum(k));
    if Linked(dir, k) {
      var x :| Member(dir, x) && x.inum == k;
      var i :| 0 <= i < |dir| && dir[i] == x;
      assert HasInum(k)(dir[i]);
    }
    if Tally(dir, HasInum(k)) != 0 {
      var i :| 0 <= i < |dir| && HasInum(k)(dir[i]);
      assert Member(dir, dir[i]);
    }
  }

  /** What such a call does to the store, in terms of what it does to one node. */
  lemma OneInodeStep(s: Store, op: Op, e: Dentry)
    requires WellFormed(s) && InRange(s.next, op) && OnOneInode(op)
    requires Bound(s.dir, op.name) && e == s.dir[Find(s.dir, op.name)] && e.storage in s.backing
    ensures var (node, r) := Apply(Node(s.inodes[e.inum], s.backing[e.storage]), op);
            Intended(s, op) == (s.(inodes := s.inodes[e.inum := node.meta],
                                   backing := s.backing[e.storage := node.data]), r)
  {
    var s' := Intended(s, op).0;
    var node := Apply(Node(s.inodes[e.inum], s.backing[e.storage]), op).0;
    assert s'.backing == s.backing[e.storage := node.data];
    assert s'.inodes == s.inodes[e.inum := node.meta];
  }

  lemma OneInodeNext(s: Store, a: Fs, op: Op, e: Dentry)
    requires Bind(e, s, a) && Closed(a) && InRange(a.next, op) && OnOneInode(op) && e.name == op.name
    ensures var (node, r) := Apply(Node(s.inodes[e.inum], s.backing[e.storage]), op);
            Next(a, op) == (a.(nodes := a.nodes[e.inum := node]), r)
  {
  }

  lemma OneInodeMatches(s: Store, a: Fs, e: Dentry, node: Node)
    requires Matches(s, a) && Members(s) && Member(s.dir, e) && Bind(e, s, a)
    ensures Matches(s.(inodes := s.inodes[e.inum := node.meta], backing := s.backing[e.storage := node.data]),
                    a.(nodes := a.nodes[e.inum := node]))
  {
    var s' := s.(inodes := s.inodes[e.inum := node.meta], backing := s.backing[e.storage := node.data]);
    MatchSameDir(s, a, s', a.(nodes := a.nodes[e.inum := node]), e);
  }

  lemma OtherMatches(s: Store, a: Fs, op: Op)
    requires Matches(s, a) && WellFormed(s) && Members(s)
    requires Closed(a) && InRange(s.next, op) && OnOneInode(op)
    ensures Matches(Intended(s, op).0, Next(a, op).0) && Intended(s, op).1 == Next(a, op).1
  {
    NamesAgree(s, a, op.name);
    BoundIsNamed(s.dir, op.name);
    if Bound(s.dir, op.name) {
      var e := s.dir[Find(s.dir, op.name)];
      OneInodeStep(s, op, e);
      OneInodeNext(s, a, op, e);
      OneInodeMatches(s, a, e, Apply(Node(s.inodes[e.inum], s.backing[e.storage]), op).0);
    }
  }

  /** Forward simulation: an admitted call does to the store what it does to the file system, and answers the same. */
  lemma CallRefines(s: Store, a: Fs, op: Op)
    requires Refines(s, a) && InRange(s.next, op) && Admissible(s, op)
    ensures Closed(a)
    ensures Refines(Intended(s, op).0, Next(a, op).0)
    ensures Intended(s, op).1 == Next(a, op).1
  {
    MatchClosed(s, a);
    InvariantKeptIff(s, op);
    match op
    case DoMknod(_, _, _, _, _) => MknodMatches(s, a, op);
    case DoLink(_, _) =>
      if Bound(s.dir, op.from) { LinkMembers(s, op); }
      LinkMatches(s, a, op);
    case DoRename(_, _) =>
      if Bound(s.dir, op.from) { RenameMembers(s, op); }
      RenameMatches(s, a, op);
    case DoUnlink(_) =>
      UnlinkMembers(s, op.name);
      UnlinkMatches(s, a, op);
    case _ =>
      CoreMembers(s);
      OtherMatches(s, a, op);
  }

  // ---- runs ----

  predicate Invariants(s: Store, ops: seq<Op>)
    requires Runnable(s, ops)
    decreases |ops|
  {
    Invariant(s) && (ops == [] || Invariants(Intended(s, ops[0]).0, ops[1..]))
  }

  predicate Obligations(s: Store, ops: seq<Op>)
    requires Runnable(s, ops)
    decreases |ops|
  {
    ops == [] || (Admissible(s, ops[0]) && Obligations(Intended(s, ops[0]).0, ops[1..]))
  }

  /** A run stays a file system throughout exactly when every caller met its obligation. */
  lemma {:induction false} RunSafeIff(s: Store, ops: seq<Op>)
    requires Runnable(s, ops) && Invariant(s)
    ensures Invariants(s, ops) <==> Obligations(s, ops)
    decreases |ops|
  {
    if ops != [] {
      InvariantKeptIff(s, ops[0]);
      if Admissible(s, ops[0]) {
        RunSafeIff(Intended(s, ops[0]).0, ops[1..]);
      }
    }
  }

  ghost predicate AbsRunnable(a: Fs, ops: seq<Op>)
    decreases |ops|
  {
    ops == [] || (Closed(a) && InRange(a.next, ops[0]) && AbsRunnable(Next(a, ops[0]).0, ops[1..]))
  }

  ghost function AbsRun(a: Fs, ops: seq<Op>): Fs
    requires AbsRunnable(a, ops)
    decreases |ops|
  {
    if ops == [] then a else AbsRun(Next(a, ops[0]).0, ops[1..])
  }

  function Replies(s: Store, ops: seq<Op>): seq<Reply>
    requires Runnable(s, ops)
    decreases |ops|
  {
    if ops == [] then [] else [Intended(s, ops[0]).1] + Replies(Intended(s, ops[0]).0, ops[1..])
  }

  ghost function AbsReplies(a: Fs, ops: seq<Op>): seq<Reply>
    requires AbsRunnable(a, ops)
    decreases |ops|
  {
    if ops == [] then [] else [Next(a, ops[0]).1] + AbsReplies(Next(a, ops[0]).0, ops[1..])
  }

  lemma {:induction false} RunRefines(s: Store, a: Fs, ops: seq<Op>)
    requires Refines(s, a) && Runnable(s, ops) && Obligations(s, ops)
    ensures AbsRunnable(a, ops) && Refines(Run(s, ops), AbsRun(a, ops))
    ensures Replies(s, ops) == AbsReplies(a, ops)
    decreases |ops|
  {
    if ops != [] {
      CallRefines(s, a, ops[0]);
      RunRefines(Intended(s, ops[0]).0, Next(a, ops[0]).0, ops[1..]);
    }
  }

  lemma FreshRefines()
    ensures Refines(FRESH, EMPTY)
  {
  }

  /** Every run from a fresh store refines the same run of the abstract file system, reply by reply. */
  lemma SessionRefines(ops: seq<Op>)
    requires Runnable(FRESH, ops) && Obligations(FRESH, ops)
    ensures AbsRunnable(EMPTY, ops) && Refines(Run(FRESH, ops), AbsRun(EMPTY, ops))
    ensures Replies(FRESH, ops) == AbsReplies(EMPTY, ops)
  {
    FreshRefines();
    RunRefines(FRESH, EMPTY, ops);
  }
}
