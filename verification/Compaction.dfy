/**
  What a finished unlink means to later calls: every slot number may have changed, but lookups
  of other names, and the order in which they are listed, have not.
*/
module Compaction {
  import opened Layout
  import opened Store
  import opened Unlinking

  /** What a first-match scan for the name yields. */
  function Entry(dir: seq<Dentry>, name: Name): Option<Dentry> {
    var i := Find(dir, name);
    if i < |dir| then Some(dir[i]) else None
  }

  lemma EntryAppend(a: seq<Dentry>, b: seq<Dentry>, name: Name)
    ensures Entry(a + b, name) == if Entry(a, name).Some? then Entry(a, name) else Entry(b, name)
  {
    var i, j := Find(a, name), Find(b, name);
    FindIs(a + b, name, if i < |a| then i else |a| + j);
  }

  lemma {:induction false} EntryKept(dir: seq<Dentry>, gone: FileName, name: FileName)
    ensures Entry(Kept(dir, gone), name) == if name == gone then None else Entry(dir, name)
  {
    if dir != [] {
      var init, last := dir[..|dir| - 1], dir[|dir| - 1];
      EntryKept(init, gone, name);
      assert dir == init + [last];
      EntryAppend(init, [last], name);
      if Keeps(last, gone) {
        EntryAppend(Kept(init, gone), [last], name);
      } else {
        assert Kept(init, gone) + [] == Kept(init, gone);
      }
    }
  }

  lemma EntryCompacted(kept: seq<Dentry>, name: FileName)
    ensures Entry(Compacted(kept), name) == Entry(kept, name)
  {
    if kept != [] {
      FindIs([FREE, FREE], name, 2);
      EntryAppend([FREE, FREE], kept, name);
    }
  }

  /** First-match lookup after the rebuild: the removed name is gone, any other finds the same record. */
  lemma LookupSurvives(dir: seq<Dentry>, gone: FileName, name: FileName)
    ensures Entry(Compacted(Kept(dir, gone)), name) == if name == gone then None else Entry(dir, name)
  {
    EntryKept(dir, gone, name);
    EntryCompacted(Kept(dir, gone), name);
  }

  /** A listing without the lines for one name. */
  function Dropped(l: seq<(Name, Stat)>, gone: Name): seq<(Name, Stat)> {
    if l == [] then [] else (if l[0].0 == gone then [] else [l[0]]) + Dropped(l[1..], gone)
  }

  lemma {:induction false} DroppedAppend(a: seq<(Name, Stat)>, b: seq<(Name, Stat)>, gone: Name)
    ensures Dropped(a + b, gone) == Dropped(a, gone) + Dropped(b, gone)
  {
    if a == [] {
      assert a + b == b;
    } else {
      assert (a + b)[1..] == a[1..] + b;
      DroppedAppend(a[1..], b, gone);
    }
  }

  lemma {:induction false} ListingAppend(a: seq<Dentry>, b: seq<Dentry>, inodes: seq<Stat>)
    requires Sized(a, inodes) && Sized(b, inodes)
    ensures Sized(a + b, inodes)
    ensures Listing(a + b, inodes) == Listing(a, inodes) + Listing(b, inodes)
  {
    if a == [] {
      assert a + b == b;
    } else {
      var rest := a[1..];
      ListingAppend(rest, b, inodes);
      assert (a + b)[1..] == rest + b;
      var l, m, r := Line(a[0], inodes), Listing(rest, inodes), Listing(b, inodes);
      assert Sized(a + b, inodes);
      assert Listing(a + b, inodes) == l + (m + r);
      assert l + (m + r) == (l + m) + r;
    }
  }

  lemma {:induction false} ListingKept(dir: seq<Dentry>, inodes: seq<Stat>, gone: FileName)
    requires Sized(dir, inodes) && NamesMatchInums(dir)
    ensures Sized(Kept(dir, gone), inodes)
    ensures Listing(Kept(dir, gone), inodes) == Dropped(Listing(dir, inodes), gone)
  {
    if dir != [] {
      var init, last := dir[..|dir| - 1], dir[|dir| - 1];
      ListingKept(init, inodes, gone);
      assert dir == init + [last];
      ListingSnoc(init, last, inodes, gone);
    }
  }

  lemma ListingSnoc(init: seq<Dentry>, last: Dentry, inodes: seq<Stat>, gone: FileName)
    requires Sized(init, inodes) && last.inum < |inodes| && (last.name == [] <==> last.inum == 0)
    requires Sized(Kept(init, gone), inodes)
    ensures Sized(init + [last], inodes)
    ensures Dropped(Listing(init + [last], inodes), gone)
         == Dropped(Listing(init, inodes), gone) + if Keeps(last, gone) then Listing([last], inodes) else []
    ensures Kept(init + [last], gone) == Kept(init, gone) + if Keeps(last, gone) then [last] else []
    ensures Sized(Kept(init + [last], gone), inodes)
    ensures Listing(Kept(init + [last], gone), inodes)
         == Listing(Kept(init, gone), inodes) + if Keeps(last, gone) then Listing([last], inodes) else []
  {
    ListingAppend(init, [last], inodes);
    DroppedAppend(Listing(init, inodes), Listing([last], inodes), gone);
    ListingOne(last, inodes, gone);
    assert (init + [last])[..|init|] == init;
    if Keeps(last, gone) {
      ListingAppend(Kept(init, gone), [last], inodes);
    } else {
      assert Kept(init, gone) + [] == Kept(init, gone);
      assert Listing(Kept(init, gone), inodes) + [] == Listing(Kept(init, gone), inodes);
    }
  }

  lemma ListingOne(e: Dentry, inodes: seq<Stat>, gone: FileName)
    requires e.inum < |inodes| && (e.name == [] <==> e.inum == 0)
    ensures Listing([e], inodes) == if Live(e) then [(e.name, inodes[e.inum])] else []
    ensures Dropped(Listing([e], inodes), gone) == if Keeps(e, gone) then Listing([e], inodes) else []
  {
    assert [e][1..] == [];
    var l := Line(e, inodes);
    assert Listing([e], inodes) == l + [];
    if Live(e) {
      assert l[1..] == [];
    }
  }

  /** The listing after the rebuild is the old listing, in its old order, without the removed name. */
  lemma ListingSurvives(s: Store, gone: FileName)
    requires WellFormed(s)
    ensures var dir' := Compacted(Kept(s.dir, gone));
            Sized(dir', s.inodes) && Listing(dir', s.inodes) == Dropped(Listing(s.dir, s.inodes), gone)
  {
    ListingKept(s.dir, s.inodes, gone);
    var kept := Kept(s.dir, gone);
    if kept != [] {
      assert Live(s.dir[0]) || s.dir[0].inum < |s.inodes|;
      ListingAppend([FREE, FREE], kept, s.inodes);
      assert Listing([FREE, FREE], s.inodes) == [] + Listing([FREE], s.inodes);
    }
  }
}
