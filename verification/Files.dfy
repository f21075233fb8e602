/**
  The file system SAFS means to be: names bound to inode numbers, inodes carrying a record and
  bytes. No tables, slots, storage names or scans.
*/
module Files {
  import opened Bytes
  import opened Layout
  import opened Store
  import opened System
  import opened Sessions

  datatype Node = Node(meta: Stat, data: seq<byte>)

  datatype Fs = Fs(names: map<Name, nat>, nodes: map<nat, Node>, next: counter)

  const EMPTY := Fs(map[], map[], 1)

  ghost predicate Closed(a: Fs) {
    forall n | n in a.names :: a.names[n] in a.nodes
  }

  function Apply(node: Node, op: Op): (Node, Reply)
    requires OnOneInode(op)
    requires op.DoWrite? ==> op.off + |op.buf| <= OFF_MAX
    requires op.DoTruncate? ==> op.size < OFF_MAX
  {
    var (m, d) := (node.meta, node.data);
    match op
    case DoChmod(_, mode) => (Node(m.(mode := mode), d), Reply(0, []))
    case DoUtimens(_, atime, mtime) => (Node(m.(atime := atime, mtime := mtime), d), Reply(0, []))
    case DoWrite(_, buf, off, atime, mtime) =>
      (Node(m.(size := off + |buf|, atime := atime, mtime := mtime), WriteAt(d, off, buf)), Reply(|buf|, []))
    case DoTruncate(_, size, _, _) =>
      (Node(m.(size := size), if m.size < size then WriteAt(d, size, [0]) else d), Reply(0, []))
    case DoOpen(_, wronly, trunc) =>
      if wronly && !Writable(m.mode) then (node, Reply(-EPERM, []))
      else (Node(if trunc then m.(size := 0) else m, d), Reply(0, []))
    case DoRead(_, len, off, now) =>
      var r := ReadAt(d, off, len);
      (Node(m.(atime := now), d), Reply(|r|, r))
  }

  function Target(op: Op): FileName {
    match op
    case DoLink(from, _) => from
    case DoRename(from, _) => from
    case _ => op.name
  }

  function Next(a: Fs, op: Op): (Fs, Reply)
    requires Closed(a) && InRange(a.next, op)
  {
    var n := Target(op);
    if op.DoMknod? then
      if !Regular(op.mode) then (a, Reply(-EPERM, []))
      else
        (Fs(a.names[n := a.next],
            a.nodes[a.next := Node(NewStat(op.mode, op.uid, op.gid, op.now, a.next), [])],
            a.next + 1), Reply(0, []))
    else if n !in a.names then
      (a, Reply(if op.DoUnlink? then 0 else -ENOENT, []))
    else
      var k := a.names[n];
      var node := a.nodes[k];
      if op.DoLink? then
        (a.(names := a.names[op.to := k], nodes := a.nodes[k := node.(meta := Relink(node.meta, 1))]), Reply(0, []))
      else if op.DoRename? then
        (a.(names := (a.names - {n})[op.to := k]), Reply(0, []))
      else if op.DoUnlink? then
        var meta := Relink(node.meta, -1);
        (a.(names := a.names - {n},
            nodes := if meta.nlink == 0 then a.nodes - {k} else a.nodes[k := node.(meta := meta)]), Reply(0, []))
      else
        var (node', r) := Apply(node, op);
        (a.(nodes := a.nodes[k := node']), r)
  }
}
