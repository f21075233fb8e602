/**
  The RAM file system: the global map of files, changed in place, its refinement to plain byte
  strings, and the runs on which that refinement holds.
*/
module RamFs {
  import opened Bytes
  import opened System
  import opened RamFile

  type Volume = map<string, Cells>

  /** A leading slash is dropped, and only one. */
  function StripLeadingSlash(filename: string): string {
    if |filename| > 0 && filename[0] == '/' then filename[1..] else filename
  }

  /** A path with a leading slash leads to the name behind it, and any other path to itself. */
  lemma PathsLead(n: string)
    ensures StripLeadingSlash("/" + n) == n
    ensures n == "" || n[0] != '/' ==> StripLeadingSlash(n) == n
  {
  }

  /** Two paths with a leading slash lead to one file exactly when they are the same. */
  lemma PathsApart(a: string, b: string)
    requires a != "" && a[0] == '/' && b != "" && b[0] == '/'
    ensures StripLeadingSlash(a) == StripLeadingSlash(b) <==> a == b
  {
    assert a == ['/'] + a[1..] && b == ['/'] + b[1..];
  }

  /** `(mode & S_IFREG) != 0` */
  predicate HasRegularBit(mode: nat) {
    mode / S_IFREG % 2 == 1
  }

  /**
    The bit that is tested is the highest of the file-type digit, which a regular file has, and so have
    symbolic links and sockets.
  */
  lemma RegularBitIs(high: nat, kind: nat, low: nat)
    requires kind < 16 && low < 0x1000
    ensures HasRegularBit(high * 0x10000 + kind * 0x1000 + low) <==> kind >= 8
  {
    var mode := high * 0x10000 + kind * 0x1000 + low;
    assert mode / 0x8000 == 2 * high + kind / 8;
  }

  // ---- one request ----

  datatype Request =
    | Create(name: string, mode: nat)
    | Unlink(name: string)
    | ReadFile(name: string, size: nat, off: nat)
    | WriteFile(name: string, data: seq<byte>, off: nat)
    | Truncate(name: string, length: nat)

  datatype Reply = Reply(rc: int, data: seq<byte>)

  function Step(v: Volume, q: Request): (Volume, Reply) {
    match q
    case Unlink(name) => (v - {name}, Reply(0, []))
    case Create(name, mode) =>
      if name in v then (v, Reply(-EEXIST, []))
      else if !HasRegularBit(mode) then (v, Reply(-EINVAL, []))
      else (v[name := map[]], Reply(0, []))
    case ReadFile(name, size, off) =>
      if name !in v then (v, Reply(-ENOENT, []))
      else
        var (m, rc, d) := Read(v[name], size, off);
        (v[name := m], Reply(rc, d))
    case WriteFile(name, data, off) =>
      if name !in v then (v, Reply(-ENOENT, []))
      else (v[name := Written(v[name], off, data)], Reply(|data|, []))
    case Truncate(name, length) =>
      if name !in v then (v, Reply(-ENOENT, []))
      else (v[name := Truncated(v[name], length)], Reply(-EINVAL, []))
  }

  predicate Untouched(v: Volume, w: Volume, n: string) {
    (n in w <==> n in v) && (n in v ==> w[n] == v[n])
  }

  /** A request changes no file but the one it names. */
  lemma OthersUntouched(v: Volume, q: Request, n: string)
    requires n != q.name
    ensures Untouched(v, Step(v, q).0, n)
  {
  }

  /** A request on a file that is not there, other than its creation, does nothing. */
  lemma MissingAnswers(v: Volume, q: Request)
    requires q.name !in v && !q.Create?
    ensures Step(v, q) == (v, Reply(if q.Unlink? then 0 else -ENOENT, []))
  {
    assert v - {q.name} == v;
  }

  /** A creation answers EEXIST before it looks at the mode, and EINVAL before it makes a file, which is empty. */
  lemma CreateAnswers(v: Volume, name: string, mode: nat)
    ensures var (w, r) := Step(v, Create(name, mode));
            && r.data == []
            && (name in v ==> w == v && r.rc == -EEXIST)
            && (name !in v && !HasRegularBit(mode) ==> w == v && r.rc == -EINVAL)
            && (name !in v && HasRegularBit(mode) ==> name in w && w[name] == map[] && r.rc == 0)
  {
  }

  /** On a file that is there, with holes or without, these are the answers and what every offset holds afterwards. */
  lemma FileAnswers(v: Volume, q: Request, k: nat)
    requires q.name in v && !q.Create?
    ensures var (w, r) := Step(v, q);
            && (q.Unlink? ==> q.name !in w && r == Reply(0, []))
            && (q.WriteFile? ==>
                  && q.name in w && r == Reply(|q.data|, [])
                  && (k in w[q.name] <==> k in v[q.name] || q.off <= k < q.off + |q.data|)
                  && Content(w[q.name], k)
                     == if q.off <= k < q.off + |q.data| then q.data[k - q.off] else Content(v[q.name], k))
            && (q.Truncate? ==>
                  var size := |v[q.name]|;
                  && q.name in w && r == Reply(-EINVAL, [])
                  && (k in w[q.name] <==>
                        if q.length >= size then k in v[q.name] || size <= k < q.length
                        else k in v[q.name] && (q.length in v[q.name] ==> k < q.length))
                  && (k in w[q.name] ==>
                        Content(w[q.name], k) == if size <= k < q.length then 0 else Content(v[q.name], k)))
            && (q.ReadFile? ==>
                  var size := |v[q.name]|;
                  && q.name in w && Content(w[q.name], k) == Content(v[q.name], k)
                  && |r.data| == (if q.off >= size then 0 else if q.off + q.size <= size then q.size else size - q.off)
                  && r.rc == (if q.off >= size then -EINVAL else |r.data|)
                  && (k < |r.data| ==> r.data[k] == Content(v[q.name], q.off + k))
                  && (k in w[q.name] <==> k in v[q.name] || q.off <= k < q.off + |r.data|))
  {
    if q.WriteFile? {
      WrittenIs(v[q.name], q.off, q.data);
      assert k in Step(v, q).0[q.name] <==> k in Step(v, q).0[q.name].Keys;
    } else if q.Truncate? {
      TruncatedKeys(v[q.name], q.length, k);
      if q.length >= |v[q.name]| { GrowContent(v[q.name], q.length, k); }
    } else if q.ReadFile? {
      ReadSparse(v[q.name], q.size, q.off);
    }
  }

  // ---- the same, on byte strings ----

  type Plain = map<string, seq<byte>>

  function PlainStep(p: Plain, q: Request): (Plain, Reply) {
    match q
    case Unlink(name) => (p - {name}, Reply(0, []))
    case Create(name, mode) =>
      if name in p then (p, Reply(-EEXIST, []))
      else if !HasRegularBit(mode) then (p, Reply(-EINVAL, []))
      else (p[name := []], Reply(0, []))
    case ReadFile(name, size, off) =>
      if name !in p then (p, Reply(-ENOENT, []))
      else
        var d := ReadAt(p[name], off, size);
        (p, if off < |p[name]| then Reply(|d|, d) else Reply(-EINVAL, []))
    case WriteFile(name, data, off) =>
      if name !in p then (p, Reply(-ENOENT, []))
      else (p[name := WriteAt(p[name], off, data)], Reply(|data|, []))
    case Truncate(name, length) =>
      if name !in p then (p, Reply(-ENOENT, []))
      else (p[name := Resized(p[name], length)], Reply(-EINVAL, []))
  }

  ghost predicate AllDense(v: Volume) {
    forall n | n in v :: Dense(v[n])
  }

  ghost predicate Depicts(v: Volume, p: Plain) {
    v.Keys == p.Keys && forall n | n in v :: Dense(v[n]) && Image(v[n]) == p[n]
  }

  /** A write that would leave a hole. */
  predicate LeavesHole(v: Volume, q: Request) {
    q.WriteFile? && q.name in v && q.data != [] && q.off > |v[q.name]|
  }

  /** One file replaced on both sides. */
  lemma DepictsUpdate(v: Volume, p: Plain, name: string, m: Cells)
    requires Depicts(v, p) && Dense(m)
    ensures AllDense(v[name := m]) && Depicts(v[name := m], p[name := Image(m)])
  {
  }

  lemma WriteDepictsIff(v: Volume, p: Plain, q: Request)
    requires Depicts(v, p) && q.WriteFile? && q.name in v
    ensures AllDense(Step(v, q).0) <==> !LeavesHole(v, q)
    ensures !LeavesHole(v, q) ==>
              Depicts(Step(v, q).0, PlainStep(p, q).0) && Step(v, q).1 == PlainStep(p, q).1
  {
    var m := Written(v[q.name], q.off, q.data);
    WriteDenseIff(v[q.name], q.off, q.data);
    if Dense(m) {
      DepictsUpdate(v, p, q.name, m);
    } else {
      assert Step(v, q).0[q.name] == m;
    }
  }

  lemma OtherDepicts(v: Volume, p: Plain, q: Request)
    requires Depicts(v, p) && !q.WriteFile?
    ensures AllDense(Step(v, q).0)
    ensures Depicts(Step(v, q).0, PlainStep(p, q).0) && Step(v, q).1 == PlainStep(p, q).1
  {
    match q
    case ReadFile(name, size, off) =>
      if name in v {
        ReadDense(v[name], size, off);
        assert v[name := v[name]] == v;
      }
    case Truncate(name, length) =>
      if name in v {
        TruncateDense(v[name], length);
        DepictsUpdate(v, p, name, Truncated(v[name], length));
      }
    case Create(name, mode) =>
      if name !in v && HasRegularBit(mode) {
        DenseIs(map[], 0);
        assert Image(map[]) == [];
        DepictsUpdate(v, p, name, map[]);
      }
    case Unlink(name) =>
  }

  /** A request keeps every file dense exactly when it is not such a write, and then it is the byte-string request. */
  lemma StepDepictsIff(v: Volume, p: Plain, q: Request)
    requires Depicts(v, p)
    ensures AllDense(Step(v, q).0) <==> !LeavesHole(v, q)
    ensures !LeavesHole(v, q) ==>
              Depicts(Step(v, q).0, PlainStep(p, q).0) && Step(v, q).1 == PlainStep(p, q).1
  {
    if q.WriteFile? {
      if q.name in v { WriteDepictsIff(v, p, q); }
    } else {
      OtherDepicts(v, p, q);
    }
  }

  function Run(v: Volume, qs: seq<Request>): (Volume, seq<Reply>)
    decreases |qs|
  {
    if qs == [] then (v, [])
    else
      var r := Step(v, qs[0]);
      var t := Run(r.0, qs[1..]);
      (t.0, [r.1] + t.1)
  }

  function PlainRun(p: Plain, qs: seq<Request>): (Plain, seq<Reply>)
    decreases |qs|
  {
    if qs == [] then (p, [])
    else
      var r := PlainStep(p, qs[0]);
      var t := PlainRun(r.0, qs[1..]);
      (t.0, [r.1] + t.1)
  }

  /** No request of the run is a write that leaves a hole. */
  predicate Holeless(v: Volume, qs: seq<Request>)
    decreases |qs|
  {
    qs == [] || (!LeavesHole(v, qs[0]) && Holeless(Step(v, qs[0]).0, qs[1..]))
  }

  ghost predicate DenseThroughout(v: Volume, qs: seq<Request>)
    decreases |qs|
  {
    AllDense(v) && (qs == [] || DenseThroughout(Step(v, qs[0]).0, qs[1..]))
  }

  /** A run keeps all files dense throughout exactly when no write in it leaves a hole. */
  lemma {:induction false} RunDenseIff(v: Volume, p: Plain, qs: seq<Request>)
    requires Depicts(v, p)
    ensures DenseThroughout(v, qs) <==> Holeless(v, qs)
    decreases |qs|
  {
    if qs != [] {
      StepDepictsIff(v, p, qs[0]);
      if !LeavesHole(v, qs[0]) {
        RunDenseIff(Step(v, qs[0]).0, PlainStep(p, qs[0]).0, qs[1..]);
      }
    }
  }

  /** And then state and every reply are those of the file system on byte strings. */
  lemma {:induction false} RunDepicts(v: Volume, p: Plain, qs: seq<Request>)
    requires Depicts(v, p) && Holeless(v, qs)
    ensures Depicts(Run(v, qs).0, PlainRun(p, qs).0)
    ensures Run(v, qs).1 == PlainRun(p, qs).1
    decreases |qs|
  {
    if qs != [] {
      StepDepictsIff(v, p, qs[0]);
      RunDepicts(Step(v, qs[0]).0, PlainStep(p, qs[0]).0, qs[1..]);
    }
  }

  // ---- the program ----

  const S_IFDIR := 0x4000
  const S_IFREG := 0x8000
  /** 0777, which has no bit in common with the two. */
  const ALL := 0x1FF

  datatype Attributes = Attributes(mode: nat, nlink: nat, uid: nat, gid: nat, size: nat,
                                   atime: int, mtime: int, ctime: int)

  /** A request on a path with a leading slash leaves every file alone but the one behind the slash. */
  ghost predicate Spared(v: Volume, w: Volume, path: string) {
    path != "" && path[0] == '/' ==> forall n | n != path[1..] :: Untouched(v, w, n)
  }

  lemma StepSpares(v: Volume, q: Request, path: string)
    requires q.name == StripLeadingSlash(path)
    ensures Spared(v, Step(v, q).0, path)
  {
    forall n | n != q.name ensures Untouched(v, Step(v, q).0, n) {
      OthersUntouched(v, q, n);
    }
  }

  class RamFs {
    var files: Volume

    constructor ()
      ensures files == map[]
    {
      files := map[];
    }

    /** `files[filename][k] = b` */
    method SetCell(filename: string, k: nat, b: byte)
      requires filename in files
      modifies this
      ensures filename in files
      ensures files == old(files)[filename := Set(old(files)[filename], k, b)]
    {
      files := files[filename := Set(files[filename], k, b)];
    }

    /** The root directory is always there; whatever the outcome, owner and times are filled in. */
    method Getattr(path: string, uid: nat, gid: nat, now: int) returns (rc: int, st: Attributes)
      ensures rc == if path == "/" || StripLeadingSlash(path) in files then 0 else -ENOENT
      ensures st.uid == uid && st.gid == gid && st.atime == st.mtime == st.ctime == now
      ensures path == "/" ==> st.mode == S_IFDIR + ALL && st.nlink == 2 && st.size == 0
      ensures path != "/" && rc == 0 ==>
                st.mode == S_IFREG + ALL && st.nlink == 1 && st.size == |files[StripLeadingSlash(path)]|
      ensures rc != 0 ==> st.mode == 0 && st.nlink == 0 && st.size == 0
    {
      var filename := StripLeadingSlash(path);
      rc := 0;
      st := Attributes(0, 0, uid, gid, 0, now, now, now);
      if path == "/" {
        st := st.(mode := S_IFDIR + ALL, nlink := 2);
      } else if filename in files {
        st := st.(mode := S_IFREG + ALL, nlink := 1, size := |files[filename]|);
      } else {
        rc := -ENOENT;
      }
    }

    /** `for i: buf[i] = file[offset + i]` */
    method ReadLoop(filename: string, buf: array<byte>, n: nat, offset: nat)
      requires filename in files && n <= buf.Length
      modifies this, buf
      ensures files == old(files)[filename := Touched(old(files)[filename], offset, offset + n)]
      ensures forall k | 0 <= k < n :: buf[k] == Content(old(files)[filename], offset + k)
      ensures buf[n..] == old(buf[n..])
    {
      ghost var m := files[filename];
      for i := 0 to n
        invariant files == old(files)[filename := Touched(m, offset, offset + i)]
        invariant forall k | 0 <= k < i :: buf[k] == Content(m, offset + k)
        invariant buf[i..] == old(buf[i..])
      {
        TouchedIs(m, offset, offset + i);
        if offset + i !in files[filename] {
          SetCell(filename, offset + i, 0);
        }
        ghost var rest := buf[i..];
        buf[i] := files[filename][offset + i];
        assert buf[i + 1..] == rest[1..] == old(buf[i..])[1..] == old(buf[i + 1..]);
      }
    }

    /** The caller's buffer has room for what it asks; offsets stay in range of an `int`. */
    method Read(path: string, buf: array<byte>, size: nat, offset: nat) returns (rc: int)
      requires size <= buf.Length && offset + size <= INT_MAX
      modifies this, buf
      ensures var r := Step(old(files), ReadFile(StripLeadingSlash(path), size, offset));
              && files == r.0 && rc == r.1.rc
              && |r.1.data| <= size && buf[..] == r.1.data + old(buf[..])[|r.1.data|..]
      ensures Spared(old(files), files, path)
    {
      StepSpares(files, ReadFile(StripLeadingSlash(path), size, offset), path);
      var filename := StripLeadingSlash(path);
      ghost var before := buf[..];
      if filename !in files { return -ENOENT; }
      var len := |files[filename]|;
      if offset < len {
        rc := if offset + size > len then len - offset else size;
        ReadLoop(filename, buf, rc, offset);
        assert buf[..] == buf[..rc] + buf[rc..];
      } else {
        assert files == files[filename := files[filename]];
        rc := -EINVAL;
      }
    }

    method Write(path: string, data: seq<byte>, offset: nat) returns (rc: int)
      requires offset + |data| <= INT_MAX
      modifies this
      ensures var r := Step(old(files), WriteFile(StripLeadingSlash(path), data, offset));
              files == r.0 && rc == r.1.rc
      ensures Spared(old(files), files, path)
    {
      StepSpares(files, WriteFile(StripLeadingSlash(path), data, offset), path);
      var filename := StripLeadingSlash(path);
      if filename !in files { return -ENOENT; }
      ghost var m := files[filename];
      for i := 0 to |data|
        invariant files == old(files)[filename := Written(m, offset, data[..i])]
      {
        WriteNext(m, offset, data[..i], data[i]);
        assert data[..i + 1] == data[..i] + [data[i]];
        SetCell(filename, offset + i, data[i]);
      }
      assert data[..|data|] == data;
      rc := |data|;
    }

    method Unlink(pathname: string) returns (rc: int)
      modifies this
      ensures var r := Step(old(files), Request.Unlink(StripLeadingSlash(pathname)));
              files == r.0 && rc == r.1.rc
      ensures Spared(old(files), files, pathname)
    {
      StepSpares(files, Request.Unlink(StripLeadingSlash(pathname)), pathname);
      files := files - {StripLeadingSlash(pathname)};
      rc := 0;
    }

    method Create(path: string, mode: nat) returns (rc: int)
      modifies this
      ensures var r := Step(old(files), Request.Create(StripLeadingSlash(path), mode));
              files == r.0 && rc == r.1.rc
      ensures Spared(old(files), files, path)
    {
      StepSpares(files, Request.Create(StripLeadingSlash(path), mode), path);
      var filename := StripLeadingSlash(path);
      if filename in files { return -EEXIST; }
      if !HasRegularBit(mode) { return -EINVAL; }
      files := files[filename := map[]];
      rc := 0;
    }

    /** `for i = file.size()..length: file[i] = 0` */
    method GrowLoop(filename: string, length: nat) returns (ghost zeros: seq<byte>)
      requires filename in files && |files[filename]| <= length
      modifies this
      ensures var m := old(files)[filename];
              && |zeros| == length - |m| && (forall k | 0 <= k < |zeros| :: zeros[k] == 0)
              && files == old(files)[filename := Written(m, |m|, zeros)]
    {
      var size := |files[filename]|;
      ghost var m := files[filename];
      zeros := [];
      for i := size to length
        invariant |zeros| == i - size && forall k | 0 <= k < |zeros| :: zeros[k] == 0
        invariant files == old(files)[filename := Written(m, size, zeros)]
      {
        WriteNext(m, size, zeros, 0);
        zeros := zeros + [0];
        SetCell(filename, i, 0);
      }
    }

    method Truncate(path: string, length: nat) returns (rc: int)
      requires length <= INT_MAX
      modifies this
      ensures var r := Step(old(files), Request.Truncate(StripLeadingSlash(path), length));
              files == r.0 && rc == r.1.rc
      ensures Spared(old(files), files, path)
    {
      StepSpares(files, Request.Truncate(StripLeadingSlash(path), length), path);
      var filename := StripLeadingSlash(path);
      if filename !in files { return -ENOENT; }
      if |files[filename]| > length {
        var file: Cells := files[filename];
        if length in file {
          file := map k: nat | k in file && k < length :: file[k];
        }
        assert file == Truncated(files[filename], length);
        files := files[filename := file];
      } else {
        ghost var size := |files[filename]|;
        ghost var zeros := GrowLoop(filename, length);
        assert zeros == Zeros(length - size);
      }
      rc := -EINVAL;
    }
  }
}
