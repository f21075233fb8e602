/**
  One file of the RAM file system: a map from byte offset to byte, whose length is the number of
  its keys. Reading goes through `operator[]`, which inserts a zero byte at a missing key, so on a
  file with holes even reading changes the state.
*/
module RamFile {
  import opened Bytes
  import opened System

  type Cells = map<nat, byte>

  /** `file[k] = b` */
  function Set(m: Cells, k: nat, b: byte): Cells {
    m[k := b]
  }

  // ---- sets of offsets ----

  predicate Reaches(lo: nat, k: nat) {
    lo <= k
  }

  function Range(lo: nat, hi: nat): (r: set<nat>)
    ensures forall k :: k in r <==> lo <= k < hi
  {
    set k: nat | k < hi && Reaches(lo, k)
  }

  lemma {:induction false} RangeSize(lo: nat, hi: nat)
    requires lo <= hi
    ensures |Range(lo, hi)| == hi - lo
  {
    if lo < hi {
      RangeSize(lo, hi - 1);
      assert Range(lo, hi) == Range(lo, hi - 1) + {hi - 1};
    }
  }

  lemma SubsetSize<T>(a: set<T>, b: set<T>)
    requires a <= b
    ensures |a| <= |b|
    ensures |a| == |b| ==> a == b
  {
    assert b == a + (b - a);
    assert a !! (b - a);
    assert |b| == |a| + |b - a|;
  }

  // ---- the four operations, on one file ----

  /** `for i: file[offset + i] = data[i]` */
  function Written(m: Cells, off: nat, data: seq<byte>): Cells {
    if data == [] then m
    else
      var n := |data| - 1;
      Set(Written(m, off, data[..n]), off + n, data[n])
  }

  /** The value `operator[]` gives: the byte stored, or the zero byte it inserts. */
  function Content(m: Cells, k: nat): byte {
    if k in m then m[k] else 0
  }

  /** `for i: ... = file[offset + i]` for offsets lo..hi, where `operator[]` inserts what is missing. */
  function Touched(m: Cells, lo: nat, hi: nat): Cells {
    if hi <= lo then m
    else
      var t := Touched(m, lo, hi - 1);
      if hi - 1 in t then t else Set(t, hi - 1, 0)
  }

  /** After the write loop: the written offsets are keys, and hold the data; the rest is as it was. */
  lemma {:induction false} WrittenIs(m: Cells, off: nat, data: seq<byte>)
    ensures Written(m, off, data).Keys == m.Keys + Range(off, off + |data|)
    ensures forall k: nat :: Content(Written(m, off, data), k)
                          == if off <= k < off + |data| then data[k - off] else Content(m, k)
  {
    if data == [] {
      assert m.Keys + Range(off, off) == m.Keys;
    } else {
      var n := |data| - 1;
      WrittenIs(m, off, data[..n]);
      var w := Written(m, off, data[..n]);
      assert Range(off, off + n + 1) == Range(off, off + n) + {off + n};
      forall k: nat ensures Content(Written(m, off, data), k) == if k == off + n then data[n] else Content(w, k) {}
      assert Written(m, off, data).Keys == Written(m, off, data[..n]).Keys + {off + n};
    }
  }

  /** After the read loop: the offsets read are keys, and no offset holds anything else than before. */
  lemma {:induction false} TouchedIs(m: Cells, lo: nat, hi: nat)
    ensures Touched(m, lo, hi).Keys == m.Keys + Range(lo, hi)
    ensures forall k: nat :: Content(Touched(m, lo, hi), k) == Content(m, k)
  {
    if hi <= lo {
      assert m.Keys + Range(lo, hi) == m.Keys;
    } else {
      TouchedIs(m, lo, hi - 1);
      assert Range(lo, hi) == Range(lo, hi - 1) + {hi - 1};
      assert Touched(m, lo, hi).Keys == Touched(m, lo, hi - 1).Keys + {hi - 1};
    }
  }

  /** Two files with the same keys holding the same are the same. */
  lemma SameCells(m: Cells, m': Cells)
    requires m.Keys == m'.Keys && forall k: nat :: Content(m, k) == Content(m', k)
    ensures m == m'
  {
    forall k | k in m ensures k in m' && m[k] == m'[k] {
      assert Content(m, k) == Content(m', k);
    }
  }

  /** The bytes at offsets lo..hi, missing ones as zero. */
  function Span(m: Cells, lo: nat, hi: nat): (s: seq<byte>)
    requires lo <= hi
    ensures |s| == hi - lo && forall i | 0 <= i < |s| :: s[i] == Content(m, lo + i)
  {
    if lo == hi then [] else Span(m, lo, hi - 1) + [Content(m, hi - 1)]
  }

  /** How many bytes a read may return: the request, cut at the number of keys. */
  function Clip(m: Cells, size: nat, off: nat): nat
    requires off < |m|
  {
    if off + size > |m| then |m| - off else size
  }

  function Read(m: Cells, size: nat, off: nat): (r: (Cells, int, seq<byte>)) {
    if off < |m| then
      var n := Clip(m, size, off);
      (Touched(m, off, off + n), n, Span(m, off, off + n))
    else (m, -EINVAL, [])
  }

  /**
    Shrinking erases from the key `length` to the end of the map, which is nothing when that key is
    missing; growing stores zeros from the current size on.
  */
  function Truncated(m: Cells, length: nat): Cells {
    if |m| > length then
      if length in m then map k | k in m && k < length :: m[k] else m
    else Written(m, |m|, Zeros(length - |m|))
  }

  // ---- files without holes ----

  ghost predicate Dense(m: Cells) {
    forall k: nat :: k in m <==> k < |m|
  }

  function Image(m: Cells): (s: seq<byte>)
    ensures |s| == |m| && forall i | 0 <= i < |s| :: s[i] == Content(m, i)
  {
    Span(m, 0, |m|)
  }

  lemma DenseIs(m: Cells, n: nat)
    requires m.Keys == Range(0, n)
    ensures Dense(m) && |m| == n
  {
    RangeSize(0, n);
    assert |m| == |m.Keys|;
  }

  lemma DenseKeys(m: Cells)
    requires Dense(m)
    ensures m.Keys == Range(0, |m|)
  {
  }

  /** Pigeonhole: as many keys as offsets below a bound are all of those offsets. */
  lemma Packed(m: Cells, n: nat)
    requires m.Keys <= Range(0, n)
    ensures |m| <= n
    ensures |m| == n ==> Dense(m)
  {
    RangeSize(0, n);
    SubsetSize(m.Keys, Range(0, n));
    assert |m| == |m.Keys|;
  }

  lemma ImageInjective(m: Cells, m': Cells)
    requires Dense(m) && Dense(m') && Image(m) == Image(m')
    ensures m == m'
  {
    forall k | k in m || k in m' ensures k in m && k in m' && m[k] == m'[k] {
      assert Image(m)[k] == Image(m')[k];
    }
  }

  /** A write keeps a file dense exactly when it starts no later than the end, and is then a splice. */
  lemma WriteDenseIff(m: Cells, off: nat, data: seq<byte>)
    requires Dense(m)
    ensures Dense(Written(m, off, data)) <==> data == [] || off <= |m|
    ensures Dense(Written(m, off, data)) ==> Image(Written(m, off, data)) == WriteAt(Image(m), off, data)
  {
    if data == [] || off <= |m| {
      SpliceDense(m, off, data);
    } else {
      WrittenIs(m, off, data);
      GapNotDense(Written(m, off, data), |m|, off);
    }
  }

  lemma SpliceDense(m: Cells, off: nat, data: seq<byte>)
    requires Dense(m) && (data == [] || off <= |m|)
    ensures Dense(Written(m, off, data)) && Image(Written(m, off, data)) == WriteAt(Image(m), off, data)
  {
    var n := if data == [] then |m| else Max(|m|, off + |data|);
    SpliceKeys(m, off, data, n);
    DenseIs(Written(m, off, data), n);
    SpliceContent(m, off, data, Written(m, off, data));
  }

  lemma SpliceKeys(m: Cells, off: nat, data: seq<byte>, n: nat)
    requires Dense(m) && (data == [] || off <= |m|)
    requires n == if data == [] then |m| else Max(|m|, off + |data|)
    ensures Written(m, off, data).Keys == Range(0, n)
  {
    WrittenIs(m, off, data);
    DenseKeys(m);
  }

  lemma SpliceContent(m: Cells, off: nat, data: seq<byte>, w: Cells)
    requires Dense(m) && w == Written(m, off, data) && |w| == |WriteAt(Image(m), off, data)|
    ensures Image(w) == WriteAt(Image(m), off, data)
  {
    WrittenIs(m, off, data);
    ImageIs(w, WriteAt(Image(m), off, data));
  }

  lemma ImageIs(m: Cells, f: seq<byte>)
    requires |m| == |f| && forall i | 0 <= i < |f| :: Content(m, i) == f[i]
    ensures Image(m) == f
  {
  }

  /** A missing key below a present one. */
  lemma GapNotDense(m: Cells, hole: nat, k: nat)
    requires hole !in m && k in m && hole < k
    ensures !Dense(m)
  {
  }

  /** Reading a dense file changes nothing and returns the slice, cut at the end. */
  lemma ReadDense(m: Cells, size: nat, off: nat)
    requires Dense(m)
    ensures Read(m, size, off).0 == m
    ensures Read(m, size, off).2 == ReadAt(Image(m), off, size)
    ensures Read(m, size, off).1 == if off < |m| then |ReadAt(Image(m), off, size)| else -EINVAL
  {
    if off < |m| {
      var n := Clip(m, size, off);
      TouchDense(m, off, off + n);
      SpanDense(m, off, off + n);
      SliceOf(Image(m), off, size);
    }
  }

  lemma TouchDense(m: Cells, lo: nat, hi: nat)
    requires Dense(m) && hi <= |m|
    ensures Touched(m, lo, hi) == m
  {
    TouchedIs(m, lo, hi);
    assert m.Keys + Range(lo, hi) == m.Keys;
    SameCells(Touched(m, lo, hi), m);
  }

  lemma SpanDense(m: Cells, lo: nat, hi: nat)
    requires lo <= hi <= |m|
    ensures Span(m, lo, hi) == Image(m)[lo..hi]
  {
  }

  lemma SliceOf(f: seq<byte>, off: nat, n: nat)
    requires off <= |f|
    ensures ReadAt(f, off, n) == f[off..if off + n > |f| then |f| else off + n]
  {
  }

  lemma CutDense(m: Cells, length: nat)
    requires Dense(m) && length < |m|
    ensures Dense(Truncated(m, length)) && Image(Truncated(m, length)) == Resized(Image(m), length)
  {
    var m' := Truncated(m, length);
    assert m'.Keys == Range(0, length);
    DenseIs(m', length);
  }

  lemma PadDense(m: Cells, length: nat)
    requires Dense(m) && length >= |m|
    ensures Dense(Truncated(m, length)) && Image(Truncated(m, length)) == Resized(Image(m), length)
  {
    WriteDenseIff(m, |m|, Zeros(length - |m|));
    assert WriteAt(Image(m), |m|, Zeros(length - |m|)) == Resized(Image(m), length);
  }

  /** Truncating a dense file cuts it, or pads it with zeros, and keeps it dense. */
  lemma TruncateDense(m: Cells, length: nat)
    requires Dense(m)
    ensures Dense(Truncated(m, length)) && Image(Truncated(m, length)) == Resized(Image(m), length)
  {
    if length < |m| { CutDense(m, length); } else { PadDense(m, length); }
  }

  // ---- files with holes ----

  lemma SizeOfTouched(m: Cells, lo: nat, hi: nat)
    ensures |Touched(m, lo, hi)| == |m| + |Range(lo, hi) - m.Keys|
  {
    var m' := Touched(m, lo, hi);
    TouchedIs(m, lo, hi);
    assert m'.Keys == m.Keys + (Range(lo, hi) - m.Keys);
    assert |m'| == |m'.Keys| && |m| == |m.Keys|;
  }

  /**
    Reading any file keeps what every offset holds. A read that starts inside the size returns what was
    asked for, cut at the size, zeros for holes included; it adds exactly the offsets read to the keys,
    so the file grows by the holes among them, and is unchanged if there are none. Any other read
    answers EINVAL and changes nothing.
  */
  lemma ReadSparse(m: Cells, size: nat, off: nat)
    ensures var (m', rc, d) := Read(m, size, off);
            && (forall k: nat :: Content(m', k) == Content(m, k))
            && (off < |m| ==>
                  && rc == |d| == (if off + size <= |m| then size else |m| - off)
                  && (forall i | 0 <= i < |d| :: d[i] == Content(m, off + i))
                  && (forall k: nat :: k in m' <==> k in m || off <= k < off + |d|)
                  && |m'| == |m| + |Range(off, off + |d|) - m.Keys|
                  && (m' == m <==> Range(off, off + |d|) <= m.Keys))
            && (off >= |m| ==> m' == m && rc == -EINVAL && d == [])
  {
    if off < |m| {
      var hi := off + Clip(m, size, off);
      TouchedIs(m, off, hi);
      SizeOfTouched(m, off, hi);
      assert forall k: nat :: k in Touched(m, off, hi) <==> k in Touched(m, off, hi).Keys;
      if Range(off, hi) <= m.Keys {
        assert m.Keys + Range(off, hi) == m.Keys;
        SameCells(Touched(m, off, hi), m);
      }
    }
  }

  /** A read of the whole file, as its size says it is. */
  function ReadAll(m: Cells): Cells {
    Read(m, |m|, 0).0
  }

  /** Asking for more than the size gives the same. */
  lemma ReadAllIs(m: Cells, size: nat)
    requires size >= |m|
    ensures Read(m, size, 0).0 == ReadAll(m) == Touched(m, 0, |m|)
  {
  }

  ghost predicate Below(m: Cells, top: nat) {
    forall k | k in m :: k <= top
  }

  /** A whole-file read either finds the file dense and leaves it, or makes it longer, but not past its last key. */
  lemma ReadAllProgress(m: Cells, top: nat)
    requires Below(m, top)
    ensures ReadAll(m) == m <==> Dense(m)
    ensures !Dense(m) ==> |ReadAll(m)| > |m|
    ensures |m| <= top + 1
    ensures Below(ReadAll(m), top)
  {
    ReadAllIs(m, |m|);
    Packed(m, top + 1);
    TouchedIs(m, 0, |m|);
    SizeOfTouched(m, 0, |m|);
    var holes := Range(0, |m|) - m.Keys;
    if holes == {} {
      RangeSize(0, |m|);
      SubsetSize(Range(0, |m|), m.Keys);
      assert m.Keys == Range(0, |m|);
      SameCells(ReadAll(m), m);
    } else {
      var k :| k in holes;
      assert k < |m| && k !in m;
    }
  }

  function ReadTimes(m: Cells, n: nat): Cells
    decreases n
  {
    if n == 0 then m else ReadTimes(ReadAll(m), n - 1)
  }

  /**
    Repeated whole-file reads converge: after as many as there are offsets up to the last key beyond
    the current size, the file is the dense file up to that key, with zeros in what were holes.
  */
  lemma {:induction false} ReadsConverge(m: Cells, top: nat, n: nat)
    requires top in m && Below(m, top)
    requires n >= top + 1 - |m|
    ensures var r := ReadTimes(m, n);
            Dense(r) && |r| == top + 1 && forall k: nat :: Content(r, k) == Content(m, k)
    decreases n
  {
    ReadAllProgress(m, top);
    if Dense(m) {
      DenseEnds(m, top);
      ReadsStay(m, n);
    } else {
      ReadSparse(m, |m|, 0);
      ReadAllIs(m, |m|);
      if n == 0 {
        Packed(m, top + 1);
      } else {
        ReadsConverge(ReadAll(m), top, n - 1);
      }
    }
  }

  lemma DenseEnds(m: Cells, top: nat)
    requires Dense(m) && top in m && Below(m, top)
    ensures |m| == top + 1
  {
    assert top + 1 in m <==> top + 1 < |m|;
  }

  lemma {:induction false} ReadsStay(m: Cells, n: nat)
    requires Dense(m)
    ensures ReadTimes(m, n) == m
  {
    if n > 0 {
      ReadDense(m, |m|, 0);
      ReadsStay(m, n - 1);
    }
  }

  lemma KeyAbove(m: Cells, n: nat)
    requires n < |m|
    ensures exists k :: k in m && k >= n
  {
    if m.Keys <= Range(0, n) {
      Packed(m, n);
    } else {
      var k :| k in m.Keys && k !in Range(0, n);
    }
  }

  /** Shrinking removes what lies at and past the new length exactly when a byte is stored at that very offset. */
  lemma ShrinkIff(m: Cells, length: nat)
    requires length < |m|
    ensures (forall k | k in Truncated(m, length) :: k < length) <==> length in m
    ensures length !in m ==> Truncated(m, length) == m
    ensures length in m ==> forall k: nat | k < length :: Content(Truncated(m, length), k) == Content(m, k)
  {
    KeyAbove(m, length);
    if length !in m {
      var k :| k in m && k >= length;
      assert k in Truncated(m, length);
    }
  }

  /** Growing keeps what lies below the old size, and zeroes whatever was stored from there to the new one. */
  lemma GrowContent(m: Cells, length: nat, k: nat)
    requires |m| <= length
    ensures Content(Truncated(m, length), k) == if |m| <= k < length then 0 else Content(m, k)
  {
    WrittenIs(m, |m|, Zeros(length - |m|));
  }

  /** The keys after a truncation of any file: those before the cut, all of them, or the padded ones too. */
  lemma TruncatedKeys(m: Cells, length: nat, k: nat)
    ensures k in Truncated(m, length)
            <==> if length >= |m| then k in m || |m| <= k < length
                 else k in m && (length in m ==> k < length)
  {
    WrittenIs(m, |m|, if length >= |m| then Zeros(length - |m|) else []);
    if length >= |m| {
      assert k in Truncated(m, length) <==> k in Truncated(m, length).Keys;
    }
  }

  lemma CutSizeIff(m: Cells, length: nat)
    requires length < |m| && length in m
    ensures |Truncated(m, length)| == length <==> Range(0, length) <= m.Keys
  {
    var m' := Truncated(m, length);
    assert m'.Keys == m.Keys * Range(0, length);
    assert |m'| == |m'.Keys|;
    RangeSize(0, length);
    SubsetSize(m'.Keys, Range(0, length));
    if Range(0, length) <= m.Keys {
      assert m.Keys * Range(0, length) == Range(0, length);
    }
  }

  lemma PadSizeIff(m: Cells, length: nat)
    requires length >= |m|
    ensures |Truncated(m, length)| == length <==> m.Keys !! Range(|m|, length)
  {
    var zeros := Range(|m|, length);
    WrittenIs(m, |m|, Zeros(length - |m|));
    RangeSize(|m|, length);
    SubsetSize(zeros - m.Keys, zeros);
    assert Truncated(m, length).Keys == m.Keys + (zeros - m.Keys);
    assert |Truncated(m, length)| == |Truncated(m, length).Keys| && |m| == |m.Keys|;
  }

  /**
    On any file: the size asked for is the size got exactly when what is kept has no holes up to the
    cut, or nothing is in the way of the zeros.
  */
  lemma TruncateSizeIff(m: Cells, length: nat)
    ensures |Truncated(m, length)| == length
            <==> if length < |m| then length in m && Range(0, length) <= m.Keys else m.Keys !! Range(|m|, length)
  {
    if length >= |m| {
      PadSizeIff(m, length);
    } else if length in m {
      CutSizeIff(m, length);
    }
  }

  // ---- splitting requests ----

  function Concat(chunks: seq<seq<byte>>): seq<byte> {
    if chunks == [] then [] else chunks[0] + Concat(chunks[1..])
  }

  function WriteChunks(m: Cells, off: nat, chunks: seq<seq<byte>>): Cells
    decreases |chunks|
  {
    if chunks == [] then m else WriteChunks(Written(m, off, chunks[0]), off + |chunks[0]|, chunks[1..])
  }

  /** Consecutive writes of the pieces of a buffer leave the same file as one write of the buffer. */
  lemma {:induction false} SplitWrite(m: Cells, off: nat, chunks: seq<seq<byte>>)
    ensures WriteChunks(m, off, chunks) == Written(m, off, Concat(chunks))
    decreases |chunks|
  {
    if chunks != [] {
      SplitWrite(Written(m, off, chunks[0]), off + |chunks[0]|, chunks[1..]);
      WriteTwice(m, off, chunks[0], Concat(chunks[1..]));
    }
  }

  lemma {:induction false} WriteTwice(m: Cells, off: nat, a: seq<byte>, b: seq<byte>)
    ensures Written(Written(m, off, a), off + |a|, b) == Written(m, off, a + b)
    decreases |b|
  {
    if b == [] {
      assert a + b == a;
    } else {
      var n := |b| - 1;
      WriteTwice(m, off, a, b[..n]);
      assert (a + b)[..|a| + n] == a + b[..n];
    }
  }

  /** One turn of the write loop. */
  lemma WriteNext(m: Cells, off: nat, data: seq<byte>, b: byte)
    ensures Set(Written(m, off, data), off + |data|, b) == Written(m, off, data + [b])
  {
    assert (data + [b])[..|data|] == data;
  }

  type Reader = (Cells, nat, nat) -> (Cells, int, seq<byte>)

  /** Reads of the given sizes, each starting where the last one ended; the final state and all bytes. */
  function ReadChunks(read: Reader, m: Cells, off: nat, sizes: seq<nat>): (Cells, seq<byte>)
    decreases |sizes|
  {
    if sizes == [] then (m, [])
    else
      var r := read(m, sizes[0], off);
      var t := ReadChunks(read, r.0, off + |r.2|, sizes[1..]);
      (t.0, r.2 + t.1)
  }

  function Sum(sizes: seq<nat>): nat {
    if sizes == [] then 0 else sizes[0] + Sum(sizes[1..])
  }

  type Slicer = (nat, nat) -> seq<byte>

  /** Two consecutive slices, the second starting where the first one ended, are one. */
  predicate Joins(g: Slicer, off: nat, a: nat, b: nat) {
    g(off, 0) == [] && g(off, a) + g(off + |g(off, a)|, b) == g(off, a + b)
  }

  lemma {:induction false} ChunksJoin(read: Reader, m: Cells, g: Slicer, off: nat, sizes: seq<nat>)
    requires forall n: nat, o: nat :: read(m, n, o).0 == m && read(m, n, o).2 == g(o, n)
    requires forall o, a, b :: Joins(g, o, a, b)
    ensures ReadChunks(read, m, off, sizes).0 == m
    ensures ReadChunks(read, m, off, sizes).1 == g(off, Sum(sizes))
    decreases |sizes|
  {
    if sizes == [] {
      assert Joins(g, off, 0, 0);
    } else {
      ChunksJoin(read, m, g, off + |g(off, sizes[0])|, sizes[1..]);
      assert Joins(g, off, sizes[0], Sum(sizes[1..]));
    }
  }

  function Slices(f: seq<byte>): Slicer {
    (o, n) => ReadAt(f, o, n)
  }

  lemma SlicesJoin(f: seq<byte>)
    ensures forall o, a, b :: Joins(Slices(f), o, a, b)
  {
    forall o, a, b ensures Joins(Slices(f), o, a, b) {
      ReadJoin(f, o, a, b);
    }
  }

  lemma ReadsSlice(m: Cells)
    requires Dense(m)
    ensures forall n: nat, o: nat :: Read(m, n, o).0 == m && Read(m, n, o).2 == Slices(Image(m))(o, n)
  {
    forall n: nat, o: nat ensures Read(m, n, o).0 == m && Read(m, n, o).2 == Slices(Image(m))(o, n) {
      ReadDense(m, n, o);
    }
  }

  /** On a dense file the pieces of a split read are, together, the single large read. */
  lemma SplitRead(m: Cells, off: nat, sizes: seq<nat>)
    requires Dense(m)
    ensures ReadChunks(Read, m, off, sizes).0 == m
    ensures ReadChunks(Read, m, off, sizes).1 == ReadAt(Image(m), off, Sum(sizes))
  {
    ReadsSlice(m);
    SlicesJoin(Image(m));
    ChunksJoin(Read, m, Slices(Image(m)), off, sizes);
  }

  lemma ReadJoin(f: seq<byte>, off: nat, a: nat, b: nat)
    ensures var d := ReadAt(f, off, a);
            d + ReadAt(f, off + |d|, b) == ReadAt(f, off, a + b)
  {
    var d := ReadAt(f, off, a);
    var e, w := ReadAt(f, off + |d|, b), ReadAt(f, off, a + b);
    assert |d + e| == |w|;
    assert d + e == w;
  }

  // ---- truncating repeatedly ----

  function TruncateAll(m: Cells, lengths: seq<nat>): Cells
    decreases |lengths|
  {
    if lengths == [] then m else TruncateAll(Truncated(m, lengths[0]), lengths[1..])
  }

  /** The smallest of the lengths and n. */
  function Least(n: nat, lengths: seq<nat>): (l: nat)
    ensures l <= n
    decreases |lengths|
  {
    if lengths == [] then n else Least(if lengths[0] < n then lengths[0] else n, lengths[1..])
  }

  function ResizeAll(f: seq<byte>, lengths: seq<nat>): seq<byte>
    decreases |lengths|
  {
    if lengths == [] then f else ResizeAll(Resized(f, lengths[0]), lengths[1..])
  }

  lemma {:induction false} TruncatesResize(m: Cells, lengths: seq<nat>)
    requires Dense(m)
    ensures Dense(TruncateAll(m, lengths)) && Image(TruncateAll(m, lengths)) == ResizeAll(Image(m), lengths)
    decreases |lengths|
  {
    if lengths != [] {
      TruncateDense(m, lengths[0]);
      TruncatesResize(Truncated(m, lengths[0]), lengths[1..]);
    }
  }

  /** Cutting lower than both ends of a resize makes the resize invisible. */
  lemma ResizeTwice(f: seq<byte>, n: nat, cut: nat, last: nat)
    requires cut <= n
    ensures Resized(Resized(Resized(f, n), cut), last) == Resized(Resized(f, if |f| < cut then |f| else cut), last)
  {
    var a, b := Resized(Resized(Resized(f, n), cut), last), Resized(Resized(f, if |f| < cut then |f| else cut), last);
    assert forall i | 0 <= i < last :: a[i] == b[i];
  }

  lemma {:induction false} ResizesAre(f: seq<byte>, lengths: seq<nat>)
    requires lengths != []
    ensures ResizeAll(f, lengths) == Resized(Resized(f, Least(|f|, lengths)), lengths[|lengths| - 1])
    decreases |lengths|
  {
    var n, rest := lengths[0], lengths[1..];
    if rest == [] {
      ResizeTwice(f, n, n, n);
      assert Resized(Resized(Resized(f, n), n), n) == Resized(f, n);
      assert ResizeAll(Resized(f, n), rest) == Resized(f, n);
    } else {
      ResizesAre(Resized(f, n), rest);
      LeastMonotone(if n < |f| then n else |f|, n, rest);
      ResizeTwice(f, n, Least(n, rest), lengths[|lengths| - 1]);
    }
  }

  /** Raising the start only matters above the bound already there. */
  lemma {:induction false} LeastMonotone(l: nat, n: nat, lengths: seq<nat>)
    requires l <= n
    ensures Least(l, lengths) == if Least(n, lengths) < l then Least(n, lengths) else l
    decreases |lengths|
  {
    if lengths != [] {
      var h := lengths[0];
      LeastMonotone(if h < l then h else l, if h < n then h else n, lengths[1..]);
    }
  }

  /** Any list of truncations of a dense file is one cut to the least length reached and one resize to the last. */
  lemma TruncatesAre(m: Cells, lengths: seq<nat>)
    requires Dense(m) && lengths != []
    ensures Least(|m|, lengths) <= |m|
    ensures Dense(TruncateAll(m, lengths))
    ensures Image(TruncateAll(m, lengths)) == Resized(Resized(Image(m), Least(|m|, lengths)), lengths[|lengths| - 1])
  {
    TruncatesResize(m, lengths);
    ResizesAre(Image(m), lengths);
  }
}
