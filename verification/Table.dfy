/**
  A table file: records of one size, one after the other, addressed by
  `lseek(index * sizeof(record))`. The file is bytes; what callers rely on is the
  sequence of records it holds.
*/
module Table {
  import opened Bytes
  import opened Codecs

  // ---- the sequence of records in a byte string ----

  lemma Offsets(size: nat, i: nat, j: nat)
    requires i < j
    ensures 0 <= i * size && i * size + size <= j * size
  {
    assert j * size - i * size == (j - i) * size;
    assert (j - i) * size == (j - i - 1) * size + size;
    assert (j - i - 1) * size >= 0;
    assert i * size >= 0;
  }

  ghost predicate Whole<R(!new)>(c: Codec<R>, b: seq<byte>) {
    Faithful(c) && |b| == |b| / c.size * c.size
  }

  function Block(size: nat, b: seq<byte>, i: nat): (k: seq<byte>)
    requires i * size + size <= |b|
    ensures |k| == size
  {
    assert i * size >= 0;
    b[i * size..i * size + size]
  }

  ghost function Records<R(!new)>(c: Codec<R>, b: seq<byte>): (rs: seq<R>)
    requires Whole(c, b)
    ensures |rs| == |b| / c.size
    ensures |b| == |rs| * c.size
  {
    var n := |b| / c.size;
    seq(n, i requires 0 <= i < n => Offsets(c.size, i, n); c.dec(Block(c.size, b, i)))
  }

  /** The table with record i replaced, or the table extended up to i with zero records. */
  function Put<R>(rs: seq<R>, i: nat, r: R, zero: R): (out: seq<R>)
    ensures |out| == Max(|rs|, i + 1)
    ensures forall k | 0 <= k < |out| :: out[k] == if k == i then r else if k < |rs| then rs[k] else zero
  {
    if i < |rs| then rs[i := r] else rs + seq(i - |rs|, _ => zero) + [r]
  }

  /** Reading one record at a record-aligned offset: all of record i, or nothing past the end. */
  lemma ReadIsIndex<R(!new)>(c: Codec<R>, b: seq<byte>, i: nat)
    requires Whole(c, b)
    ensures i * c.size >= 0
    ensures i < |Records(c, b)| ==> |ReadAt(b, i * c.size, c.size)| == c.size
                                    && c.dec(ReadAt(b, i * c.size, c.size)) == Records(c, b)[i]
    ensures i >= |Records(c, b)| ==> ReadAt(b, i * c.size, c.size) == []
  {
    var n := |Records(c, b)|;
    if i < n {
      Offsets(c.size, i, n);
      assert ReadAt(b, i * c.size, c.size) == Block(c.size, b, i);
    } else if n < i {
      Offsets(c.size, n, i);
    }
  }

  /** Writing one record at a record-aligned offset changes that record and no other. */
  lemma WriteIsPut<R(!new)>(c: Codec<R>, b: seq<byte>, i: nat, r: R)
    requires Whole(c, b)
    ensures i * c.size >= 0
    ensures var b' := WriteAt(b, i * c.size, c.enc(r));
            Whole(c, b') && Records(c, b') == Put(Records(c, b), i, r, c.zero)
  {
    var rs := Records(c, b);
    WriteLength(c, b, i, r);
    var b' := WriteAt(b, i * c.size, c.enc(r));
    forall k | 0 <= k < |Records(c, b')| ensures Records(c, b')[k] == Put(rs, i, r, c.zero)[k] {
      Offsets(c.size, k, |Records(c, b')|);
      WriteBlock(c, b, i, r, k);
    }
  }

  lemma WriteLength<R(!new)>(c: Codec<R>, b: seq<byte>, i: nat, r: R)
    requires Whole(c, b)
    ensures i * c.size >= 0
    ensures var b' := WriteAt(b, i * c.size, c.enc(r));
            Whole(c, b') && |Records(c, b')| == Max(|Records(c, b)|, i + 1)
  {
    var n := |Records(c, b)|;
    Offsets(c.size, i, i + 1);
    assert (i + 1) * c.size == i * c.size + c.size;
    if i + 1 < n { Offsets(c.size, i + 1, n); } else if n < i + 1 { Offsets(c.size, n, i + 1); }
    DivExact(Max(n, i + 1), c.size);
  }

  lemma DivExact(m: nat, size: nat)
    requires size > 0
    ensures m * size >= 0 && m * size / size == m
  {
    var q := m * size / size;
    assert m * size == q * size + m * size % size;
    if q < m { Offsets(size, q, m); } else if m < q { Offsets(size, m, q); }
  }

  lemma WriteBlock<R(!new)>(c: Codec<R>, b: seq<byte>, i: nat, r: R, k: nat)
    requires Whole(c, b) && i * c.size >= 0
    requires k * c.size + c.size <= |WriteAt(b, i * c.size, c.enc(r))|
    ensures c.dec(Block(c.size, WriteAt(b, i * c.size, c.enc(r)), k))
         == if k == i then r else if k < |Records(c, b)| then Records(c, b)[k] else c.zero
  {
    var n := |Records(c, b)|;
    var b' := WriteAt(b, i * c.size, c.enc(r));
    var block := Block(c.size, b', k);
    assert k * c.size >= 0;
    if k == i {
      assert block == c.enc(r);
    } else {
      if k < i { Offsets(c.size, k, i); } else { Offsets(c.size, i, k); }
      if k < n {
        Offsets(c.size, k, n);
        assert block == Block(c.size, b, k);
      } else {
        if n < k { Offsets(c.size, n, k); }
        assert block == Zeros(c.size);
      }
    }
  }

  // ---- the file and an open descriptor on it ----

  class TableFile<R(!new)> {
    const codec: Codec<R>
    const zero: R
    var bytes: seq<byte>
    ghost var contents: seq<R>

    ghost predicate Valid()
      reads this
    {
      Whole(codec, bytes) && contents == Records(codec, bytes) && zero == codec.zero
    }

    constructor (codec: Codec<R>)
      requires Faithful(codec)
      ensures Valid() && contents == [] && this.codec == codec && zero == codec.zero
    {
      this.codec, this.zero := codec, codec.zero;
      this.bytes, this.contents := [], [];
    }
  }

  /** An open descriptor: the file and a byte offset, which record-sized accesses keep aligned. */
  class Cursor<R(!new)> {
    const file: TableFile<R>
    var pos: nat
    ghost var index: nat

    ghost predicate Valid()
      reads this, file
    {
      file.Valid() && pos == index * file.codec.size
    }

    constructor (file: TableFile<R>)
      requires file.Valid()
      ensures Valid() && this.file == file && index == 0
    {
      this.file := file;
      this.pos, this.index := 0, 0;
    }

    /** `lseek(fd, i * sizeof(record), SEEK_SET)` */
    method Seek(i: nat)
      requires Valid()
      modifies this
      ensures Valid() && index == i
    {
      assert i * file.codec.size >= 0;
      pos, index := i * file.codec.size, i;
    }

    /** `read(fd, &buf, sizeof(buf))`: at the end of the file the buffer keeps its old value. */
    method Next(buf: R) returns (ok: bool, r: R)
      requires Valid()
      modifies this
      ensures Valid()
      ensures ok == (old(index) < |file.contents|)
      ensures r == if ok then file.contents[old(index)] else buf
      ensures index == if ok then old(index) + 1 else old(index)
    {
      ReadIsIndex(file.codec, file.bytes, index);
      var d := ReadAt(file.bytes, pos, file.codec.size);
      ok := |d| == file.codec.size;
      if ok {
        r := file.codec.dec(d);
        pos, index := pos + |d|, index + 1;
      } else {
        r := buf;
      }
    }

    /** `write(fd, &r, sizeof(r))` */
    method Write(r: R)
      requires Valid()
      modifies this, file
      ensures Valid() && index == old(index) + 1
      ensures file.contents == Put(old(file.contents), old(index), r, file.zero)
    {
      WriteIsPut(file.codec, file.bytes, index, r);
      var d := file.codec.enc(r);
      file.bytes := WriteAt(file.bytes, pos, d);
      file.contents := Put(file.contents, index, r, file.zero);
      pos, index := pos + |d|, index + 1;
    }
  }

  /** `while (read(fd, &r, sizeof(r)) == sizeof(r))` visits exactly the records, in order. */
  method Scan<R(!new)>(file: TableFile<R>) returns (out: seq<R>)
    requires file.Valid()
    ensures out == Records(file.codec, file.bytes)
  {
    var fd := new Cursor(file);
    var ok, r := fd.Next(file.zero);
    out := [];
    while ok
      invariant fd.Valid() && fd.file == file && fresh(fd)
      invariant |out| <= |file.contents| && out == file.contents[..|out|]
      invariant if ok then |out| < |file.contents| && fd.index == |out| + 1 && r == file.contents[|out|]
                else |out| == |file.contents|
      decreases |file.contents| - |out| + (if ok then 1 else 0)
    {
      out := out + [r];
      ok, r := fd.Next(r);
    }
  }
}
