/** Byte strings and the two positioned accesses that every SAFS operation makes on a file. */
module Bytes {

  type byte = x: int | 0 <= x < 256

  function Max(a: int, b: int): int {
    if a >= b then a else b
  }

  function Zeros(n: nat): (z: seq<byte>)
    ensures |z| == n && forall i | 0 <= i < n :: z[i] == 0
  {
    seq(n, _ => 0)
  }

  /** `lseek(off)` then `write(d)`: a gap past the old end reads as zero, and writing nothing changes nothing. */
  function WriteAt(f: seq<byte>, off: nat, d: seq<byte>): (g: seq<byte>)
    ensures |g| == if d == [] then |f| else Max(|f|, off + |d|)
    ensures forall i | 0 <= i < |g| ::
              g[i] == if off <= i < off + |d| then d[i - off] else if i < |f| then f[i] else 0
  {
    if d == [] then f
    else
      (if off <= |f| then f[..off] else f + Zeros(off - |f|))
      + d
      + (if off + |d| <= |f| then f[off + |d|..] else [])
  }

  /** `lseek(off)` then `read(n)`: fewer bytes at the end of the file, none past it. */
  function ReadAt(f: seq<byte>, off: nat, n: nat): (d: seq<byte>)
    ensures |d| == if off >= |f| then 0 else if off + n <= |f| then n else |f| - off
    ensures forall i | 0 <= i < |d| :: d[i] == f[off + i]
    decreases n
  {
    if n == 0 || off >= |f| then [] else [f[off]] + ReadAt(f, off + 1, n - 1)
  }

  /** What was written is what is read back. */
  lemma ReadBack(f: seq<byte>, off: nat, d: seq<byte>)
    ensures ReadAt(WriteAt(f, off, d), off, |d|) == d
  {
    var r := ReadAt(WriteAt(f, off, d), off, |d|);
    if d != [] {
      assert |r| == |d|;
    }
  }

  /** `ftruncate(n)`: the first bytes kept, the rest zero. */
  function Resized(f: seq<byte>, n: nat): (r: seq<byte>)
    ensures |r| == n && forall i | 0 <= i < n :: r[i] == if i < |f| then f[i] else 0
  {
    if n <= |f| then f[..n] else f + Zeros(n - |f|)
  }
}
