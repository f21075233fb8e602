/** The two records SAFS keeps in its table files, and their storage layouts. */
module Layout {
  import opened Bytes
  import opened Codecs

  const NAME_CAP := 32

  /** A C string that fits the `name` or `storage` buffer of a directory entry. */
  type Name = s: seq<byte> | |s| < NAME_CAP && 0 !in s

  datatype Dentry = Dentry(name: Name, storage: Name, inum: half)

  datatype Stat = Stat(mode: word, nlink: word, size: word, uid: word, gid: word,
                       atime: word, mtime: word, ctime: word, ino: word)

  const FREE := Dentry([], [], 0)
  const NO_STAT := Stat(0, 0, 0, 0, 0, 0, 0, 0, 0)

  // ---- C strings in fixed buffers ----

  function Pad(s: Name): (b: seq<byte>)
    ensures |b| == NAME_CAP
  {
    s + Zeros(NAME_CAP - |s|)
  }

  /** The string up to the first NUL, or up to the last byte but one of a full buffer. */
  function Text(b: seq<byte>, cap: nat): (s: seq<byte>)
    ensures |s| <= cap && |s| <= |b| && 0 !in s
    ensures forall i | 0 <= i < |s| :: s[i] == b[i]
    ensures |s| < cap && |s| < |b| ==> b[|s|] == 0
  {
    if cap == 0 || b == [] || b[0] == 0 then [] else [b[0]] + Text(b[1..], cap - 1)
  }

  lemma TextOfPad(s: Name)
    ensures Text(Pad(s), NAME_CAP - 1) == s
  {
    var t := Text(Pad(s), NAME_CAP - 1);
    assert forall i | 0 <= i < |s| :: s[i] in s && Pad(s)[i] == s[i];
    assert forall i | 0 <= i < |t| :: t[i] in t;
    assert Pad(s)[|s|] == 0;
    assert |t| == |s|;
  }

  // ---- words in a row ----

  function EncWords(ws: seq<word>): (b: seq<byte>)
    ensures |b| == 8 * |ws|
  {
    if ws == [] then [] else Little(ws[0], 8) + EncWords(ws[1..])
  }

  function DecWords(b: seq<byte>): (ws: seq<word>)
    ensures |ws| == |b| / 8
  {
    if |b| < 8 then [] else
      assert Pow256(8) == WORD;
      [Unlittle(b[..8])] + DecWords(b[8..])
  }

  lemma {:induction false} WordsRoundTrip(ws: seq<word>)
    ensures DecWords(EncWords(ws)) == ws
  {
    if ws != [] {
      var b := EncWords(ws);
      assert b[..8] == Little(ws[0], 8) && b[8..] == EncWords(ws[1..]);
      assert Pow256(8) == WORD;
      LittleRoundTrip(ws[0], 8);
      WordsRoundTrip(ws[1..]);
    }
  }

  lemma {:induction false} WordsOfZeros(n: nat)
    ensures DecWords(Zeros(8 * n)) == seq(n, _ => 0)
  {
    if n > 0 {
      assert Zeros(8 * n)[..8] == Zeros(8) && Zeros(8 * n)[8..] == Zeros(8 * (n - 1));
      UnlittleZeros(8);
      WordsOfZeros(n - 1);
    }
  }

  // ---- the two layouts ----

  function EncDentry(e: Dentry): seq<byte> {
    Pad(e.name) + Pad(e.storage) + Little(e.inum, 4)
  }

  function DecDentry(b: seq<byte>): Dentry {
    if |b| != 68 then FREE
    else
      assert Pow256(4) == HALF;
      Dentry(Text(b[..32], 31), Text(b[32..64], 31), Unlittle(b[64..]))
  }

  const DENTRY := Codec(68, FREE, EncDentry, DecDentry)

  function EncStat(s: Stat): seq<byte> {
    EncWords([s.mode, s.nlink, s.size, s.uid, s.gid, s.atime, s.mtime, s.ctime, s.ino])
  }

  function DecStat(b: seq<byte>): Stat {
    if |b| != 72 then NO_STAT
    else
      var w := DecWords(b);
      Stat(w[0], w[1], w[2], w[3], w[4], w[5], w[6], w[7], w[8])
  }

  const STAT := Codec(72, NO_STAT, EncStat, DecStat)

  lemma DentryLayout()
    ensures Faithful(DENTRY)
  {
    forall e: Dentry ensures |EncDentry(e)| == 68 && DecDentry(EncDentry(e)) == e {
      var b := EncDentry(e);
      assert b[..32] == Pad(e.name) && b[32..64] == Pad(e.storage) && b[64..] == Little(e.inum, 4);
      TextOfPad(e.name);
      TextOfPad(e.storage);
      assert Pow256(4) == HALF;
      LittleRoundTrip(e.inum, 4);
    }
    var z := Zeros(68);
    assert z[..32] == Pad([]) && z[32..64] == Pad([]) && z[64..] == Zeros(4);
    TextOfPad([]);
    UnlittleZeros(4);
  }

  lemma StatLayout()
    ensures Faithful(STAT)
  {
    forall s: Stat ensures |EncStat(s)| == 72 && DecStat(EncStat(s)) == s {
      WordsRoundTrip([s.mode, s.nlink, s.size, s.uid, s.gid, s.atime, s.mtime, s.ctime, s.ino]);
    }
    WordsOfZeros(9);
    assert Zeros(72) == Zeros(8 * 9);
  }
}
