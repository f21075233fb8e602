/**
  Fixed-size record layouts. SAFS stores C structures as raw memory, one after the
  other; a codec gives the size of such a structure and the two conversions.
*/
module Codecs {
  import opened Bytes

  const WORD := 0x1_0000_0000_0000_0000
  const HALF := 0x1_0000_0000

  type word = x: int | 0 <= x < WORD
  type half = x: int | 0 <= x < HALF

  datatype Codec<!R> = Codec(size: nat, zero: R, enc: R -> seq<byte>, dec: seq<byte> -> R)

  /** Every value survives storage, and a block of zero bytes is the zero record. */
  ghost predicate Faithful<R(!new)>(c: Codec<R>) {
    && c.size > 0
    && (forall r: R :: |c.enc(r)| == c.size && c.dec(c.enc(r)) == r)
    && c.dec(Zeros(c.size)) == c.zero
  }

  function Pow256(k: nat): (p: nat)
    ensures p > 0
  {
    if k == 0 then 1 else 256 * Pow256(k - 1)
  }

  /** The k low-order bytes of n, least significant first. */
  function Little(n: nat, k: nat): (b: seq<byte>)
    ensures |b| == k
  {
    if k == 0 then [] else [n % 256] + Little(n / 256, k - 1)
  }

  function Unlittle(b: seq<byte>): (n: nat)
    ensures n < Pow256(|b|)
  {
    if b == [] then 0 else b[0] + 256 * Unlittle(b[1..])
  }

  lemma {:induction false} LittleRoundTrip(n: nat, k: nat)
    requires n < Pow256(k)
    ensures Unlittle(Little(n, k)) == n
  {
    if k > 0 {
      LittleRoundTrip(n / 256, k - 1);
      assert Little(n, k)[1..] == Little(n / 256, k - 1);
    }
  }

  lemma {:induction false} UnlittleZeros(k: nat)
    ensures Unlittle(Zeros(k)) == 0
  {
    if k > 0 {
      assert Zeros(k)[1..] == Zeros(k - 1);
      UnlittleZeros(k - 1);
    }
  }
}
