/** Bytes and the fixed-width little-endian integers the archive stores. */
module Bytes {

  newtype byte = b: int | 0 <= b < 256

  /** The C `uint32_t`. */
  type u32 = x: nat | x < 0x1_0000_0000

  /** How many values `n` bytes can hold. */
  function Radix(n: nat): (r: nat)
    ensures r > 0
  {
    if n == 0 then 1 else 0x100 * Radix(n - 1)
  }

  /** The value of the bytes `b`, least significant first. */
  function LeValue(b: seq<byte>): (x: nat)
    ensures x < Radix(|b|)
  {
    if b == [] then 0 else b[0] as nat + 0x100 * LeValue(b[1..])
  }

  /** The `n` low bytes of `x`, least significant first. */
  function LeBytes(x: nat, n: nat): (b: seq<byte>)
    ensures |b| == n
  {
    if n == 0 then [] else [(x % 0x100) as byte] + LeBytes(x / 0x100, n - 1)
  }

  lemma {:induction false} LeValueBytes(x: nat, n: nat)
    requires x < Radix(n)
    ensures LeValue(LeBytes(x, n)) == x
  {
    if n > 0 {
      LeValueBytes(x / 0x100, n - 1);
      assert LeBytes(x, n)[1..] == LeBytes(x / 0x100, n - 1);
    }
  }

  lemma {:induction false} LeBytesValue(b: seq<byte>)
    ensures LeBytes(LeValue(b), |b|) == b
  {
    if b != [] {
      var x := LeValue(b);
      assert x / 0x100 == LeValue(b[1..]) && x % 0x100 == b[0] as nat;
      LeBytesValue(b[1..]);
    }
  }

  /** A 32-bit word is four bytes. */
  lemma RadixWord()
    ensures Radix(4) == 0x1_0000_0000
  {
  }

  /** The 32-bit words stored in `b`, as `fread` into a `uint32_t` array reads
      them on a little-endian host. */
  function Words(b: seq<byte>): (w: seq<u32>)
    requires |b| % 4 == 0
    ensures |w| == |b| / 4
  {
    if b == [] then []
    else
      RadixWord();
      [LeValue(b[..4]) as u32] + Words(b[4..])
  }

  /** The bytes a little-endian host stores for the words `w`. */
  function WordsLe(w: seq<u32>): (b: seq<byte>)
    ensures |b| == 4 * |w|
  {
    if w == [] then [] else LeBytes(w[0], 4) + WordsLe(w[1..])
  }

  lemma {:induction false} WordsRoundTrip(w: seq<u32>)
    ensures Words(WordsLe(w)) == w
  {
    if w != [] {
      var b := WordsLe(w);
      assert b[..4] == LeBytes(w[0], 4) && b[4..] == WordsLe(w[1..]);
      RadixWord();
      LeValueBytes(w[0], 4);
      WordsRoundTrip(w[1..]);
    }
  }

  lemma {:induction false} WordsLeRoundTrip(b: seq<byte>)
    requires |b| % 4 == 0
    ensures WordsLe(Words(b)) == b
  {
    if b != [] {
      LeBytesValue(b[..4]);
      WordsLeRoundTrip(b[4..]);
      assert b == b[..4] + b[4..];
    }
  }
}
