/** Bytes and runs of bytes. */
module Bytes {

  type Byte = bv8

  /** One more than the largest 32-bit value. */
  const UINT32: nat := 0x1_0000_0000

  function Zeros(n: nat): (s: seq<Byte>)
    ensures |s| == n && forall i | 0 <= i < n :: s[i] == 0
  {
    seq(n, i => 0)
  }

  /** Bytes after `n` up to the next multiple of four. */
  function PadLen(n: nat): (pad: nat)
    ensures pad < 4 && (n + pad) % 4 == 0
  {
    (4 - n % 4) % 4
  }

  lemma PrefixSlice(s: seq<Byte>, n: nat, i: nat, j: nat)
    requires i <= j <= n <= |s|
    ensures s[..n][i..j] == s[i..j]
  {}

  lemma Slices(s: seq<Byte>, i: nat, n: nat)
    requires i + n <= |s|
    ensures s[i..][..n] == s[i..i + n] && s[i..][n..] == s[i + n..]
  {}

  function ByteOf(n: nat): Byte
    requires n < 256
  {
    n as Byte
  }

  /** A 16-bit length, big-endian; larger values lose their high bits. */
  function LengthField(n: nat): (s: seq<Byte>)
    ensures |s| == 2
  {
    [ByteOf(n / 256 % 256), ByteOf(n % 256)]
  }

  function ReadLength(s: seq<Byte>): (n: nat)
    requires |s| >= 2
    ensures n <= 65535
  {
    s[0] as nat * 256 + s[1] as nat
  }

  lemma NatRoundTrip(b: Byte)
    ensures ByteOf(b as nat) == b
  {}

  lemma NextByte(b: Byte)
    requires b != 0xFF
    ensures (b + 1) as nat == b as nat + 1
  {}

  /** Every value below 256 is the value of a byte. */
  lemma {:induction false} ByteFor(n: nat) returns (b: Byte)
    requires n < 256
    ensures b as nat == n
  {
    if n == 0 {
      b := 0;
    } else {
      b := ByteFor(n - 1);
      assert (0xFF as Byte) as nat == 255;
      NextByte(b);
      b := b + 1;
    }
  }

  lemma ByteRoundTrip(n: nat)
    requires n < 256
    ensures ByteOf(n) as nat == n
  {
    var b := ByteFor(n);
    NatRoundTrip(b);
    hide ByteOf;
  }

  lemma TwoDigits(n: nat)
    ensures n / 256 % 256 * 256 + n % 256 == n % 65536
  {}

  /** The high byte comes first. */
  lemma LengthOnWire(n: nat)
    ensures LengthField(n)[0] as nat * 256 + LengthField(n)[1] as nat == n % 65536
  {
    hide ByteOf;
    ByteRoundTrip(n / 256 % 256);
    ByteRoundTrip(n % 256);
    TwoDigits(n);
  }

  /** What is read back is what was written, modulo 2^16. */
  lemma LengthTruncates(n: nat)
    ensures ReadLength(LengthField(n)) == n % 65536
  {
    hide ByteOf;
    ByteRoundTrip(n / 256 % 256);
    ByteRoundTrip(n % 256);
    TwoDigits(n);
  }

  lemma LengthRewrites(s: seq<Byte>)
    requires |s| >= 2
    ensures LengthField(ReadLength(s)) == s[..2]
  {
    hide ByteOf;
    var n := ReadLength(s);
    assert n / 256 % 256 == s[0] as nat && n % 256 == s[1] as nat;
    NatRoundTrip(s[0]);
    NatRoundTrip(s[1]);
  }
}
