/** Bytes, nibbles and bits, and the lowercase hexadecimal text the editor keeps
    every 16-byte block in. These replace the hex codec and bit-array helpers the
    editor borrows from its libraries: every conversion is written out MSB-first. */
module HexCodec {

  type Byte = x: int | 0 <= x < 256
  type Nibble = x: int | 0 <= x < 16
  type Bit = x: int | 0 <= x < 2

  /** Number of hex characters in one 16-byte block. */
  const BlockChars: nat := 32

  predicate IsHexChar(c: char) {
    '0' <= c <= '9' || 'a' <= c <= 'f'
  }

  predicate IsHexString(h: string) {
    forall i | 0 <= i < |h| :: IsHexChar(h[i])
  }

  /** One block as the editor keeps it: 32 lowercase hex characters. */
  predicate IsHexBlock(h: string) {
    |h| == BlockChars && IsHexString(h)
  }

  /** The lowercase digit of a nibble, as Python's "%x" and hex codecs write it. */
  function HexDigit(n: Nibble): (c: char)
    ensures IsHexChar(c)
  {
    if n < 10 then ('0' as int + n) as char else ('a' as int + n - 10) as char
  }

  function NibbleValue(c: char): (n: Nibble)
    requires IsHexChar(c)
    ensures HexDigit(n) == c
  {
    if '0' <= c <= '9' then c as int - '0' as int else c as int - 'a' as int + 10
  }

  lemma DigitValue(n: Nibble)
    ensures NibbleValue(HexDigit(n)) == n
  {
  }

  /** The four bits of a nibble, most significant first. */
  function NibbleBits(n: Nibble): (bits: seq<Bit>)
    ensures |bits| == 4
  {
    var b0 := if n >= 8 then 1 else 0;
    var r1 := n - 8 * b0;
    var b1 := if r1 >= 4 then 1 else 0;
    var r2 := r1 - 4 * b1;
    var b2 := if r2 >= 2 then 1 else 0;
    [b0, b1, b2, r2 - 2 * b2]
  }

  /** The nibble whose bits, most significant first, are `a b c d`. */
  function NibbleOf(a: Bit, b: Bit, c: Bit, d: Bit): Nibble
  {
    8 * (a as int) + 4 * (b as int) + 2 * (c as int) + d as int
  }

  lemma NibbleOfBits(n: Nibble)
    ensures NibbleOf(NibbleBits(n)[0], NibbleBits(n)[1], NibbleBits(n)[2], NibbleBits(n)[3]) == n
  {
  }

  lemma BitsOfNibble(a: Bit, b: Bit, c: Bit, d: Bit)
    ensures NibbleBits(NibbleOf(a, b, c, d)) == [a, b, c, d]
  {
    var n := NibbleOf(a, b, c, d);
    assert n == 8 * (a as int) + (4 * (b as int) + 2 * (c as int) + d as int);
    assert 4 * (b as int) + 2 * (c as int) + d as int < 8;
    var r1 := n - 8 * (a as int);
    assert r1 == 4 * (b as int) + (2 * (c as int) + d as int);
    var r2 := r1 - 4 * (b as int);
    assert r2 == 2 * (c as int) + d as int;
    var bits := NibbleBits(n);
    assert bits[0] == a && bits[1] == b && bits[2] == c && bits[3] == d;
  }

  /** Exclusive-or of two bits. */
  function BitXor(x: Bit, y: Bit): (r: Bit)
    ensures r == 1 <==> x != y
  {
    if x == y then 0 else 1
  }

  /** Exclusive-or of two nibbles, bit by bit. */
  function NibbleXor(a: Nibble, b: Nibble): (r: Nibble)
    ensures forall k | 0 <= k < 4 :: NibbleBits(r)[k] == BitXor(NibbleBits(a)[k], NibbleBits(b)[k])
  {
    var x := NibbleBits(a);
    var y := NibbleBits(b);
    var z := [BitXor(x[0], y[0]), BitXor(x[1], y[1]), BitXor(x[2], y[2]), BitXor(x[3], y[3])];
    BitsOfNibble(z[0], z[1], z[2], z[3]);
    assert forall k | 0 <= k < 4 :: z[k] == BitXor(x[k], y[k]);
    NibbleOf(z[0], z[1], z[2], z[3])
  }

  /** The eight bits of a byte, most significant first. */
  function ByteBits(v: Byte): (bits: seq<Bit>)
    ensures |bits| == 8
  {
    NibbleBits(v / 16) + NibbleBits(v % 16)
  }

  /** A byte is its high nibble times sixteen plus its low nibble. */
  lemma ByteOfNibbles(hi: Nibble, lo: Nibble)
    ensures (16 * hi + lo) / 16 == hi && (16 * hi + lo) % 16 == lo
  {
  }

  /** Fifteen minus a nibble is its bitwise complement. */
  lemma NibbleNot(n: Nibble)
    ensures forall k | 0 <= k < 4 :: NibbleBits(15 - n)[k] == 1 - NibbleBits(n)[k]
  {
    var b := NibbleBits(n);
    NibbleOfBits(n);
    var m := NibbleOf(1 - b[0], 1 - b[1], 1 - b[2], 1 - b[3]);
    BitsOfNibble(1 - b[0], 1 - b[1], 1 - b[2], 1 - b[3]);
    assert 15 - n == m;
  }

  /** Two lowercase hex characters per byte, high nibble first. */
  function BytesToHex(bs: seq<Byte>): (h: string)
    ensures |h| == 2 * |bs|
    ensures IsHexString(h)
  {
    seq(2 * |bs|, i requires 0 <= i < 2 * |bs| =>
      if i % 2 == 0 then HexDigit(bs[i / 2] / 16) else HexDigit(bs[i / 2] % 16))
  }

  /** The bytes a hex string of even length spells. */
  function HexToBytes(h: string): (bs: seq<Byte>)
    requires IsHexString(h) && |h| % 2 == 0
    ensures |bs| == |h| / 2
    ensures forall i | 0 <= i < |bs| :: bs[i] / 16 == NibbleValue(h[2 * i]) && bs[i] % 16 == NibbleValue(h[2 * i + 1])
  {
    seq(|h| / 2, i requires 0 <= i < |h| / 2 => 16 * NibbleValue(h[2 * i]) + NibbleValue(h[2 * i + 1]))
  }

  /** Digit j of the hex of a byte string, read off byte j / 2. */
  lemma HexAt(bs: seq<Byte>, j: nat)
    requires j < 2 * |bs|
    ensures BytesToHex(bs)[j] == if j % 2 == 0 then HexDigit(bs[j / 2] / 16) else HexDigit(bs[j / 2] % 16)
  {
  }

  /** Byte i of a byte string is spelt by hex digits 2i and 2i + 1. */
  lemma HexPair(bs: seq<Byte>, i: nat)
    requires i < |bs|
    ensures BytesToHex(bs)[2 * i] == HexDigit(bs[i] / 16)
    ensures BytesToHex(bs)[2 * i + 1] == HexDigit(bs[i] % 16)
  {
    HexAt(bs, 2 * i);
    HexAt(bs, 2 * i + 1);
  }

  /** The hex of a stretch of bytes is the matching stretch of the hex. */
  lemma {:induction false} HexOfSlice(bs: seq<Byte>, a: nat, b: nat)
    requires a <= b <= |bs|
    ensures BytesToHex(bs[a..b]) == BytesToHex(bs)[2 * a..2 * b]
  {
    var part := bs[a..b];
    var l, r := BytesToHex(part), BytesToHex(bs)[2 * a..2 * b];
    forall j | 0 <= j < |l|
      ensures l[j] == r[j]
    {
      var h := BytesToHex(bs);
      var i, m := j / 2, 2 * a + j;
      assert j == 2 * i || j == 2 * i + 1;
      assert i < |part| && part[i] == bs[a + i];
      assert m / 2 == a + i && m % 2 == j % 2;
      assert r[j] == h[m];
      HexAt(part, j);
      HexAt(bs, m);
    }
  }

  lemma {:induction false} BytesHexBytes(bs: seq<Byte>)
    ensures HexToBytes(BytesToHex(bs)) == bs
  {
    var h := BytesToHex(bs);
    var r := HexToBytes(h);
    forall i | 0 <= i < |bs|
      ensures r[i] == bs[i]
    {
      HexPair(bs, i);
      DigitValue(bs[i] / 16);
      DigitValue(bs[i] % 16);
    }
  }

  lemma {:induction false} HexBytesHex(h: string)
    requires IsHexString(h) && |h| % 2 == 0
    ensures BytesToHex(HexToBytes(h)) == h
  {
    var bs := HexToBytes(h);
    var g := BytesToHex(bs);
    forall j | 0 <= j < |h|
      ensures g[j] == h[j]
    {
      var i := j / 2;
      ByteOfNibbles(NibbleValue(h[2 * i]), NibbleValue(h[2 * i + 1]));
      if j % 2 == 0 {
        assert j == 2 * i;
      } else {
        assert j == 2 * i + 1;
      }
    }
  }
}
