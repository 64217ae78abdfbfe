/** The redundancy check of a value block (section 8.6.2.1 of the NXP MF1S50yyX
    datasheet): a 4-byte value stored as value, inverted value, value, followed
    by an address byte stored as address, inverted, address, inverted. */
module ValueBlock {
  import opened HexCodec

  /** The verdict the editor shows beside a block. */
  datatype Status = Ok | Warn

  /** Hex field `b` is the bitwise complement of hex field `a`, digit by digit. */
  predicate InvertedDigits(a: string, b: string)
    requires IsHexString(a) && IsHexString(b) && |a| == |b|
  {
    forall k | 0 <= k < |a| :: NibbleValue(b[k]) == 15 - NibbleValue(a[k])
  }

  /** The field of `n` hex digits at `from`. */
  function Field(h: string, from: nat, n: nat): (f: string)
    requires IsHexBlock(h) && from + n <= BlockChars
    ensures |f| == n && IsHexString(f)
  {
    h[from..from + n]
  }

  /** Comparing two fields bit by bit after inverting one, as the editor does,
      is comparing their nibbles against fifteen minus the other's. */
  lemma InvertedNibble(n: Nibble, m: Nibble)
    ensures m == 15 - n <==> forall k | 0 <= k < 4 :: NibbleBits(m)[k] == 1 - NibbleBits(n)[k]
  {
    NibbleNot(n);
    if forall k | 0 <= k < 4 :: NibbleBits(m)[k] == 1 - NibbleBits(n)[k] {
      var c: Nibble := 15 - n;
      assert NibbleBits(m)[0] == NibbleBits(c)[0] && NibbleBits(m)[1] == NibbleBits(c)[1];
      assert NibbleBits(m)[2] == NibbleBits(c)[2] && NibbleBits(m)[3] == NibbleBits(c)[3];
      NibbleOfBits(m);
      NibbleOfBits(c);
    }
  }

  /** The value-block format over bytes: bytes 4..7 complement bytes 0..3,
      bytes 8..11 repeat them, and bytes 13, 14, 15 hold the complement, a copy
      and the complement of the address byte 12. */
  predicate IsValueBlock(v: seq<Byte>)
  {
    && |v| == 16
    && (forall k | 0 <= k < 4 :: v[4 + k] == 255 - v[k] && v[8 + k] == v[k])
    && v[13] == 255 - v[12] && v[14] == v[12] && v[15] == 255 - v[12]
  }

  /** The 16 bytes of a value block holding `value` at address `addr`. */
  function EncodeValueBlock(value: seq<Byte>, addr: Byte): (v: seq<Byte>)
    requires |value| == 4
    ensures IsValueBlock(v)
    ensures v[..4] == value && v[12] == addr
  {
    var inverted := seq(4, k requires 0 <= k < 4 => 255 - value[k] as int);
    value + inverted + value + [addr, 255 - addr, addr, 255 - addr]
  }

  /** A value block is exactly the encoding of its first four bytes and its
      address byte. */
  lemma ValueBlockIsEncoding(v: seq<Byte>)
    requires |v| == 16
    ensures IsValueBlock(v) <==> v == EncodeValueBlock(v[..4], v[12])
  {
    if IsValueBlock(v) {
      var e := EncodeValueBlock(v[..4], v[12]);
      assert forall i | 0 <= i < 16 :: v[i] == e[i];
    }
  }

  /** A byte is the complement of another iff each of its nibbles is. */
  lemma InvertedByte(x: Byte, y: Byte)
    ensures y == 255 - x <==> y / 16 == 15 - x / 16 && y % 16 == 15 - x % 16
  {
  }

  /** A byte equals another iff both its nibbles do. */
  lemma SameByte(x: Byte, y: Byte)
    ensures y == x <==> y / 16 == x / 16 && y % 16 == x % 16
  {
  }

  /** Byte pair (i, j) of a block, against its hex digits. */
  lemma BytePair(h: string, i: nat, j: nat)
    requires IsHexBlock(h) && i < 16 && j < 16
    ensures var v := HexToBytes(h);
      && (v[j] == 255 - v[i] <==> NibbleValue(h[2 * j]) == 15 - NibbleValue(h[2 * i])
                                  && NibbleValue(h[2 * j + 1]) == 15 - NibbleValue(h[2 * i + 1]))
      && (v[j] == v[i] <==> h[2 * j] == h[2 * i] && h[2 * j + 1] == h[2 * i + 1])
  {
    var v := HexToBytes(h);
    InvertedByte(v[i], v[j]);
    SameByte(v[i], v[j]);
  }

  /** Comparing two hex fields digit by digit is comparing them two digits,
      one byte, at a time. */
  lemma {:induction false} DigitsByPairs(f: string, g: string)
    requires IsHexString(f) && IsHexString(g) && |f| == |g| && |f| % 2 == 0
    ensures InvertedDigits(f, g) <==> forall k | 0 <= k < |f| / 2 ::
              NibbleValue(g[2 * k]) == 15 - NibbleValue(f[2 * k])
              && NibbleValue(g[2 * k + 1]) == 15 - NibbleValue(f[2 * k + 1])
    ensures (g == f) <==> forall k | 0 <= k < |f| / 2 :: g[2 * k] == f[2 * k] && g[2 * k + 1] == f[2 * k + 1]
  {
    if forall k | 0 <= k < |f| / 2 :: NibbleValue(g[2 * k]) == 15 - NibbleValue(f[2 * k])
                                     && NibbleValue(g[2 * k + 1]) == 15 - NibbleValue(f[2 * k + 1]) {
      forall j | 0 <= j < |f|
        ensures NibbleValue(g[j]) == 15 - NibbleValue(f[j])
      {
        var k := j / 2;
        assert j == 2 * k || j == 2 * k + 1;
      }
    }
    if forall k | 0 <= k < |f| / 2 :: g[2 * k] == f[2 * k] && g[2 * k + 1] == f[2 * k + 1] {
      forall j | 0 <= j < |f|
        ensures g[j] == f[j]
      {
        var k := j / 2;
        assert j == 2 * k || j == 2 * k + 1;
      }
    }
  }

  /** Digit 2k and 2k+1 of the field of bytes from `a` are the digits of byte a + k. */
  lemma ByteField(h: string, a: nat, n: nat, k: nat)
    requires IsHexBlock(h) && a + n <= 16 && k < n
    ensures Field(h, 2 * a, 2 * n)[2 * k] == h[2 * (a + k)]
    ensures Field(h, 2 * a, 2 * n)[2 * k + 1] == h[2 * (a + k) + 1]
  {
  }

  /** Byte k of the value against its inverted copy and its repeat. */
  lemma ValueByte(h: string, k: nat)
    requires IsHexBlock(h) && k < 4
    ensures (HexToBytes(h)[4 + k] == 255 - HexToBytes(h)[k])
              <==> (NibbleValue(Field(h, 8, 8)[2 * k]) == 15 - NibbleValue(Field(h, 0, 8)[2 * k])
                    && NibbleValue(Field(h, 8, 8)[2 * k + 1]) == 15 - NibbleValue(Field(h, 0, 8)[2 * k + 1]))
    ensures (HexToBytes(h)[8 + k] == HexToBytes(h)[k])
              <==> (Field(h, 16, 8)[2 * k] == Field(h, 0, 8)[2 * k]
                    && Field(h, 16, 8)[2 * k + 1] == Field(h, 0, 8)[2 * k + 1])
  {
    ByteField(h, 0, 4, k);
    ByteField(h, 4, 4, k);
    ByteField(h, 8, 4, k);
    BytePair(h, k, 4 + k);
    BytePair(h, k, 8 + k);
  }

  /** The value against its inverted copy, bytes 0..3 against bytes 4..7. */
  lemma {:induction false} ValueInverted(h: string)
    requires IsHexBlock(h)
    ensures (InvertedDigits(Field(h, 0, 8), Field(h, 8, 8)))
              <==> (forall k | 0 <= k < 4 :: HexToBytes(h)[4 + k] == 255 - HexToBytes(h)[k])
  {
    var f, g := Field(h, 0, 8), Field(h, 8, 8);
    assert |f| / 2 == 4;
    DigitsByPairs(f, g);
    forall k | 0 <= k < 4 {
      ValueByte(h, k);
    }
  }

  /** The value against its repeat, bytes 0..3 against bytes 8..11. */
  lemma {:induction false} ValueRepeated(h: string)
    requires IsHexBlock(h)
    ensures (Field(h, 16, 8) == Field(h, 0, 8))
              <==> (forall k | 0 <= k < 4 :: HexToBytes(h)[8 + k] == HexToBytes(h)[k])
  {
    var f, e := Field(h, 0, 8), Field(h, 16, 8);
    assert |f| / 2 == 4;
    DigitsByPairs(f, e);
    forall k | 0 <= k < 4 {
      ValueByte(h, k);
    }
  }

  /** An address copy, byte 12 against byte `j`, compared digit by digit. */
  lemma AddressByte(h: string, j: nat)
    requires IsHexBlock(h) && 13 <= j < 16
    ensures InvertedDigits(Field(h, 24, 2), Field(h, 2 * j, 2)) <==> HexToBytes(h)[j] == 255 - HexToBytes(h)[12]
    ensures (Field(h, 2 * j, 2) == Field(h, 24, 2)) <==> HexToBytes(h)[j] == HexToBytes(h)[12]
  {
    BytePair(h, 12, j);
    assert Field(h, 24, 2) == [h[24], h[25]];
    assert Field(h, 2 * j, 2) == [h[2 * j], h[2 * j + 1]];
  }

  /** Two hex fields are complements digit by digit exactly when, read as
      bits, each bit of the one is the inverse of the same bit of the other:
      the editor's comparison of a field against an inverted bit array. */
  lemma {:induction false} InvertedDigitsBitwise(a: string, b: string)
    requires IsHexString(a) && IsHexString(b) && |a| == |b|
    ensures InvertedDigits(a, b) <==>
              forall k, j | 0 <= k < |a| && 0 <= j < 4 ::
                NibbleBits(NibbleValue(b[k]))[j] == 1 - NibbleBits(NibbleValue(a[k]))[j]
  {
    forall k | 0 <= k < |a|
      ensures (NibbleValue(b[k]) == 15 - NibbleValue(a[k]))
                <==> forall j | 0 <= j < 4 :: NibbleBits(NibbleValue(b[k]))[j] == 1 - NibbleBits(NibbleValue(a[k]))[j]
    {
      InvertedNibble(NibbleValue(a[k]), NibbleValue(b[k]));
    }
  }

  /** The check of one block, in the order the editor makes its comparisons:
      value against inverted value, value against its repeat, then the address
      against its inverted copy, its repeat and its second inverted copy. The
      32-bit value is hex digits 0..7, its copies 8..15 and 16..23; the address
      is digits 24..25 and its copies 26..27, 28..29 and 30..31. Read as bytes,
      the block passes exactly when it is a value block. */
  function CheckBlock(h: string): (r: Status)
    requires IsHexBlock(h)
    ensures r == Ok <==> IsValueBlock(HexToBytes(h))
  {
    ValueInverted(h);
    ValueRepeated(h);
    AddressByte(h, 13);
    AddressByte(h, 14);
    AddressByte(h, 15);
    var value, address := Field(h, 0, 8), Field(h, 24, 2);
    if !InvertedDigits(value, Field(h, 8, 8)) then Warn
    else if value != Field(h, 16, 8) then Warn
    else if !InvertedDigits(address, Field(h, 26, 2)) then Warn
    else if address != Field(h, 28, 2) then Warn
    else if !InvertedDigits(address, Field(h, 30, 2)) then Warn
    else Ok
  }
}
