/** The access-condition bits of a sector trailer (section 8.7.1 of the NXP
    MF1S50yyX datasheet). Trailer bytes 6..9, hex characters 12..19, hold 32 bits
    read most-significant first; 24 of them carry, for each of the four slots of a
    sector, three condition bits stored once directly and once inverted. */
module AccessBits {
  import opened HexCodec

  /** Hex character of the trailer where the access bytes start (byte 6). */
  const AccFirstChar: nat := 12
  /** Number of hex characters of access bytes (bytes 6..9). */
  const AccChars: nat := 8
  /** Number of bits in the access bytes. */
  const AccBitCount: nat := 32
  /** Slots per trailer, and condition bits per slot. */
  const SlotCount: nat := 4
  const BitsPerSlot: nat := 3

  /** Where one condition bit lives: its direct copy and its inverted copy, as
      bit numbers into the 32 access bits. */
  datatype BitPair = BitPair(direct: nat, inverted: nat)

  /** PositionTable[slot][index] places condition bit `index` (C1, C2, C3) of
      `slot`. Slot i reads bits 11-i, 23-i, 19-i directly and bits 7-i, 3-i,
      15-i inverted. This is the only place the offsets are written down. */
  const PositionTable: seq<seq<BitPair>> := [
    [BitPair(11, 7), BitPair(23, 3), BitPair(19, 15)],
    [BitPair(10, 6), BitPair(22, 2), BitPair(18, 14)],
    [BitPair(9, 5), BitPair(21, 1), BitPair(17, 13)],
    [BitPair(8, 4), BitPair(20, 0), BitPair(16, 12)]
  ]

  function Pair(slot: nat, index: nat): (p: BitPair)
    requires slot < SlotCount && index < BitsPerSlot
    ensures index == 0 ==> p == BitPair(11 - slot, 7 - slot)
    ensures index == 1 ==> p == BitPair(23 - slot, 3 - slot)
    ensures index == 2 ==> p == BitPair(19 - slot, 15 - slot)
  {
    PositionTable[slot][index]
  }

  /** The 24 positions of the table are pairwise distinct and all lie in the
      first three access bytes. */
  lemma PairsDistinct(slot: nat, index: nat, slot': nat, index': nat)
    requires slot < SlotCount && index < BitsPerSlot
    requires slot' < SlotCount && index' < BitsPerSlot
    ensures Pair(slot, index).direct < 24 && Pair(slot, index).inverted < 24
    ensures Pair(slot, index).direct != Pair(slot', index').inverted
    ensures (slot, index) != (slot', index') ==>
              Pair(slot, index).direct != Pair(slot', index').direct
              && Pair(slot, index).inverted != Pair(slot', index').inverted
  {
  }

  /** Access nibble `i` of a trailer: hex character 12 + i. */
  function AccNibble(t: string, i: nat): Nibble
    requires IsHexBlock(t) && i < AccChars
  {
    NibbleValue(t[AccFirstChar + i])
  }

  /** Access bit `p` of a trailer, counting from the most significant bit of
      byte 6: bit p % 4 of access nibble p / 4. */
  function AccBit(t: string, p: nat): Bit
    requires IsHexBlock(t) && p < AccBitCount
  {
    NibbleBits(AccNibble(t, p / 4))[p % 4]
  }

  /** Read as bytes, access bit p is bit p % 8, most significant first, of
      byte 6 + p / 8 of the trailer: the bit numbering of a bit array built
      from the four access bytes. */
  lemma AccBitIsByteBit(t: string, p: nat)
    requires IsHexBlock(t) && p < AccBitCount
    ensures AccBit(t, p) == ByteBits(HexToBytes(t)[6 + p / 8])[p % 8]
  {
    var v := HexToBytes(t)[6 + p / 8];
    assert 2 * (6 + p / 8) == AccFirstChar + 2 * (p / 8);
    if p % 8 < 4 {
      assert p / 4 == 2 * (p / 8) && p % 4 == p % 8;
    } else {
      assert p / 4 == 2 * (p / 8) + 1 && p % 4 == p % 8 - 4;
    }
  }

  /** Two trailers that agree outside the access characters and on every access
      bit are the same trailer: lowercase hex spells each nibble one way only. */
  lemma {:induction false} AccBitsDetermine(t: string, t': string)
    requires IsHexBlock(t) && IsHexBlock(t')
    requires forall k | 0 <= k < BlockChars && !(AccFirstChar <= k < AccFirstChar + AccChars) :: t'[k] == t[k]
    requires forall p | 0 <= p < AccBitCount :: AccBit(t', p) == AccBit(t, p)
    ensures t' == t
  {
    forall k | 0 <= k < BlockChars
      ensures t'[k] == t[k]
    {
      if AccFirstChar <= k < AccFirstChar + AccChars {
        var i := k - AccFirstChar;
        assert AccBit(t', 4 * i) == AccBit(t, 4 * i);
        assert AccBit(t', 4 * i + 1) == AccBit(t, 4 * i + 1);
        assert AccBit(t', 4 * i + 2) == AccBit(t, 4 * i + 2);
        assert AccBit(t', 4 * i + 3) == AccBit(t, 4 * i + 3);
        SameNibble(t, t', i);
      }
    }
  }

  /** A nibble is fixed by its four bits. */
  lemma SameBits(n: Nibble, n': Nibble)
    requires NibbleBits(n')[0] == NibbleBits(n)[0] && NibbleBits(n')[1] == NibbleBits(n)[1]
    requires NibbleBits(n')[2] == NibbleBits(n)[2] && NibbleBits(n')[3] == NibbleBits(n)[3]
    ensures n' == n
  {
    NibbleOfBits(n);
    NibbleOfBits(n');
  }

  lemma {:induction false} SameNibble(t: string, t': string, i: nat)
    requires IsHexBlock(t) && IsHexBlock(t') && i < AccChars
    requires AccBit(t', 4 * i) == AccBit(t, 4 * i)
    requires AccBit(t', 4 * i + 1) == AccBit(t, 4 * i + 1)
    requires AccBit(t', 4 * i + 2) == AccBit(t, 4 * i + 2)
    requires AccBit(t', 4 * i + 3) == AccBit(t, 4 * i + 3)
    ensures t'[AccFirstChar + i] == t[AccFirstChar + i]
  {
    assert (4 * i) / 4 == i && (4 * i + 1) / 4 == i && (4 * i + 2) / 4 == i && (4 * i + 3) / 4 == i;
    assert (4 * i) % 4 == 0 && (4 * i + 1) % 4 == 1 && (4 * i + 2) % 4 == 2 && (4 * i + 3) % 4 == 3;
    SameBits(AccNibble(t, i), AccNibble(t', i));
  }

  /** The nibble `n` with its bit `j` (most significant first) set to `v`. */
  function SetBit(n: Nibble, j: nat, v: Bit): (r: Nibble)
    requires j < 4
    ensures NibbleBits(r) == NibbleBits(n)[j := v]
  {
    var b := NibbleBits(n)[j := v];
    BitsOfNibble(b[0], b[1], b[2], b[3]);
    NibbleOf(b[0], b[1], b[2], b[3])
  }

  /** The trailer with access bit `p` set to `v`; only the hex character holding
      that bit is rewritten. */
  function WriteBit(t: string, p: nat, v: Bit): (r: string)
    requires IsHexBlock(t) && p < AccBitCount
    ensures IsHexBlock(r)
    ensures forall k | 0 <= k < BlockChars && k != AccFirstChar + p / 4 :: r[k] == t[k]
    ensures forall q | 0 <= q < AccBitCount :: AccBit(r, q) == if q == p then v else AccBit(t, q)
  {
    var i := p / 4;
    var n := SetBit(AccNibble(t, i), p % 4, v);
    DigitValue(n);
    var r := t[AccFirstChar + i := HexDigit(n)];
    forall q | 0 <= q < AccBitCount
      ensures AccBit(r, q) == if q == p then v else AccBit(t, q)
    {
      if q / 4 == i {
        assert q % 4 == p % 4 <==> q == p;
      }
    }
    r
  }

  function BitChar(v: Bit): (c: char)
    ensures c == '0' || c == '1'
  {
    if v == 1 then '1' else '0'
  }

  function CharBit(c: char): (v: Bit)
    requires c == '0' || c == '1'
    ensures BitChar(v) == c
  {
    if c == '1' then 1 else 0
  }

  lemma BitCharRoundTrip(v: Bit)
    ensures CharBit(BitChar(v)) == v
  {
  }

  predicate IsBinaryString(a: string) {
    forall i | 0 <= i < |a| :: a[i] == '0' || a[i] == '1'
  }

  function DirectBit(t: string, slot: nat, index: nat): Bit
    requires IsHexBlock(t) && slot < SlotCount && index < BitsPerSlot
  {
    AccBit(t, Pair(slot, index).direct)
  }

  function InvertedBit(t: string, slot: nat, index: nat): Bit
    requires IsHexBlock(t) && slot < SlotCount && index < BitsPerSlot
  {
    AccBit(t, Pair(slot, index).inverted)
  }

  /** Condition bit `index` of `slot` is stored consistently: its inverted copy
      is the complement of its direct copy. */
  predicate PairConsistent(t: string, slot: nat, index: nat)
    requires IsHexBlock(t) && slot < SlotCount && index < BitsPerSlot
  {
    InvertedBit(t, slot, index) == 1 - DirectBit(t, slot, index)
  }

  predicate SlotConsistent(t: string, slot: nat)
    requires IsHexBlock(t) && slot < SlotCount
  {
    forall index | 0 <= index < BitsPerSlot :: PairConsistent(t, slot, index)
  }

  /** The marker the editor shows for a slot whose two copies disagree. */
  const Corrupt: string := "ERR"

  /** No character of the marker is a bit. */
  lemma CorruptIsNotBinary(i: nat)
    requires i < |Corrupt|
    ensures Corrupt[i] != '0' && Corrupt[i] != '1'
  {
  }

  /** The condition of one slot as the editor displays it: the three direct bits
      C1 C2 C3 when the complemented inverted copy spells the same, else "ERR". */
  function DecodeSlot(t: string, slot: nat): (r: string)
    requires IsHexBlock(t) && slot < SlotCount
    ensures r != Corrupt <==> SlotConsistent(t, slot)
    ensures r != Corrupt ==>
              |r| == BitsPerSlot
              && forall index | 0 <= index < BitsPerSlot :: r[index] == BitChar(DirectBit(t, slot, index))
    ensures r == Corrupt || (|r| == BitsPerSlot && IsBinaryString(r))
  {
    var direct := [DirectBit(t, slot, 0), DirectBit(t, slot, 1), DirectBit(t, slot, 2)];
    var inverted := [InvertedBit(t, slot, 0), InvertedBit(t, slot, 1), InvertedBit(t, slot, 2)];
    var shown := [BitChar(direct[0]), BitChar(direct[1]), BitChar(direct[2])];
    var uninverted := [BitChar(1 - inverted[0]), BitChar(1 - inverted[1]), BitChar(1 - inverted[2])];
    if shown == uninverted then
      assert shown[0] != Corrupt[0];
      shown
    else
      assert !PairConsistent(t, slot, 0) || !PairConsistent(t, slot, 1) || !PairConsistent(t, slot, 2);
      Corrupt
  }

  /** Write condition bit `index` of `slot`: value `v` into the direct position
      and its complement into the inverted one. Only those two of the 32 access
      bits change, and only the hex characters holding them. */
  function WriteAccBit(t: string, slot: nat, index: nat, v: Bit): (r: string)
    requires IsHexBlock(t) && slot < SlotCount && index < BitsPerSlot
    ensures IsHexBlock(r)
    ensures forall k | 0 <= k < BlockChars
                       && k != AccFirstChar + Pair(slot, index).direct / 4
                       && k != AccFirstChar + Pair(slot, index).inverted / 4 :: r[k] == t[k]
    ensures forall q | 0 <= q < AccBitCount ::
              AccBit(r, q) == if q == Pair(slot, index).direct then v
                              else if q == Pair(slot, index).inverted then 1 - v
                              else AccBit(t, q)
  {
    var p := Pair(slot, index);
    PairsDistinct(slot, index, slot, index);
    WriteBit(WriteBit(t, p.direct, v), p.inverted, 1 - v)
  }

  /** The copies of condition bit `j` of `other` after writing bit `index` of
      `slot`: rewritten when it is the bit written, as before otherwise. */
  lemma WrittenPair(t: string, slot: nat, index: nat, v: Bit, other: nat, j: nat)
    requires IsHexBlock(t) && slot < SlotCount && index < BitsPerSlot
    requires other < SlotCount && j < BitsPerSlot
    ensures DirectBit(WriteAccBit(t, slot, index, v), other, j)
              == if (other, j) == (slot, index) then v else DirectBit(t, other, j)
    ensures InvertedBit(WriteAccBit(t, slot, index, v), other, j)
              == if (other, j) == (slot, index) then 1 - v else InvertedBit(t, other, j)
  {
    PairsDistinct(other, j, slot, index);
    PairsDistinct(slot, index, other, j);
  }

  /** A consistent slot decodes to its three direct bits. */
  lemma DecodeConsistent(t: string, slot: nat, c0: Bit, c1: Bit, c2: Bit)
    requires IsHexBlock(t) && slot < SlotCount
    requires PairConsistent(t, slot, 0) && PairConsistent(t, slot, 1) && PairConsistent(t, slot, 2)
    requires DirectBit(t, slot, 0) == c0 && DirectBit(t, slot, 1) == c1 && DirectBit(t, slot, 2) == c2
    ensures DecodeSlot(t, slot) == [BitChar(c0), BitChar(c1), BitChar(c2)]
  {
  }

  /** After writing bit `index` of a consistent slot, all three pairs of the slot
      are consistent again and the direct copies hold the old bits but for the
      one written. */
  lemma WrittenSlot(t: string, slot: nat, index: nat, v: Bit)
    requires IsHexBlock(t) && slot < SlotCount && index < BitsPerSlot
    requires SlotConsistent(t, slot)
    ensures var r := WriteAccBit(t, slot, index, v);
      && PairConsistent(r, slot, 0) && PairConsistent(r, slot, 1) && PairConsistent(r, slot, 2)
      && DirectBit(r, slot, 0) == (if index == 0 then v else DirectBit(t, slot, 0))
      && DirectBit(r, slot, 1) == (if index == 1 then v else DirectBit(t, slot, 1))
      && DirectBit(r, slot, 2) == (if index == 2 then v else DirectBit(t, slot, 2))
  {
    assert PairConsistent(t, slot, 0) && PairConsistent(t, slot, 1) && PairConsistent(t, slot, 2);
    WrittenPair(t, slot, index, v, slot, 0);
    WrittenPair(t, slot, index, v, slot, 1);
    WrittenPair(t, slot, index, v, slot, 2);
  }

  /** Two trailers whose slot is consistent and whose direct copies differ at
      most in bit `index` decode to conditions that differ at most there. */
  lemma DecodeReplaced(t: string, r: string, slot: nat, index: nat, v: Bit)
    requires IsHexBlock(t) && IsHexBlock(r) && slot < SlotCount && index < BitsPerSlot
    requires SlotConsistent(t, slot)
    requires PairConsistent(r, slot, 0) && PairConsistent(r, slot, 1) && PairConsistent(r, slot, 2)
    requires DirectBit(r, slot, 0) == (if index == 0 then v else DirectBit(t, slot, 0))
    requires DirectBit(r, slot, 1) == (if index == 1 then v else DirectBit(t, slot, 1))
    requires DirectBit(r, slot, 2) == (if index == 2 then v else DirectBit(t, slot, 2))
    ensures DecodeSlot(r, slot) == DecodeSlot(t, slot)[index := BitChar(v)]
  {
    var c0, c1, c2 := DirectBit(t, slot, 0), DirectBit(t, slot, 1), DirectBit(t, slot, 2);
    assert PairConsistent(t, slot, 0) && PairConsistent(t, slot, 1) && PairConsistent(t, slot, 2);
    DecodeConsistent(t, slot, c0, c1, c2);
    var c0', c1', c2' := DirectBit(r, slot, 0), DirectBit(r, slot, 1), DirectBit(r, slot, 2);
    DecodeConsistent(r, slot, c0', c1', c2');
    ReplaceThree(c0, c1, c2, index, v);
  }

  lemma ReplaceThree(c0: Bit, c1: Bit, c2: Bit, index: nat, v: Bit)
    requires index < BitsPerSlot
    ensures [BitChar(if index == 0 then v else c0), BitChar(if index == 1 then v else c1), BitChar(if index == 2 then v else c2)]
         == [BitChar(c0), BitChar(c1), BitChar(c2)][index := BitChar(v)]
  {
  }

  /** Writing one bit of a consistent slot yields a consistent slot that
      decodes to the old condition with that one bit replaced. */
  lemma {:induction false} DecodeAfterWrite(t: string, slot: nat, index: nat, v: Bit)
    requires IsHexBlock(t) && slot < SlotCount && index < BitsPerSlot
    requires SlotConsistent(t, slot)
    ensures DecodeSlot(WriteAccBit(t, slot, index, v), slot) == DecodeSlot(t, slot)[index := BitChar(v)]
  {
    WrittenSlot(t, slot, index, v);
    DecodeReplaced(t, WriteAccBit(t, slot, index, v), slot, index, v);
  }

  /** Writing a bit of one slot leaves the condition of every other slot as it was. */
  lemma {:induction false} WriteKeepsOtherSlots(t: string, slot: nat, index: nat, v: Bit, other: nat)
    requires IsHexBlock(t) && slot < SlotCount && index < BitsPerSlot
    requires other < SlotCount && other != slot
    ensures DecodeSlot(WriteAccBit(t, slot, index, v), other) == DecodeSlot(t, other)
  {
    var r := WriteAccBit(t, slot, index, v);
    WrittenPair(t, slot, index, v, other, 0);
    WrittenPair(t, slot, index, v, other, 1);
    WrittenPair(t, slot, index, v, other, 2);
    assert PairConsistent(r, other, 0) == PairConsistent(t, other, 0);
    assert PairConsistent(r, other, 1) == PairConsistent(t, other, 1);
    assert PairConsistent(r, other, 2) == PairConsistent(t, other, 2);
  }

  /** A trailer whose direct copy of one bit flipped while its inverted copy did
      not, as a single hex edit can do, decodes that slot as corrupt. */
  lemma {:induction false} LonelyFlipCorrupts(t: string, t': string, slot: nat, index: nat)
    requires IsHexBlock(t) && IsHexBlock(t') && slot < SlotCount && index < BitsPerSlot
    requires SlotConsistent(t, slot)
    requires DirectBit(t', slot, index) != DirectBit(t, slot, index)
    requires InvertedBit(t', slot, index) == InvertedBit(t, slot, index)
    ensures DecodeSlot(t', slot) == Corrupt
  {
    assert PairConsistent(t, slot, index);
    assert !PairConsistent(t', slot, index);
  }

  /** Writing back the bit a consistent pair already holds leaves the trailer
      as it was. */
  lemma {:induction false} RewriteKeepsTrailer(t: string, slot: nat, index: nat)
    requires IsHexBlock(t) && slot < SlotCount && index < BitsPerSlot
    requires PairConsistent(t, slot, index)
    ensures WriteAccBit(t, slot, index, DirectBit(t, slot, index)) == t
  {
    var r := WriteAccBit(t, slot, index, DirectBit(t, slot, index));
    forall q | 0 <= q < AccBitCount
      ensures AccBit(r, q) == AccBit(t, q)
    {
    }
    PairsDistinct(slot, index, slot, index);
    AccBitsDetermine(t, r);
  }
}
