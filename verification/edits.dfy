/** The two edits the editor offers: one character of a block's hex, and one
    access bit of a block's access string. Each returns the new state. */
module Edits {
  import opened HexCodec
  import opened AccessBits
  import opened Layout
  import opened Tables
  import opened Dump

  /** The characters the access-bit column accepts. */
  predicate IsBitChar(c: char) {
    c == '0' || c == '1'
  }

  /** What an access-bit edit needs of the state: blocks shaped like a dump
      and an access string of three characters per block. */
  predicate Editable(c: Card) {
    GeometryOk(c.blocks) && AccShaped(c.blocks, c.acc)
  }

  /** Hex digits of the UID at the start of the manufacturer block. */
  const UidChars: nat := 8
  /** Where the check byte (BCC) sits in the manufacturer block. */
  const BccFirstChar: nat := 8

  /** Digit-wise exclusive-or of two hex strings of one length, written back
      in lowercase. */
  function XorStr(a: string, b: string): (r: string)
    requires IsHexString(a) && IsHexString(b) && |a| == |b|
    ensures |r| == |a| && IsHexString(r)
    ensures forall k | 0 <= k < |a| :: NibbleValue(r[k]) == NibbleXor(NibbleValue(a[k]), NibbleValue(b[k]))
  {
    var r := seq(|a|, k requires 0 <= k < |a| => HexDigit(NibbleXor(NibbleValue(a[k]), NibbleValue(b[k]))));
    forall k | 0 <= k < |a|
      ensures NibbleValue(r[k]) == NibbleXor(NibbleValue(a[k]), NibbleValue(b[k]))
    {
      DigitValue(NibbleXor(NibbleValue(a[k]), NibbleValue(b[k])));
    }
    r
  }

  /** The first `n` two-digit groups of `h` folded with XorStr, left to right. */
  function XorGroups(h: string, n: nat): (r: string)
    requires IsHexString(h) && 1 <= n && 2 * n <= |h|
    ensures |r| == 2 && IsHexString(r)
    decreases n
  {
    if n == 1 then h[0..2] else XorStr(XorGroups(h, n - 1), h[2 * (n - 1)..2 * n])
  }

  /** The manufacturer block with its BCC rewritten from the four UID bytes. */
  function WithBcc(h: string): (r: string)
    requires IsHexBlock(h)
    ensures IsHexBlock(r)
    ensures forall k | 0 <= k < BlockChars && k != BccFirstChar && k != BccFirstChar + 1 :: r[k] == h[k]
  {
    var bcc := XorGroups(h, UidChars / 2);
    h[BccFirstChar := bcc[0]][BccFirstChar + 1 := bcc[1]]
  }

  /** Editing hex digit `index` of block `b` of sector `s`: the digit becomes
      `ch`; in the manufacturer block an edit of the UID also rewrites the BCC;
      then every table is derived afresh and the dump is marked edited. The
      caller never passes a BCC digit of the manufacturer block. */
  function UpdateBlocksHex(c: Card, s: nat, b: nat, index: nat, ch: char): (r: Card)
    requires GeometryOk(c.blocks) && s < |c.blocks| && b < |c.blocks[s]|
    requires index < BlockChars && IsHexChar(ch)
    requires !(s == 0 && b == 0 && (index == BccFirstChar || index == BccFirstChar + 1))
    ensures Synced(r) && r.edited
    ensures |r.blocks| == |c.blocks|
    ensures forall s' | 0 <= s' < |c.blocks| :: |r.blocks[s']| == |c.blocks[s']|
    ensures forall s', b' | 0 <= s' < |c.blocks| && 0 <= b' < |c.blocks[s']| && (s', b') != (s, b) ::
              r.blocks[s'][b'] == c.blocks[s'][b']
    ensures r.blocks[s][b][index] == ch
    ensures forall k | 0 <= k < BlockChars && k != index ::
              (r.blocks[s][b][k] == c.blocks[s][b][k]
               || (s == 0 && b == 0 && index < UidChars && (k == BccFirstChar || k == BccFirstChar + 1)))
    ensures s == 0 && b == 0 && index < UidChars ==> r.blocks[0][0] == WithBcc(c.blocks[0][0][index := ch])
  {
    var row := c.blocks[s][b][index := ch];
    assert IsHexBlock(row);
    var row' := if s == 0 && b == 0 && index < UidChars then WithBcc(row) else row;
    var blocks := c.blocks[s := c.blocks[s][b := row']];
    Build(blocks, true)
  }

  /** The XOR of four nibbles, folded left to right as the editor does. */
  function Xor4(a: Nibble, b: Nibble, c: Nibble, d: Nibble): Nibble {
    NibbleXor(NibbleXor(NibbleXor(a, b), c), d)
  }

  /** One step of the fold: digit j of n + 1 groups folded is digit j of n
      groups folded, XOR digit j of group n. */
  lemma XorGroupsStep(h: string, n: nat, j: nat)
    requires IsHexString(h) && 1 <= n && 2 * n + 2 <= |h| && j < 2
    ensures NibbleValue(XorGroups(h, n + 1)[j])
              == NibbleXor(NibbleValue(XorGroups(h, n)[j]), NibbleValue(h[2 * n + j]))
  {
    assert h[2 * n..2 * n + 2][j] == h[2 * n + j];
  }

  /** Digit j (0 or 1) of the BCC written is the XOR of digit j of the four
      UID bytes. */
  lemma {:induction false} BccDigit(h: string, j: nat)
    requires IsHexBlock(h) && j < 2
    ensures NibbleValue(WithBcc(h)[BccFirstChar + j])
              == Xor4(NibbleValue(h[j]), NibbleValue(h[2 + j]), NibbleValue(h[4 + j]), NibbleValue(h[6 + j]))
  {
    var a, b, c, d := NibbleValue(h[j]), NibbleValue(h[2 + j]), NibbleValue(h[4 + j]), NibbleValue(h[6 + j]);
    assert NibbleValue(XorGroups(h, 1)[j]) == a by {
      assert XorGroups(h, 1)[j] == h[j];
    }
    assert NibbleValue(XorGroups(h, 4)[j]) == Xor4(a, b, c, d) by {
      XorGroupsStep(h, 1, j);
      XorGroupsStep(h, 2, j);
      XorGroupsStep(h, 3, j);
    }
    assert WithBcc(h)[BccFirstChar + j] == XorGroups(h, 4)[j];
  }

  /** Bit k of byte i of a block, read off its hex digits. */
  lemma ByteBitOfHex(h: string, i: nat, k: nat)
    requires IsHexBlock(h) && i < 16 && k < 8
    ensures ByteBits(HexToBytes(h)[i])[k] == NibbleBits(NibbleValue(h[2 * i + k / 4]))[k % 4]
  {
    var u := HexToBytes(h)[i];
    assert u / 16 == NibbleValue(h[2 * i]) && u % 16 == NibbleValue(h[2 * i + 1]);
    var bits := ByteBits(u);
    assert bits == NibbleBits(u / 16) + NibbleBits(u % 16);
    if k < 4 {
      assert k / 4 == 0 && k % 4 == k && bits[k] == NibbleBits(u / 16)[k];
    } else {
      assert k / 4 == 1 && k % 4 == k - 4 && bits[k] == NibbleBits(u % 16)[k - 4];
    }
  }

  /** Bit m of a four-way nibble XOR is the XOR of the four bits m. */
  lemma Xor4Bit(a: Nibble, b: Nibble, c: Nibble, d: Nibble, m: nat)
    requires m < 4
    ensures NibbleBits(Xor4(a, b, c, d))[m]
              == BitXor(BitXor(BitXor(NibbleBits(a)[m], NibbleBits(b)[m]), NibbleBits(c)[m]), NibbleBits(d)[m])
  {
  }

  /** The BCC the editor writes is the ISO/IEC 14443-3 check byte: bit by bit,
      the exclusive-or of the four UID bytes. */
  lemma {:induction false} BccIsUidXor(h: string, k: nat)
    requires IsHexBlock(h) && k < 8
    ensures var u := HexToBytes(WithBcc(h));
      ByteBits(u[4])[k]
        == BitXor(BitXor(BitXor(ByteBits(u[0])[k], ByteBits(u[1])[k]), ByteBits(u[2])[k]), ByteBits(u[3])[k])
  {
    var h' := WithBcc(h);
    var j, m := k / 4, k % 4;
    BccDigit(h, j);
    ByteBitOfHex(h', 0, k);
    ByteBitOfHex(h', 1, k);
    ByteBitOfHex(h', 2, k);
    ByteBitOfHex(h', 3, k);
    ByteBitOfHex(h', 4, k);
    assert h'[j] == h[j] && h'[2 + j] == h[2 + j] && h'[4 + j] == h[4 + j] && h'[6 + j] == h[6 + j];
    Xor4Bit(NibbleValue(h[j]), NibbleValue(h[2 + j]), NibbleValue(h[4 + j]), NibbleValue(h[6 + j]), m);
  }

  /** After an edit of the UID, the manufacturer block carries the ISO/IEC
      14443-3 check byte of the new UID: bit by bit, byte 4 is the
      exclusive-or of bytes 0..3. */
  lemma {:induction false} UidEditKeepsBcc(c: Card, index: nat, ch: char, k: nat)
    requires GeometryOk(c.blocks) && index < UidChars && IsHexChar(ch) && k < 8
    ensures var u := HexToBytes(UpdateBlocksHex(c, 0, 0, index, ch).blocks[0][0]);
      ByteBits(u[4])[k]
        == BitXor(BitXor(BitXor(ByteBits(u[0])[k], ByteBits(u[1])[k]), ByteBits(u[2])[k]), ByteBits(u[3])[k])
  {
    var row := c.blocks[0][0][index := ch];
    assert IsHexBlock(row);
    assert UpdateBlocksHex(c, 0, 0, index, ch).blocks[0][0] == WithBcc(row);
    BccIsUidXor(row, k);
  }

  /** Editing a digit back to what it was restores the blocks, except in the
      UID, where the BCC is rewritten as well. */
  lemma {:induction false} HexEditUndo(c: Card, s: nat, b: nat, index: nat, ch: char)
    requires GeometryOk(c.blocks) && s < |c.blocks| && b < |c.blocks[s]|
    requires index < BlockChars && IsHexChar(ch)
    requires !(s == 0 && b == 0 && index < BccFirstChar + 2)
    ensures var once := UpdateBlocksHex(c, s, b, index, ch);
      UpdateBlocksHex(once, s, b, index, c.blocks[s][b][index]).blocks == c.blocks
  {
    var once := UpdateBlocksHex(c, s, b, index, ch);
    var twice := UpdateBlocksHex(once, s, b, index, c.blocks[s][b][index]);
    assert twice.blocks[s][b] == c.blocks[s][b];
    assert twice.blocks[s] == c.blocks[s];
  }

  /** The access table with character `index` of block b's string set to `ch`. */
  function PatchAcc(acc: seq<seq<string>>, s: nat, b: nat, index: nat, ch: char): seq<seq<string>>
    requires s < |acc| && b < |acc[s]| && index < |acc[s][b]|
  {
    acc[s := acc[s][b := acc[s][b][index := ch]]]
  }

  /** The character an access-bit edit reads back after patching: character
      `index` of the patched string of block SlotOf(count, b). */
  function ReadBack(c: Card, s: nat, b: nat, index: nat, ch: char): char
    requires Editable(c) && s < |c.blocks| && b < |c.blocks[s]| && index < BitsPerSlot
  {
    PatchAcc(c.acc, s, b, index, ch)[s][SlotOf(|c.blocks[s]|, b)][index]
  }

  /** The trailer of sector `s` with bit `v` written as condition bit `index`
      of slot SlotOf(count, b). */
  function RewrittenTrailer(c: Card, s: nat, b: nat, index: nat, v: Bit): string
    requires GeometryOk(c.blocks) && s < |c.blocks| && b < |c.blocks[s]| && index < BitsPerSlot
  {
    WriteAccBit(Trailer(c.blocks[s]), SlotOf(|c.blocks[s]|, b), index, v)
  }

  /** Editing access bit `index` of block `b` of sector `s` to `ch`: the
      character is patched into the block's access string; the bit it then
      reads back from the access string of block SlotOf(count, b) is written
      into the trailer, at the direct position of slot SlotOf(count, b), and its
      complement at the inverted one; `accErr` and `dataWarn` are rebuilt from
      the patched strings. The access strings are not decoded again and the
      edited mark is left as it was. A character read back that is not a bit
      makes the bit array raise an exception that nothing catches: the editor
      terminates, losing unsaved edits. */
  function UpdateAccBit(c: Card, s: nat, b: nat, index: nat, ch: char): (r: Result<Card>)
    requires Editable(c) && s < |c.blocks| && b < |c.blocks[s]|
    requires index < BitsPerSlot && IsBitChar(ch)
    ensures |c.blocks[s]| == 4 ==> r.Success?
    ensures r.Failure? ==> r.error == BitValueError
    ensures r.Success? <==> IsBitChar(ReadBack(c, s, b, index, ch))
    ensures r.Success? ==>
              && r.value.edited == c.edited
              && r.value.acc == PatchAcc(c.acc, s, b, index, ch)
              && r.value.acc[s][b][index] == ch
              && |r.value.blocks| == |c.blocks| && |r.value.blocks[s]| == |c.blocks[s]|
              && r.value.blocks == c.blocks[s := c.blocks[s][|c.blocks[s]| - 1 := Trailer(r.value.blocks[s])]]
              && Trailer(r.value.blocks[s]) == RewrittenTrailer(c, s, b, index, CharBit(ReadBack(c, s, b, index, ch)))
  {
    var acc := PatchAcc(c.acc, s, b, index, ch);
    var read := ReadBack(c, s, b, index, ch);
    if !IsBitChar(read) then Failure(BitValueError)
    else
      var blocks := c.blocks[s := c.blocks[s][|c.blocks[s]| - 1 := RewrittenTrailer(c, s, b, index, CharBit(read))]];
      Success(Card(blocks, acc, FillAccErr(acc), CheckData(blocks, acc), c.edited))
  }

  /** An access-bit edit keeps the state well formed: the patched strings
      keep their shape, and `accErr` and `dataWarn` are rebuilt from them. */
  lemma {:induction false} AccEditKeepsValid(c: Card, s: nat, b: nat, index: nat, ch: char)
    requires Editable(c) && s < |c.blocks| && b < |c.blocks[s]|
    requires index < BitsPerSlot && IsBitChar(ch)
    ensures UpdateAccBit(c, s, b, index, ch).Success? ==> Valid(UpdateAccBit(c, s, b, index, ch).value)
  {
  }

  /** What an access-bit edit does to the trailer: nothing outside the access
      bytes, and in a four-block sector exactly the direct copy of the edited
      bit (set to `ch`) and its inverted copy (set to the complement). */
  lemma {:induction false} AccEditWritesPair(c: Card, s: nat, b: nat, index: nat, ch: char)
    requires Editable(c) && s < |c.blocks| && b < |c.blocks[s]|
    requires index < BitsPerSlot && IsBitChar(ch)
    ensures var r := UpdateAccBit(c, s, b, index, ch);
      r.Success? ==>
        var t, t' := Trailer(c.blocks[s]), Trailer(r.value.blocks[s]);
        forall k | 0 <= k < BlockChars && !(AccFirstChar <= k < AccFirstChar + AccChars) :: t'[k] == t[k]
    ensures var r := UpdateAccBit(c, s, b, index, ch);
      |c.blocks[s]| == 4 ==>
        var t, t', p := Trailer(c.blocks[s]), Trailer(r.value.blocks[s]), Pair(b, index);
        forall q | 0 <= q < AccBitCount ::
          AccBit(t', q) == (if q == p.direct then CharBit(ch)
                            else if q == p.inverted then 1 - CharBit(ch)
                            else AccBit(t, q))
  {
    var r := UpdateAccBit(c, s, b, index, ch);
    if r.Success? {
      var slot := SlotOf(|c.blocks[s]|, b);
      PairsDistinct(slot, index, slot, index);
      var read := ReadBack(c, s, b, index, ch);
      assert Trailer(r.value.blocks[s]) == RewrittenTrailer(c, s, b, index, CharBit(read));
      if |c.blocks[s]| == 4 {
        assert slot == b && read == ch;
      }
    }
  }

  /** In a four-block sector, writing condition bit `index` of an intact slot
      b changes the decoded strings in exactly one place: character `index` of
      block b's string. */
  lemma {:induction false} SmallSectorWrite(t: string, b: nat, index: nat, v: Bit)
    requires IsHexBlock(t) && b < 4 && index < BitsPerSlot
    requires SlotConsistent(t, b)
    ensures SectorAcc(WriteAccBit(t, b, index, v), 4) == SectorAcc(t, 4)[b := SectorAcc(t, 4)[b][index := BitChar(v)]]
  {
    SlotsAfterWrite(t, b, index, v);
    SmallSectorEntries(Slots(t));
    SmallSectorEntries(Slots(WriteAccBit(t, b, index, v)));
  }

  /** All four slots after the write: slot b patched at `index`, the others
      as they were. */
  lemma {:induction false} SlotsAfterWrite(t: string, b: nat, index: nat, v: Bit)
    requires IsHexBlock(t) && b < SlotCount && index < BitsPerSlot
    requires SlotConsistent(t, b)
    ensures Slots(WriteAccBit(t, b, index, v)) == Slots(t)[b := Slots(t)[b][index := BitChar(v)]]
  {
    var t' := WriteAccBit(t, b, index, v);
    forall b' | 0 <= b' < SlotCount && b' != b
      ensures DecodeSlot(t', b') == DecodeSlot(t, b')
    {
      SlotAfterWrite(t, b, index, v, b');
    }
    SlotAfterWrite(t, b, index, v, b);
    SlotsPatched(t, t', b, DecodeSlot(t, b)[index := BitChar(v)]);
  }

  /** Two trailers that decode alike except at slot b, where the second
      decodes to `x`, have slot tables that differ only there. */
  lemma SlotsPatched(t: string, t': string, b: nat, x: string)
    requires IsHexBlock(t) && IsHexBlock(t') && b < SlotCount
    requires DecodeSlot(t', b) == x
    requires forall b' | 0 <= b' < SlotCount && b' != b :: DecodeSlot(t', b') == DecodeSlot(t, b')
    ensures Slots(t') == Slots(t)[b := x]
  {
    assert forall b' | 0 <= b' < SlotCount :: Slots(t')[b'] == DecodeSlot(t', b') && Slots(t)[b'] == DecodeSlot(t, b');
  }

  /** Slot b' of a trailer after writing condition bit `index` of the intact
      slot b. */
  lemma SlotAfterWrite(t: string, b: nat, index: nat, v: Bit, b': nat)
    requires IsHexBlock(t) && b < SlotCount && index < BitsPerSlot && b' < SlotCount
    requires SlotConsistent(t, b)
    ensures DecodeSlot(WriteAccBit(t, b, index, v), b')
              == if b' == b then DecodeSlot(t, b)[index := BitChar(v)] else DecodeSlot(t, b')
  {
    if b' == b {
      DecodeAfterWrite(t, b, index, v);
    } else {
      WriteKeepsOtherSlots(t, b, index, v, b');
    }
  }

  /** In a four-block sector, the re-decode needs nothing beyond the edited
      block: when block b's string is what slot b decodes to and is intact, the
      edit succeeds, the new trailer decodes slot b to the patched string, and
      every other slot decodes as before. */
  lemma {:induction false} BlockEditRedecodes(c: Card, s: nat, b: nat, index: nat, ch: char)
    requires Editable(c) && s < |c.blocks| && b < |c.blocks[s]|
    requires index < BitsPerSlot && IsBitChar(ch)
    requires |c.blocks[s]| == 4 && c.acc[s][b] == DecodeSlot(Trailer(c.blocks[s]), b)
    requires c.acc[s][b] != Corrupt
    ensures UpdateAccBit(c, s, b, index, ch).Success?
    ensures var t, r := Trailer(c.blocks[s]), UpdateAccBit(c, s, b, index, ch).value;
      && r.acc[s][b] == DecodeSlot(Trailer(r.blocks[s]), b)
      && forall b' | 0 <= b' < SlotCount && b' != b :: DecodeSlot(Trailer(r.blocks[s]), b') == DecodeSlot(t, b')
  {
    var t := Trailer(c.blocks[s]);
    assert SlotOf(4, b) == b && ReadBack(c, s, b, index, ch) == ch;
    var r := UpdateAccBit(c, s, b, index, ch).value;
    assert Trailer(r.blocks[s]) == WriteAccBit(t, b, index, CharBit(ch));
    forall b' | 0 <= b' < SlotCount
      ensures DecodeSlot(Trailer(r.blocks[s]), b') == if b' == b then DecodeSlot(t, b)[index := ch] else DecodeSlot(t, b')
    {
      SlotAfterWrite(t, b, index, CharBit(ch), b');
    }
  }

  /** The same for the whole sector: when all four of its access strings are
      what its trailer decodes to, such an edit keeps the sector in step, and
      decoding the new trailer gives the patched strings. Other sectors play
      no part. */
  lemma {:induction false} SmallSectorEditRedecodes(c: Card, s: nat, b: nat, index: nat, ch: char)
    requires Editable(c) && s < |c.blocks| && b < |c.blocks[s]|
    requires index < BitsPerSlot && IsBitChar(ch)
    requires |c.blocks[s]| == 4 && c.acc[s] == SectorAcc(Trailer(c.blocks[s]), 4)
    requires c.acc[s][b] != Corrupt
    ensures UpdateAccBit(c, s, b, index, ch).Success?
    ensures var r := UpdateAccBit(c, s, b, index, ch).value;
      r.acc[s] == SectorAcc(Trailer(r.blocks[s]), 4)
  {
    var t := Trailer(c.blocks[s]);
    assert c.acc[s][b] == Slots(t)[b] == DecodeSlot(t, b);
    assert SlotOf(4, b) == b && ReadBack(c, s, b, index, ch) == ch;
    var r := UpdateAccBit(c, s, b, index, ch).value;
    assert Trailer(r.blocks[s]) == WriteAccBit(t, b, index, CharBit(ch));
    SmallSectorWrite(t, b, index, CharBit(ch));
  }

  /** Hence, on a state whose whole access table is decoded from the
      trailers, such an edit keeps the whole table decoded. */
  lemma {:induction false} SmallSectorEditKeepsSynced(c: Card, s: nat, b: nat, index: nat, ch: char)
    requires Synced(c) && s < |c.blocks| && b < |c.blocks[s]|
    requires index < BitsPerSlot && IsBitChar(ch)
    requires |c.blocks[s]| == 4 && c.acc[s][b] != Corrupt
    ensures UpdateAccBit(c, s, b, index, ch).Success?
    ensures Synced(UpdateAccBit(c, s, b, index, ch).value)
  {
    assert c.acc[s] == FillAcc(c.blocks)[s];
    SmallSectorEditRedecodes(c, s, b, index, ch);
    AccEditKeepsValid(c, s, b, index, ch);
    var r := UpdateAccBit(c, s, b, index, ch).value;
    forall s' | 0 <= s' < |r.blocks|
      ensures FillAcc(r.blocks)[s'] == r.acc[s']
    {
      if s' == s {
        assert FillAcc(r.blocks)[s] == SectorAcc(Trailer(r.blocks[s]), 4);
      }
    }
  }

  /** Condition bit `i` of `slot` is stored consistently and equals the bit
      `ch` shows. */
  predicate BitShown(t: string, slot: nat, i: nat, ch: char)
    requires IsHexBlock(t) && slot < SlotCount && i < BitsPerSlot && IsBitChar(ch)
  {
    PairConsistent(t, slot, i) && DirectBit(t, slot, i) == CharBit(ch)
  }

  /** In four-block sectors the access strings never contradict their
      trailer on a bit they show: every '0' or '1' at place i of block b's
      string is condition bit i of slot b, stored consistently. A character
      that is not a bit ("E", "R", left behind by an edit of a corrupt slot)
      says nothing. */
  predicate ShownBitsHold(c: Card)
    requires Editable(c)
  {
    forall s, b, i | 0 <= s < |c.blocks| && |c.blocks[s]| == 4 && 0 <= b < 4 && 0 <= i < BitsPerSlot
                     && IsBitChar(c.acc[s][b][i]) ::
      BitShown(Trailer(c.blocks[s]), b, i, c.acc[s][b][i])
  }

  /** A state whose access table is decoded from its trailers shows only
      bits that hold: so does every state a read or a hex edit produces. */
  lemma {:induction false} SyncedShowsBits(c: Card)
    requires Synced(c)
    ensures Editable(c) && ShownBitsHold(c)
  {
    forall s, b, i | 0 <= s < |c.blocks| && |c.blocks[s]| == 4 && 0 <= b < 4 && 0 <= i < BitsPerSlot
                     && IsBitChar(c.acc[s][b][i])
      ensures BitShown(Trailer(c.blocks[s]), b, i, c.acc[s][b][i])
    {
      AccEntry(c.blocks, s, b);
      assert SlotOf(4, b) == b;
      if c.acc[s][b] == Corrupt {
        CorruptIsNotBinary(i);
        assert false;
      }
      BitCharRoundTrip(DirectBit(Trailer(c.blocks[s]), b, i));
    }
  }

  /** An access-bit edit keeps the shown bits holding: in a four-block sector
      the typed bit is written with its complement, and no other pair moves;
      a sixteen-block sector's strings and trailer play no part. */
  lemma {:induction false} AccEditKeepsShownBits(c: Card, s: nat, b: nat, index: nat, ch: char)
    requires Editable(c) && ShownBitsHold(c) && s < |c.blocks| && b < |c.blocks[s]|
    requires index < BitsPerSlot && IsBitChar(ch)
    ensures var r := UpdateAccBit(c, s, b, index, ch);
      r.Success? ==> Editable(r.value) && ShownBitsHold(r.value)
  {
    var res := UpdateAccBit(c, s, b, index, ch);
    if res.Success? {
      var r := res.value;
      AccEditKeepsValid(c, s, b, index, ch);
      forall s', b', i' | 0 <= s' < |r.blocks| && |r.blocks[s']| == 4 && 0 <= b' < 4 && 0 <= i' < BitsPerSlot
                          && IsBitChar(r.acc[s'][b'][i'])
        ensures BitShown(Trailer(r.blocks[s']), b', i', r.acc[s'][b'][i'])
      {
        if s' == s {
          ShownBitAfterEdit(c, s, b, index, ch, b', i');
        } else {
          assert r.blocks[s'] == c.blocks[s'] && r.acc[s'] == c.acc[s'];
        }
      }
    }
  }

  /** The step of AccEditKeepsShownBits inside the edited four-block sector. */
  lemma {:induction false} ShownBitAfterEdit(c: Card, s: nat, b: nat, index: nat, ch: char, b': nat, i': nat)
    requires Editable(c) && ShownBitsHold(c) && s < |c.blocks| && b < |c.blocks[s]| == 4
    requires index < BitsPerSlot && IsBitChar(ch) && b' < 4 && i' < BitsPerSlot
    ensures var r := UpdateAccBit(c, s, b, index, ch).value;
      IsBitChar(r.acc[s][b'][i']) ==> BitShown(Trailer(r.blocks[s]), b', i', r.acc[s][b'][i'])
  {
    var r := UpdateAccBit(c, s, b, index, ch).value;
    var t := Trailer(c.blocks[s]);
    assert SlotOf(4, b) == b && ReadBack(c, s, b, index, ch) == ch;
    assert Trailer(r.blocks[s]) == WriteAccBit(t, b, index, CharBit(ch));
    var shown := r.acc[s][b'][i'];
    if (b', i') == (b, index) {
      assert shown == ch;
    } else {
      assert shown == c.acc[s][b'][i'];
    }
    WriteShowsBit(t, b, index, CharBit(ch), b', i', shown);
  }

  /** Writing condition bit `index` of slot b shows that bit, and keeps every
      other condition bit that was shown. */
  lemma WriteShowsBit(t: string, b: nat, index: nat, v: Bit, b': nat, i': nat, ch: char)
    requires IsHexBlock(t) && b < SlotCount && index < BitsPerSlot && b' < SlotCount && i' < BitsPerSlot
    ensures BitShown(WriteAccBit(t, b, index, v), b, index, BitChar(v))
    ensures (b', i') != (b, index) && IsBitChar(ch) && BitShown(t, b', i', ch) ==>
              BitShown(WriteAccBit(t, b, index, v), b', i', ch)
  {
    PairsDistinct(b, index, b, index);
    PairsDistinct(b, index, b', i');
    PairsDistinct(b', i', b, index);
  }

  /** Where the shown bits hold, an access string of a four-block sector that
      is all bits is exactly what its slot decodes to: the premise of
      BlockEditRedecodes. */
  lemma {:induction false} ShownBitsDecode(c: Card, s: nat, b: nat)
    requires Editable(c) && ShownBitsHold(c) && s < |c.blocks| && b < |c.blocks[s]| == 4
    requires IsBinaryString(c.acc[s][b])
    ensures c.acc[s][b] == DecodeSlot(Trailer(c.blocks[s]), b)
  {
    var t, a := Trailer(c.blocks[s]), c.acc[s][b];
    forall i | 0 <= i < BitsPerSlot
      ensures PairConsistent(t, b, i) && BitChar(DirectBit(t, b, i)) == a[i]
    {
      assert IsBitChar(a[i]);
      assert BitShown(t, b, i, a[i]);
    }
    var d := DecodeSlot(t, b);
    assert |d| == |a| == BitsPerSlot;
  }

  /** In a sixteen-block sector, an edit of any block but 0 reads back the
      string of block b / 5, one of blocks 0..3, all governed by slot 0: when
      that string is what slot 0 decodes to, the bit read is slot 0's. */
  lemma {:induction false} ReadBackInLargeSector(c: Card, s: nat, b: nat, index: nat, ch: char)
    requires Editable(c) && s < |c.blocks| && 0 < b < |c.blocks[s]|
    requires index < BitsPerSlot && |c.blocks[s]| == 16
    requires c.acc[s][b / 5] == DecodeSlot(Trailer(c.blocks[s]), 0)
    ensures var t := Trailer(c.blocks[s]);
      ReadBack(c, s, b, index, ch) == if SlotConsistent(t, 0) then BitChar(DirectBit(t, 0, index)) else Corrupt[index]
  {
    var slot := b / 5;
    assert SlotOf(16, b) == slot && slot != b;
    assert ReadBack(c, s, b, index, ch) == c.acc[s][slot][index];
  }

  /** The quirk of the editor on sixteen-block sectors: an edit of block b from
      5 on writes into slot b / 5 the bit that the access string of block b / 5
      holds, which is slot 0's (blocks 0..4 all show slot 0). The character
      typed is ignored, and when slot 0 is corrupt the read-back raises the
      exception that terminates the editor. */
  lemma {:induction false} LargeSectorEditCopiesSlotZero(c: Card, s: nat, b: nat, index: nat, ch: char)
    requires Editable(c) && s < |c.blocks| && 5 <= b < |c.blocks[s]|
    requires index < BitsPerSlot && IsBitChar(ch)
    requires |c.blocks[s]| == 16 && c.acc[s][b / 5] == DecodeSlot(Trailer(c.blocks[s]), 0)
    ensures var t, r := Trailer(c.blocks[s]), UpdateAccBit(c, s, b, index, ch);
      && (r.Failure? <==> !SlotConsistent(t, 0))
      && (r.Success? ==> Trailer(r.value.blocks[s]) == WriteAccBit(t, b / 5, index, DirectBit(t, 0, index)))
  {
    var t := Trailer(c.blocks[s]);
    var r := UpdateAccBit(c, s, b, index, ch);
    var read := ReadBack(c, s, b, index, ch);
    ReadBackInLargeSector(c, s, b, index, ch);
    if SlotConsistent(t, 0) {
      var v := DirectBit(t, 0, index);
      BitCharRoundTrip(v);
      assert read == BitChar(v);
      assert SlotOf(16, b) == b / 5;
      assert Trailer(r.value.blocks[s]) == RewrittenTrailer(c, s, b, index, v);
    } else {
      CorruptIsNotBinary(index);
    }
  }

  /** Also on sixteen-block sectors: an edit of blocks 1..4 reads back slot 0's
      own bit, unpatched, so the trailer stays as it was when slot 0 is intact. */
  lemma {:induction false} LargeSectorEditOfGroupKeepsTrailer(c: Card, s: nat, b: nat, index: nat, ch: char)
    requires Editable(c) && s < |c.blocks| && 1 <= b < 5
    requires index < BitsPerSlot && IsBitChar(ch)
    requires |c.blocks[s]| == 16 && c.acc[s][b / 5] == DecodeSlot(Trailer(c.blocks[s]), 0)
    requires SlotConsistent(Trailer(c.blocks[s]), 0)
    ensures UpdateAccBit(c, s, b, index, ch).Success?
    ensures UpdateAccBit(c, s, b, index, ch).value.blocks == c.blocks
  {
    var t := Trailer(c.blocks[s]);
    ReadBackInLargeSector(c, s, b, index, ch);
    assert SlotOf(16, b) == 0;
    assert PairConsistent(t, 0, index);
    BitCharRoundTrip(DirectBit(t, 0, index));
    RewriteKeepsTrailer(t, 0, index);
    assert RewrittenTrailer(c, s, b, index, DirectBit(t, 0, index)) == t;
    assert c.blocks[s][15 := t] == c.blocks[s];
  }
}
