/** The tables the editor derives from the blocks of a dump: the access string
    of every block (`acc`), whether that string is intact (`acc_err`), and the
    value-block verdict of every block (`data_warn`). */
module Tables {
  import opened HexCodec
  import opened AccessBits
  import opened ValueBlock
  import opened Layout

  /** The `acc_err` verdict: "OK" or "ERR". */
  datatype AccFlag = AccOk | AccErr

  /** The access strings of the four slots of trailer `t`. */
  function Slots(t: string): (slots: seq<string>)
    requires IsHexBlock(t)
    ensures |slots| == SlotCount
  {
    seq(SlotCount, i requires 0 <= i < SlotCount => DecodeSlot(t, i))
  }

  /** One entry per block of a sector of `count` blocks: the entry of the slot
      governing that block. */
  function SlotEntries<T>(slots: seq<T>, count: nat): (entries: seq<T>)
    requires |slots| == SlotCount && (count == 4 || count == 16)
    ensures |entries| == count
  {
    seq(count, b requires 0 <= b < count => slots[SlotOf(count, b)])
  }

  /** A four-block sector takes the slots one for one. */
  lemma SmallSectorEntries<T>(slots: seq<T>)
    requires |slots| == SlotCount
    ensures SlotEntries(slots, 4) == slots
  {
    forall b | 0 <= b < 4
      ensures SlotEntries(slots, 4)[b] == slots[b]
    {
      assert SlotOf(4, b) == b;
    }
  }

  /** The access strings of a sector, one per block: slot i for block i in a
      four-block sector, slot b / 5 for block b in a sixteen-block one, all read
      from the sector's trailer `t`. */
  function SectorAcc(t: string, count: nat): (acc: seq<string>)
    requires IsHexBlock(t) && (count == 4 || count == 16)
    ensures |acc| == count
  {
    SlotEntries(Slots(t), count)
  }

  /** The access-string table of all sectors. */
  function FillAcc(blocks: seq<seq<string>>): (acc: seq<seq<string>>)
    requires GeometryOk(blocks)
    ensures |acc| == |blocks|
    ensures forall s | 0 <= s < |blocks| :: |acc[s]| == |blocks[s]|
  {
    seq(|blocks|, s requires 0 <= s < |blocks| => SectorAcc(Trailer(blocks[s]), |blocks[s]|))
  }

  /** The loop by which the editor fills the entries of a four-block sector:
      slot i for block i. */
  method FillDirect<T>(slots: seq<T>) returns (entries: seq<T>)
    requires |slots| == SlotCount
    ensures entries == SlotEntries(slots, 4)
  {
    entries := [];
    var i := 0;
    while i < 4
      invariant 0 <= i <= 4 && |entries| == i
      invariant forall n | 0 <= n < i :: entries[n] == slots[n]
    {
      entries := entries + [slots[i]];
      i := i + 1;
    }
  }

  /** The nested loops by which the editor fills the entries of a sixteen-block
      sector: for slot i = 0..3 and j = 0..4 it appends slot i, leaving the
      inner loop once i * 5 + j reaches the block count. */
  method FillGrouped<T>(slots: seq<T>) returns (entries: seq<T>)
    requires |slots| == SlotCount
    ensures entries == SlotEntries(slots, 16)
  {
    var count := 16;
    entries := [];
    var i := 0;
    while i < 4
      invariant 0 <= i <= 4 && |entries| == if 5 * i < count then 5 * i else count
      invariant forall n | 0 <= n < |entries| :: entries[n] == slots[n / 5]
    {
      var j := 0;
      while j < 5
        invariant 0 <= j <= 5 && |entries| == if 5 * i + j < count then 5 * i + j else count
        invariant forall n | 0 <= n < |entries| :: entries[n] == slots[n / 5]
      {
        if i * 5 + j >= count {
          break;
        }
        assert (5 * i + j) / 5 == i;
        entries := entries + [slots[i]];
        j := j + 1;
      }
      i := i + 1;
    }
  }

  /** The editor's fill of one sector's access strings, slots decoded from its
      trailer; sectors of other sizes get no entries. */
  method FillSectorAcc(t: string, count: nat) returns (acc: seq<string>)
    requires IsHexBlock(t) && (count == 4 || count == 16)
    ensures acc == SectorAcc(t, count)
  {
    if count == 4 {
      acc := FillDirect(Slots(t));
    } else {
      acc := FillGrouped(Slots(t));
    }
  }

  /** Python's `str.isdigit` on the strings the table holds: non-empty and all
      decimal digits. */
  predicate IsDigits(a: string) {
    |a| > 0 && forall i | 0 <= i < |a| :: '0' <= a[i] <= '9'
  }

  function AccFlagOf(a: string): AccFlag {
    if IsDigits(a) then AccOk else AccErr
  }

  /** The `acc_err` table: one verdict per access string. */
  function FillAccErr(acc: seq<seq<string>>): (err: seq<seq<AccFlag>>)
    ensures |err| == |acc|
    ensures forall s | 0 <= s < |acc| :: |err[s]| == |acc[s]|
  {
    seq(|acc|, s requires 0 <= s < |acc| =>
      seq(|acc[s]|, b requires 0 <= b < |acc[s]| => AccFlagOf(acc[s][b])))
  }

  /** The access table has one three-character string per block. */
  predicate AccShaped(blocks: seq<seq<string>>, acc: seq<seq<string>>) {
    && |acc| == |blocks|
    && (forall s | 0 <= s < |blocks| :: |acc[s]| == |blocks[s]|)
    && (forall s, b | 0 <= s < |acc| && 0 <= b < |acc[s]| :: |acc[s][b]| == BitsPerSlot)
  }

  /** The access conditions under which a data block is checked as a value
      block. */
  const ValueCodes: seq<string> := ["000", "001", "110"]

  /** The `data_warn` verdict of block `b` of sector `s`. */
  function BlockWarning(blocks: seq<seq<string>>, acc: seq<seq<string>>, s: nat, b: nat): Status
    requires GeometryOk(blocks) && AccShaped(blocks, acc)
    requires s < |blocks| && b < |blocks[s]|
  {
    if b == |blocks[s]| - 1 then Ok
    else if acc[s][b] in ValueCodes then
      if s == 0 && b == 0 then Ok else CheckBlock(blocks[s][b])
    else Ok
  }

  /** The `data_warn` table. */
  function CheckData(blocks: seq<seq<string>>, acc: seq<seq<string>>): (warn: seq<seq<Status>>)
    requires GeometryOk(blocks) && AccShaped(blocks, acc)
    ensures |warn| == |blocks|
    ensures forall s | 0 <= s < |blocks| :: |warn[s]| == |blocks[s]|
  {
    seq(|blocks|, s requires 0 <= s < |blocks| =>
      seq(|blocks[s]|, b requires 0 <= b < |blocks[s]| => BlockWarning(blocks, acc, s, b)))
  }

  /** Decoded access strings have the table's shape. */
  lemma {:induction false} FillAccShaped(blocks: seq<seq<string>>)
    requires GeometryOk(blocks)
    ensures AccShaped(blocks, FillAcc(blocks))
  {
    var acc := FillAcc(blocks);
    forall s, b | 0 <= s < |acc| && 0 <= b < |acc[s]|
      ensures |acc[s][b]| == BitsPerSlot
    {
      var count := |blocks[s]|;
      assert acc[s][b] == Slots(Trailer(blocks[s]))[SlotOf(count, b)] == DecodeSlot(Trailer(blocks[s]), SlotOf(count, b));
    }
  }

  /** A block's access string read from the trailer: "ERR" exactly when the
      governing slot's inverted copy fails to complement its direct copy, else
      the three direct bits C1 C2 C3 of that slot. */
  lemma {:induction false} AccEntry(blocks: seq<seq<string>>, s: nat, b: nat)
    requires GeometryOk(blocks) && s < |blocks| && b < |blocks[s]|
    ensures var t, slot := Trailer(blocks[s]), SlotOf(|blocks[s]|, b);
      && (FillAcc(blocks)[s][b] == Corrupt <==> !SlotConsistent(t, slot))
      && (FillAcc(blocks)[s][b] != Corrupt ==>
            forall index | 0 <= index < BitsPerSlot :: FillAcc(blocks)[s][b][index] == BitChar(DirectBit(t, slot, index)))
  {
    var t, slot := Trailer(blocks[s]), SlotOf(|blocks[s]|, b);
    assert FillAcc(blocks)[s][b] == Slots(t)[slot] == DecodeSlot(t, slot);
  }

  /** "OK" in `acc_err` means exactly that the slot's two copies agree. */
  lemma {:induction false} AccErrMeansCorrupt(blocks: seq<seq<string>>, s: nat, b: nat)
    requires GeometryOk(blocks) && s < |blocks| && b < |blocks[s]|
    ensures (FillAccErr(FillAcc(blocks))[s][b] == AccOk)
              <==> SlotConsistent(Trailer(blocks[s]), SlotOf(|blocks[s]|, b))
  {
    var a := FillAcc(blocks)[s][b];
    AccEntry(blocks, s, b);
    if a == Corrupt {
      assert a[0] == 'E';
    } else {
      assert a[0] == '0' || a[0] == '1';
    }
  }

  /** The `data_warn` table flags exactly the data blocks other than the
      manufacturer block whose access string is a value code and whose bytes
      break the value-block format. */
  lemma {:induction false} WarnMeansBrokenValueBlock(blocks: seq<seq<string>>, acc: seq<seq<string>>, s: nat, b: nat)
    requires GeometryOk(blocks) && AccShaped(blocks, acc)
    requires s < |blocks| && b < |blocks[s]|
    ensures CheckData(blocks, acc)[s][b] == Warn <==>
              && b != |blocks[s]| - 1
              && !(s == 0 && b == 0)
              && acc[s][b] in ValueCodes
              && !IsValueBlock(HexToBytes(blocks[s][b]))
  {
    assert CheckData(blocks, acc)[s][b] == BlockWarning(blocks, acc, s, b);
  }
}
