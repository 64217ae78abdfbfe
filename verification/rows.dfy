/** The rows of the editor's table: one per block, sector after sector, with a
    separator row between two sectors; and the classification of a row number
    the cursor uses to skip separators and to treat trailers and the
    manufacturer block apart. */
module Rows {
  import opened Layout

  /** What a row shows: block `b` of sector `s`, or a separator (-1, -1). */
  datatype RowRef = RowRef(s: int, b: int)

  const Separator: RowRef := RowRef(-1, -1)

  /** The rows of sector `s`'s first `n` blocks. */
  function SectorRows(s: nat, n: nat): (rows: seq<RowRef>)
    ensures |rows| == n
    ensures forall b | 0 <= b < n :: rows[b] == RowRef(s, b)
  {
    seq(n, b requires 0 <= b < n => RowRef(s, b))
  }

  /** The rows of the first `n` sectors: each sector's blocks, then a
      separator unless it is the last sector of the dump. */
  function RowsOf(blocks: seq<seq<string>>, n: nat): (rows: seq<RowRef>)
    requires n <= |blocks|
    decreases n
  {
    if n == 0 then []
    else RowsOf(blocks, n - 1) + SectorRows(n - 1, |blocks[n - 1]|)
         + (if n < |blocks| then [Separator] else [])
  }

  /** The loops by which the editor builds the row table. */
  method SectorsFill(blocks: seq<seq<string>>) returns (rows: seq<RowRef>)
    ensures rows == RowsOf(blocks, |blocks|)
  {
    rows := [];
    var s := 0;
    while s < |blocks|
      invariant 0 <= s <= |blocks| && rows == RowsOf(blocks, s)
    {
      var b := 0;
      while b < |blocks[s]|
        invariant 0 <= b <= |blocks[s]| && rows == RowsOf(blocks, s) + SectorRows(s, b)
      {
        assert SectorRows(s, b + 1) == SectorRows(s, b) + [RowRef(s, b)];
        rows := rows + [RowRef(s, b)];
        b := b + 1;
      }
      if s < |blocks| - 1 {
        rows := rows + [Separator];
      }
      s := s + 1;
    }
  }

  /** Rows taken by the first `n` sectors of a dump, separators included. */
  function RowsBefore(n: nat): nat {
    if n <= SmallSectorCount then 5 * n else 5 * SmallSectorCount + 17 * (n - SmallSectorCount)
  }

  /** The row showing block `b` of sector `s`. */
  function RowIndex(s: nat, b: nat): nat {
    RowsBefore(s) + b
  }

  /** The row table of a dump in closed form: rows 0..159 come in fives (four
      blocks and a separator), later rows in seventeens (sixteen blocks and a
      separator). */
  function RowAt(i: nat): RowRef {
    if i < 5 * SmallSectorCount then
      if i % 5 == 4 then Separator else RowRef(i / 5, i % 5)
    else
      var j := i - 5 * SmallSectorCount;
      if j % 17 == 16 then Separator else RowRef(SmallSectorCount + j / 17, j % 17)
  }

  /** The closed form at a block of sector s. */
  lemma BlockRow(s: nat, b: nat)
    requires b < BlocksInSector(s)
    ensures RowAt(RowIndex(s, b)) == RowRef(s, b)
  {
    if s < SmallSectorCount {
      assert RowIndex(s, b) == 5 * s + b;
    } else {
      var j := 17 * (s - SmallSectorCount) + b;
      assert RowIndex(s, b) == 5 * SmallSectorCount + j;
      assert j / 17 == s - SmallSectorCount && j % 17 == b;
    }
  }

  /** The closed form at the row after the blocks of sector s. */
  lemma SeparatorRow(s: nat)
    ensures RowAt(RowsBefore(s + 1) - 1) == Separator
  {
    if s < SmallSectorCount {
      assert RowsBefore(s + 1) - 1 == 5 * s + 4;
    } else {
      var j := 17 * (s - SmallSectorCount) + 16;
      assert RowsBefore(s + 1) - 1 == 5 * SmallSectorCount + j;
      assert j % 17 == 16;
    }
  }

  /** The row table of the first n sectors of a dump follows the closed form:
      it has RowsBefore(n) rows, one fewer when it is the whole dump. */
  lemma {:induction false} RowsFollowLayout(blocks: seq<seq<string>>, n: nat)
    requires GeometryOk(blocks) && n <= |blocks|
    ensures |RowsOf(blocks, n)| == if 0 < n == |blocks| then RowsBefore(n) - 1 else RowsBefore(n)
    ensures forall i | 0 <= i < |RowsOf(blocks, n)| :: RowsOf(blocks, n)[i] == RowAt(i)
    decreases n
  {
    if n > 0 {
      var s := n - 1;
      RowsFollowLayout(blocks, s);
      var front := RowsOf(blocks, s);
      var rows := RowsOf(blocks, n);
      assert |front| == RowsBefore(s);
      var count := |blocks[s]|;
      assert RowsBefore(n) == RowsBefore(s) + count + 1;
      forall i | 0 <= i < |rows|
        ensures rows[i] == RowAt(i)
      {
        if i < |front| {
          assert rows[i] == front[i];
        } else {
          SectorRowsFollowLayout(blocks, s, i - |front|);
        }
      }
    }
  }

  /** A Mini dump shows 24 rows, a 1K dump 79, a 4K dump 295. */
  lemma RowTotals(blocks: seq<seq<string>>)
    requires GeometryOk(blocks)
    ensures |blocks| == 5 ==> |RowsOf(blocks, |blocks|)| == 24
    ensures |blocks| == 16 ==> |RowsOf(blocks, |blocks|)| == 79
    ensures |blocks| == 40 ==> |RowsOf(blocks, |blocks|)| == 295
  {
    RowsFollowLayout(blocks, |blocks|);
  }

  /** The rows sector s adds to the table follow the closed form. */
  lemma SectorRowsFollowLayout(blocks: seq<seq<string>>, s: nat, k: nat)
    requires GeometryOk(blocks) && s < |blocks|
    requires k < |RowsOf(blocks, s + 1)| - |RowsOf(blocks, s)|
    requires |RowsOf(blocks, s)| == RowsBefore(s)
    ensures RowsOf(blocks, s + 1)[RowsBefore(s) + k] == RowAt(RowsBefore(s) + k)
  {
    var rows := RowsOf(blocks, s + 1);
    if k < |blocks[s]| {
      assert rows[RowsBefore(s) + k] == RowRef(s, k);
      BlockRow(s, k);
    } else {
      assert rows[RowsBefore(s) + k] == Separator;
      SeparatorRow(s);
    }
  }

  /** Every block of a dump has its row. */
  lemma {:induction false} EveryBlockHasARow(blocks: seq<seq<string>>, s: nat, b: nat)
    requires GeometryOk(blocks) && s < |blocks| && b < |blocks[s]|
    ensures RowIndex(s, b) < |RowsOf(blocks, |blocks|)|
    ensures RowsOf(blocks, |blocks|)[RowIndex(s, b)] == RowRef(s, b)
  {
    RowsFollowLayout(blocks, |blocks|);
    assert RowsBefore(s + 1) == RowIndex(s, b) + (BlocksInSector(s) - b) + 1;
    if s + 1 < |blocks| {
      RowsGrow(s + 1, |blocks|);
    }
    BlockRow(s, b);
  }

  /** Later sectors start at later rows. */
  lemma RowsGrow(n: nat, m: nat)
    requires n <= m
    ensures RowsBefore(n) <= RowsBefore(m)
  {
  }

  /** The cursor's view of a row: whether to skip it, whether it is a trailer,
      whether it is the manufacturer block. */
  datatype RowKind = RowKind(skip: bool, trailer: bool, manufacturer: bool)

  /** The editor's row classification, from the row number alone. Python's
      `%` floors; for the positive divisors here it agrees with Dafny's. */
  function CheckRaw(index: int): (k: RowKind)
    ensures !(k.skip && k.trailer) && !(k.skip && k.manufacturer) && !(k.trailer && k.manufacturer)
  {
    if index < 160 then
      if (index + 1) % 5 == 0 then RowKind(true, false, false)
      else if (index + 1) % 5 == 4 then RowKind(false, true, false)
      else if index == 0 then RowKind(false, false, true)
      else RowKind(false, false, false)
    else
      if index % 17 == 6 then RowKind(true, false, false)
      else if index % 17 == 5 then RowKind(false, true, false)
      else RowKind(false, false, false)
  }

  /** What a row of the table shows, classified: a separator, a sector's
      last block, or block 0 of sector 0. */
  function KindOf(blocks: seq<seq<string>>, r: RowRef): RowKind
    requires GeometryOk(blocks)
  {
    if r == Separator then RowKind(true, false, false)
    else if 0 <= r.s < |blocks| && r.b == |blocks[r.s]| - 1 then RowKind(false, true, false)
    else RowKind(false, false, r == RowRef(0, 0))
  }

  /** The classification from the row number agrees with the closed form. */
  lemma CheckRawAtRow(i: nat)
    requires i < RowsBefore(40) - 1
    ensures var r := RowAt(i);
      && (CheckRaw(i).skip <==> r == Separator)
      && (CheckRaw(i).trailer <==> r != Separator && r.b == BlocksInSector(r.s) - 1)
      && (CheckRaw(i).manufacturer <==> r == RowRef(0, 0))
  {
    if i >= 160 {
      CheckRawAtLargeRow(i);
    }
  }

  /** The rows of the sixteen-block sectors: the editor's test `i % 17` on the
      row number matches `(i - 160) % 17` on the position within them. */
  lemma CheckRawAtLargeRow(i: nat)
    requires 160 <= i < RowsBefore(40) - 1
    ensures var r := RowAt(i);
      && (CheckRaw(i).skip <==> r == Separator)
      && (CheckRaw(i).trailer <==> r != Separator && r.b == BlocksInSector(r.s) - 1)
      && (CheckRaw(i).manufacturer <==> r == RowRef(0, 0))
  {
    var j := i - 160;
    assert i % 17 == (j + 7) % 17;
    assert j / 17 < 8;
  }

  /** For every row of a dump's table, the classification from the row number
      alone says what the row shows: skip exactly on separators, trailer
      exactly on a sector's last block, manufacturer exactly on block 0 of
      sector 0. */
  lemma {:induction false} CheckRawAgrees(blocks: seq<seq<string>>, i: nat)
    requires GeometryOk(blocks) && i < |RowsOf(blocks, |blocks|)|
    ensures CheckRaw(i) == KindOf(blocks, RowsOf(blocks, |blocks|)[i])
  {
    RowsFollowLayout(blocks, |blocks|);
    RowsGrow(|blocks|, 40);
    CheckRawAtRow(i);
    if RowAt(i) != Separator {
      RowSectorBound(i, |blocks|);
    }
  }

  /** A block row before the end of sector n - 1 shows a sector below n. */
  lemma RowSectorBound(i: nat, n: nat)
    requires i < RowsBefore(n) && RowAt(i) != Separator
    ensures 0 <= RowAt(i).s < n
  {
    if i >= 5 * SmallSectorCount {
      var j := i - 5 * SmallSectorCount;
      assert j < 17 * (n - SmallSectorCount);
    }
  }
}
