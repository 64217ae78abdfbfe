/** A dump loaded into the editor: its blocks as lowercase hex, the derived
    tables, and whether it was edited since it was loaded or saved. Reading
    turns the bytes of a file into this state; saving turns it back. */
module Dump {
  import opened HexCodec
  import opened ValueBlock
  import opened Layout
  import opened Join
  import opened Tables

  /** Why the editor terminates: a file of a size it refuses, or a bit array
      asked to hold a character other than '0' or '1' (an exception nothing
      catches, so the editor ends and unsaved edits are lost). */
  datatype DumpError = WrongFileSize(size: nat) | BitValueError

  datatype Result<T> = Success(value: T) | Failure(error: DumpError)

  /** The editor's state: `blocks[s][b]` is block b of sector s as 32 hex
      digits; `acc`, `accErr` and `dataWarn` are the tables shown beside it. */
  datatype Card = Card(
    blocks: seq<seq<string>>,
    acc: seq<seq<string>>,
    accErr: seq<seq<AccFlag>>,
    dataWarn: seq<seq<Status>>,
    edited: bool)

  /** What every state of the editor keeps: the geometry of a dump, an access
      table of the right shape, and `accErr` and `dataWarn` derived from it. */
  predicate Valid(c: Card) {
    && GeometryOk(c.blocks)
    && AccShaped(c.blocks, c.acc)
    && c.accErr == FillAccErr(c.acc)
    && c.dataWarn == CheckData(c.blocks, c.acc)
  }

  /** The access table is, moreover, what the trailers decode to. */
  predicate Synced(c: Card) {
    Valid(c) && c.acc == FillAcc(c.blocks)
  }

  /** Blocks with every table derived from them afresh. */
  function Build(blocks: seq<seq<string>>, edited: bool): (c: Card)
    requires GeometryOk(blocks)
    ensures Synced(c) && c.blocks == blocks && c.edited == edited
  {
    var acc := FillAcc(blocks);
    FillAccShaped(blocks);
    Card(blocks, acc, FillAccErr(acc), CheckData(blocks, acc), edited)
  }

  /** Hex text cut into 32-digit blocks. */
  function Chunks(h: string): (blocks: seq<string>)
    requires |h| % BlockChars == 0
    ensures |blocks| == |h| / BlockChars
  {
    seq(|h| / BlockChars, i requires 0 <= i < |h| / BlockChars => h[BlockChars * i..BlockChars * i + BlockChars])
  }

  /** The blocks of a sector, as the editor makes them: the hex of the sector's
      bytes cut every 32 digits. */
  function SectorBlocks(bytes: seq<Byte>): (blocks: seq<string>)
    requires |bytes| % BlockBytes == 0
    ensures |blocks| == |bytes| / BlockBytes
  {
    Chunks(BytesToHex(bytes))
  }

  /** Block i of a sector is the hex of bytes 16i..16i+15. */
  lemma {:induction false} SectorBlock(bytes: seq<Byte>, i: nat)
    requires |bytes| % BlockBytes == 0 && i < |bytes| / BlockBytes
    ensures IsHexBlock(SectorBlocks(bytes)[i])
    ensures SectorBlocks(bytes)[i] == BytesToHex(bytes[BlockBytes * i..BlockBytes * i + BlockBytes])
  {
    var first := 16 * i;
    assert |bytes| == 16 * (|bytes| / 16);
    assert first + 16 <= |bytes|;
    assert BlockBytes * i == first && BlockChars * i == 2 * first;
    HexOfSlice(bytes, first, first + BlockBytes);
    assert SectorBlocks(bytes)[i] == BytesToHex(bytes)[2 * first..2 * first + BlockChars];
  }

  /** The bytes of sector `s` of a file. */
  function SectorOf(buf: seq<Byte>, s: nat): (bytes: seq<Byte>)
    requires IsDumpSize(|buf|) && s < SectorCount(|buf|)
    ensures |bytes| == SectorBytes(s)
  {
    SectorFits(|buf|, s);
    buf[SectorOffset(s)..SectorOffset(s) + SectorBytes(s)]
  }

  /** The blocks of a file of an accepted size. */
  function ReadBlocks(buf: seq<Byte>): (blocks: seq<seq<string>>)
    requires IsDumpSize(|buf|)
    ensures GeometryOk(blocks)
    ensures |blocks| == SectorCount(|buf|)
  {
    var blocks := seq(SectorCount(|buf|), s requires 0 <= s < SectorCount(|buf|) => SectorBlocks(SectorOf(buf, s)));
    forall s, b | 0 <= s < |blocks| && 0 <= b < |blocks[s]|
      ensures IsHexBlock(blocks[s][b])
    {
      SectorBlock(SectorOf(buf, s), b);
    }
    blocks
  }

  /** Reading a file: refused unless it is 320, 1024 or 4096 bytes long;
      otherwise its blocks with every table derived and nothing edited. */
  function Parse(buf: seq<Byte>): (r: Result<Card>)
    ensures r.Failure? <==> !IsDumpSize(|buf|)
    ensures r.Failure? ==> r.error == WrongFileSize(|buf|)
    ensures r.Success? ==>
              && Synced(r.value) && !r.value.edited
              && |r.value.blocks| == SectorCount(|buf|)
  {
    if !IsDumpSize(|buf|) then Failure(WrongFileSize(|buf|))
    else Success(Build(ReadBlocks(buf), false))
  }

  /** Block b of sector s of a parsed file is the hex of the 16 bytes at
      SectorOffset(s) + 16b. */
  lemma {:induction false} ParsedBlock(buf: seq<Byte>, s: nat, b: nat)
    requires IsDumpSize(|buf|) && s < SectorCount(|buf|) && b < BlocksInSector(s)
    ensures SectorOffset(s) + BlockBytes * b + BlockBytes <= |buf|
    ensures ReadBlocks(buf)[s][b]
              == BytesToHex(buf[SectorOffset(s) + BlockBytes * b..SectorOffset(s) + BlockBytes * b + BlockBytes])
  {
    SectorFits(|buf|, s);
    var off, first := SectorOffset(s), BlockBytes * b;
    var sector := SectorOf(buf, s);
    assert first + BlockBytes <= 16 * BlocksInSector(s) == |sector|;
    assert ReadBlocks(buf)[s] == SectorBlocks(sector);
    SectorBlock(sector, b);
    assert sector == buf[off..off + SectorBytes(s)];
    var l, r := sector[first..first + BlockBytes], buf[off + first..off + first + BlockBytes];
    forall k | 0 <= k < BlockBytes
      ensures l[k] == r[k]
    {
      assert sector[first + k] == buf[off + first + k];
    }
    assert l == r;
  }

  /** The loop by which the editor reads a file: sector after sector, 64 bytes
      while fewer than 32 sectors are read and 256 bytes after that, until the
      next sector would start at the end of the file. */
  method ReadDump(buf: seq<Byte>) returns (r: Result<Card>)
    ensures r == Parse(buf)
  {
    var size := |buf|;
    if !IsDumpSize(size) {
      return Failure(WrongFileSize(size));
    }
    var blocks: seq<seq<string>> := [];
    var sectorNumber := 0;
    var start, end := 0, SmallSectorBytes;
    while true
      invariant sectorNumber < SectorCount(size)
      invariant start == SectorOffset(sectorNumber) && end == start + SectorBytes(sectorNumber)
      invariant blocks == ReadBlocks(buf)[..sectorNumber]
      decreases size - start
    {
      NextSectorOffset(sectorNumber);
      SectorCountIsExact(size, sectorNumber + 1);
      var sector := buf[start..if end <= size then end else size];
      assert sector == SectorOf(buf, sectorNumber);
      blocks := blocks + [SectorBlocks(sector)];
      sectorNumber := sectorNumber + 1;
      if sectorNumber < SmallSectorCount {
        start, end := start + SmallSectorBytes, end + SmallSectorBytes;
      } else if sectorNumber == SmallSectorCount {
        start, end := start + SmallSectorBytes, end + LargeSectorBytes;
      } else {
        start, end := start + LargeSectorBytes, end + LargeSectorBytes;
      }
      if start == size {
        break;
      }
    }
    assert blocks == ReadBlocks(buf);
    r := Success(Build(blocks, false));
  }

  /** The bytes of each block of a sector. */
  function BlockImages(sector: seq<string>): (images: seq<seq<Byte>>)
    requires forall b | 0 <= b < |sector| :: IsHexBlock(sector[b])
    ensures |images| == |sector|
    ensures forall b | 0 <= b < |sector| :: |images[b]| == BlockBytes
  {
    seq(|sector|, b requires 0 <= b < |sector| && IsHexBlock(sector[b]) => HexToBytes(sector[b]))
  }

  /** The bytes of one sector, block after block. */
  function SectorImage(sector: seq<string>): (bytes: seq<Byte>)
    requires forall b | 0 <= b < |sector| :: IsHexBlock(sector[b])
  {
    Concat(BlockImages(sector))
  }

  /** The bytes of a dump, sector after sector. */
  function Serialize(blocks: seq<seq<string>>): (bytes: seq<Byte>)
    requires GeometryOk(blocks)
  {
    Concat(seq(|blocks|, s requires 0 <= s < |blocks| => SectorImage(blocks[s])))
  }

  /** Saving: the bytes written to the file, and the state afterwards, which
      differs from the one before only in being unedited. */
  function Save(c: Card): (r: (seq<Byte>, Card))
    requires Valid(c)
    ensures r.1 == c.(edited := false)
    ensures Valid(r.1) && !r.1.edited
  {
    (Serialize(c.blocks), c.(edited := false))
  }

  /** Cut points of a sector's blocks: every 16 bytes. */
  function BlockCuts(n: nat): (cuts: seq<nat>)
    ensures |cuts| == n + 1
    ensures forall i | 0 <= i <= n :: cuts[i] == BlockBytes * i
  {
    seq(n + 1, i requires 0 <= i <= n => BlockBytes * i)
  }

  /** Cut points of a dump's sectors: the sector offsets. */
  function SectorCuts(n: nat): (cuts: seq<nat>)
    ensures |cuts| == n + 1
    ensures forall i | 0 <= i <= n :: cuts[i] == SectorOffset(i)
  {
    seq(n + 1, i requires 0 <= i <= n => SectorOffset(i))
  }

  /** Re-encoding the blocks read from one sector gives back its bytes. */
  lemma {:induction false} SectorRoundTrip(bytes: seq<Byte>)
    requires |bytes| % BlockBytes == 0
    ensures forall b | 0 <= b < |SectorBlocks(bytes)| :: IsHexBlock(SectorBlocks(bytes)[b])
    ensures SectorImage(SectorBlocks(bytes)) == bytes
  {
    var sector := SectorBlocks(bytes);
    var n := |sector|;
    forall b | 0 <= b < n
      ensures IsHexBlock(sector[b])
    {
      SectorBlock(bytes, b);
    }
    var parts := BlockImages(sector);
    var cuts := BlockCuts(n);
    forall i | 0 <= i < n
      ensures |parts[i]| == BlockBytes && parts[i] == bytes[cuts[i]..cuts[i + 1]]
    {
      SectorBlock(bytes, i);
      BytesHexBytes(bytes[BlockBytes * i..BlockBytes * i + BlockBytes]);
    }
    assert Cuts(parts, cuts);
    JoinSlices(bytes, parts, cuts);
  }

  /** Re-encoding the blocks read from sector s gives back the sector's bytes. */
  lemma {:induction false} ReadSectorImage(buf: seq<Byte>, s: nat)
    requires IsDumpSize(|buf|) && s < SectorCount(|buf|)
    ensures SectorImage(ReadBlocks(buf)[s]) == SectorOf(buf, s)
  {
    assert ReadBlocks(buf)[s] == SectorBlocks(SectorOf(buf, s));
    SectorRoundTrip(SectorOf(buf, s));
  }

  /** Saving a freshly read file writes back exactly the bytes read. */
  lemma {:induction false} SaveAfterParse(buf: seq<Byte>)
    requires IsDumpSize(|buf|)
    ensures Parse(buf).Success?
    ensures Save(Parse(buf).value).0 == buf
  {
    assert Parse(buf).value.blocks == ReadBlocks(buf);
    SerializeReadBlocks(buf);
  }

  /** Writing out the blocks read from a file gives back its bytes. */
  lemma {:induction false} SerializeReadBlocks(buf: seq<Byte>)
    requires IsDumpSize(|buf|)
    ensures Serialize(ReadBlocks(buf)) == buf
  {
    var blocks := ReadBlocks(buf);
    var n := |blocks|;
    var parts := seq(n, s requires 0 <= s < n => SectorImage(blocks[s]));
    var cuts := SectorCuts(n);
    forall s | 0 <= s < n
      ensures cuts[s + 1] == cuts[s] + |parts[s]| <= |buf|
      ensures parts[s] == buf[cuts[s]..cuts[s + 1]]
    {
      SectorPart(buf, s);
    }
    assert Cuts(parts, cuts);
    JoinSlices(buf, parts, cuts);
  }

  /** Sector s written out is the stretch of the file between its offset and
      the next sector's. */
  lemma {:induction false} SectorPart(buf: seq<Byte>, s: nat)
    requires IsDumpSize(|buf|) && s < SectorCount(|buf|)
    ensures SectorOffset(s + 1) == SectorOffset(s) + |SectorImage(ReadBlocks(buf)[s])| <= |buf|
    ensures SectorImage(ReadBlocks(buf)[s]) == buf[SectorOffset(s)..SectorOffset(s + 1)]
  {
    ReadSectorImage(buf, s);
    NextSectorOffset(s);
    SectorFits(|buf|, s);
  }

  /** Block b of a sector image is the bytes of block b. */
  lemma {:induction false} ImageBlock(sector: seq<string>, b: nat)
    requires forall i | 0 <= i < |sector| :: IsHexBlock(sector[i])
    requires b < |sector|
    ensures |SectorImage(sector)| == BlockBytes * |sector|
    ensures SectorImage(sector)[BlockBytes * b..BlockBytes * b + BlockBytes] == HexToBytes(sector[b])
  {
    var n := |sector|;
    var parts := BlockImages(sector);
    var cuts := BlockCuts(n);
    assert Cuts(parts, cuts);
    JoinLength(parts, cuts);
    JoinPart(parts, cuts, b);
  }

  /** A saved dump has the size of its geometry, and sector s of it is the image
      of sector s. */
  lemma {:induction false} SavedSector(blocks: seq<seq<string>>, s: nat)
    requires GeometryOk(blocks) && s < |blocks|
    ensures IsDumpSize(|Serialize(blocks)|) && SectorCount(|Serialize(blocks)|) == |blocks|
    ensures SectorOf(Serialize(blocks), s) == SectorImage(blocks[s])
  {
    var n := |blocks|;
    var parts := seq(n, i requires 0 <= i < n => SectorImage(blocks[i]));
    var cuts := SectorCuts(n);
    forall i | 0 <= i < n
      ensures cuts[i + 1] == cuts[i] + |parts[i]|
    {
      ImageBlock(blocks[i], 0);
      NextSectorOffset(i);
    }
    assert Cuts(parts, cuts);
    JoinLength(parts, cuts);
    JoinPart(parts, cuts, s);
  }

  /** Block b of sector s of a saved dump reads back as that block. */
  lemma {:induction false} SavedBlock(blocks: seq<seq<string>>, s: nat, b: nat)
    requires GeometryOk(blocks) && s < |blocks| && b < |blocks[s]|
    ensures IsDumpSize(|Serialize(blocks)|) && SectorCount(|Serialize(blocks)|) == |blocks|
    ensures ReadBlocks(Serialize(blocks))[s][b] == blocks[s][b]
  {
    var buf := Serialize(blocks);
    SavedSector(blocks, s);
    var sector := SectorImage(blocks[s]);
    assert ReadBlocks(buf)[s] == SectorBlocks(sector);
    ImageBlock(blocks[s], b);
    SectorBlock(sector, b);
    HexBytesHex(blocks[s][b]);
  }

  /** Reading a saved dump gives back its blocks, with tables derived afresh. */
  lemma {:induction false} ParseAfterSave(c: Card)
    requires Valid(c)
    ensures Parse(Save(c).0) == Success(Build(c.blocks, false))
  {
    var blocks := c.blocks;
    SavedSector(blocks, 0);
    var read := ReadBlocks(Serialize(blocks));
    forall s | 0 <= s < |blocks|
      ensures read[s] == blocks[s]
    {
      forall b | 0 <= b < |blocks[s]|
        ensures read[s][b] == blocks[s][b]
      {
        SavedBlock(blocks, s, b);
      }
    }
    assert read == blocks;
  }
}
