/** The geometry of a MIFARE Classic dump as the editor reads it: 320-byte
    (Mini), 1024-byte (1K) and 4096-byte (4K) images; sectors 0..31 hold four
    16-byte blocks, sectors from 32 on hold sixteen; the last block of every
    sector is its trailer. */
module Layout {
  import opened HexCodec

  const BlockBytes: nat := 16
  /** Sectors 0..31 are small (four blocks); later sectors are large (sixteen). */
  const SmallSectorCount: nat := 32
  const SmallSectorBytes: nat := 64
  const LargeSectorBytes: nat := 256

  /** The only file sizes the editor accepts. */
  predicate IsDumpSize(n: nat) {
    n == 320 || n == 1024 || n == 4096
  }

  /** Bytes in sector `s`. */
  function SectorBytes(s: nat): (n: nat)
    ensures n == SmallSectorBytes || n == LargeSectorBytes
  {
    if s < SmallSectorCount then SmallSectorBytes else LargeSectorBytes
  }

  /** Blocks in sector `s`: four, or sixteen from sector 32 on. */
  function BlocksInSector(s: nat): (n: nat)
    ensures n * BlockBytes == SectorBytes(s)
    ensures n == 4 <==> s < SmallSectorCount
    ensures n == 4 || n == 16
  {
    if s < SmallSectorCount then 4 else 16
  }

  /** First byte of sector `s`: 64 bytes per small sector, then 256 per large one. */
  function SectorOffset(s: nat): (off: nat)
  {
    if s <= SmallSectorCount then SmallSectorBytes * s
    else SmallSectorBytes * SmallSectorCount + LargeSectorBytes * (s - SmallSectorCount)
  }

  /** Sectors follow one another without gaps. */
  lemma {:induction false} NextSectorOffset(s: nat)
    ensures SectorOffset(s + 1) == SectorOffset(s) + SectorBytes(s)
  {
  }

  /** Offsets only grow. */
  lemma {:induction false} OffsetsGrow(s: nat, s': nat)
    requires s < s'
    ensures SectorOffset(s) + SectorBytes(s) <= SectorOffset(s')
  {
  }

  /** The number of sectors of a dump of `size` bytes: 5, 16 or 40. */
  function SectorCount(size: nat): (n: nat)
    requires IsDumpSize(size)
    ensures n == 5 || n == 16 || n == 40
    ensures SectorOffset(n) == size
    ensures forall s | 0 <= s < n :: SectorOffset(s) < size
  {
    if size == 320 then 5 else if size == 1024 then 16 else 40
  }

  /** The sectors of a dump fill the file: the file ends where sector SectorCount
      would start and at no other sector boundary. */
  lemma {:induction false} SectorCountIsExact(size: nat, s: nat)
    requires IsDumpSize(size) && s <= SectorCount(size)
    ensures SectorOffset(s) == size <==> s == SectorCount(size)
  {
  }

  /** Every sector of a dump lies inside the file. */
  lemma {:induction false} SectorFits(size: nat, s: nat)
    requires IsDumpSize(size) && s < SectorCount(size)
    ensures SectorOffset(s) + SectorBytes(s) <= size
  {
    NextSectorOffset(s);
    if s + 1 < SectorCount(size) {
      OffsetsGrow(s + 1, SectorCount(size));
    }
  }

  /** A table of blocks shaped like a dump: 5, 16 or 40 sectors, each with the
      number of blocks its position calls for, each block 32 lowercase hex digits. */
  predicate GeometryOk(blocks: seq<seq<string>>) {
    && (|blocks| == 5 || |blocks| == 16 || |blocks| == 40)
    && (forall s | 0 <= s < |blocks| :: |blocks[s]| == BlocksInSector(s))
    && (forall s, b | 0 <= s < |blocks| && 0 <= b < |blocks[s]| :: IsHexBlock(blocks[s][b]))
  }

  /** The trailer of a sector: its last block. */
  function Trailer(sector: seq<string>): (t: string)
    requires |sector| > 0
  {
    sector[|sector| - 1]
  }

  /** The access slot (0..3) governing block `b` of a sector of `count` blocks:
      the block itself in a four-block sector, block b / 5 in a sixteen-block one
      (blocks 0..4, 5..9, 10..14 share a slot; slot 3 is the trailer). */
  function SlotOf(count: nat, b: nat): (slot: nat)
    requires (count == 4 || count == 16) && b < count
    ensures slot < 4
    ensures count == 4 ==> slot == b
    ensures count == 16 ==> 5 * slot <= b < 5 * slot + 5
    ensures b == count - 1 ==> slot == 3
  {
    if count == 4 then b else b / 5
  }
}
