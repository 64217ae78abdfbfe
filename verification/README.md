# mfdedit core in Dafny

`mfdedit.py` is a terminal editor for MIFARE Classic dump files. This
project models its data core, the `Data` class, together with two parts of
`View`: the row table `view_to_blocks` and the row classifier `check_raw`. It
then proves properties of that model.

What is modelled:

- **Reading a dump.** A file is a byte sequence. It is accepted only at 320
  (Mini), 1024 (1K) or 4096 (4K) bytes. Sectors 0..31 hold four 16-byte
  blocks and later sectors hold sixteen. Each block is kept as 32 lowercase
  hex digits.
- **Derived tables.** Reading builds three tables:
  - the access string of every block, decoded from its sector trailer;
  - the `acc_err` verdict of that string;
  - the `data_warn` value-block verdict of every block.
  The bit layout is the one of the NXP MF1S50yyX datasheet: the manufacturer
  block in section 8.6.1, value blocks in section 8.6.2.1, access conditions
  in section 8.7.1.
- **Saving.** A save writes the blocks back as bytes and clears the
  "edited" flag.
- **Hex edit.** Editing one hex digit rewrites the BCC (the ISO/IEC 14443-3
  check byte) when the digit is in the UID. It then re-derives every table
  and marks the dump edited.
- **Access-bit edit.** Editing one access bit writes the bit and its
  complement into the trailer and rebuilds `acc_err` and `data_warn`.
- **Row table.** The row table has one row per block and a separator row
  between sectors. It is given both as the editor's loops and in closed
  form. The editor's row classifier is proved to agree with it.

Modules, one per file:

- `HexCodec` (hex_codec.dfy): bytes, nibbles, bits, lowercase hex.
- `Layout` (layout.dfy): file sizes, sector offsets, blocks per sector,
  access slots.
- `Join` (join.dfy): concatenating byte strings, and cutting a buffer into
  consecutive parts.
- `AccessBits` (access_bits.dfy): the access-bit position table, decoding and
  writing one bit.
- `ValueBlock` (value_block.dfy): the value-block check.
- `Tables` (tables.dfy): the `acc`, `acc_err` and `data_warn` tables.
- `Dump` (dump.dfy): the editor state `Card`, reading and saving.
- `Edits` (edits.dfy): the two edits.
- `Rows` (rows.dfy): the row table and `check_raw`.

Three behaviours of the code that the model reproduces:

- Value-block checking applies to the access codes "000", "001" and "110",
  the three codes whose data-block permissions include decrement (the
  editor's help table at mfdedit.py:260-268).
- A trailer whose access bytes are all zero decodes to "ERR": the inverted
  copies are then not the complements of the direct ones.
- The access-bit edit does not re-decode the access table and does not mark
  the dump edited.

## Model

| member | source | states |
|---|---|---|
| HexCodec.BytesHexBytes | mfdedit.py:36-40 | Decoding the hex the editor makes of a byte string gives back those bytes. |
| HexCodec.HexBytesHex | mfdedit.py:199-204 | Encoding the bytes that a lowercase hex string of even length spells gives back that string. |
| HexCodec.HexOfSlice | mfdedit.py:36-40 | The hex of a stretch of bytes is the matching stretch of the hex: two digits per byte. |
| Layout.SectorCount | mfdedit.py:28-56 | An accepted size has 5, 16 or 40 sectors. The last sector ends exactly at the file size, and every sector starts inside the file. |
| Layout.SectorCountIsExact | mfdedit.py:55-56 | The read loop's stop test `start == data_size` holds after a sector exactly when it was the last one. |
| Layout.NextSectorOffset | mfdedit.py:44-53 | Each sector starts where the previous one ends: 64 bytes per sector up to sector 32, 256 bytes after. |
| Layout.BlocksInSector | mfdedit.py:44-53 | A sector has 4 blocks (64 bytes) exactly when its number is below 32, otherwise 16 blocks (256 bytes). |
| Layout.SlotOf | mfdedit.py:151-155 | A block's access slot is below 4. Block b of a four-block sector uses slot b. In a sixteen-block sector the slot is the group of five the block falls in. The trailer uses slot 3. |
| AccessBits.Pair | mfdedit.py:86-98 | Condition bit C1, C2, C3 of slot i sits at access bit 11-i, 23-i, 19-i; its inverted copy sits at 7-i, 3-i, 15-i. |
| AccessBits.PairsDistinct | mfdedit.py:90-91 | The 24 positions of the table are pairwise distinct and lie in the first 24 access bits. |
| AccessBits.AccBitIsByteBit | mfdedit.py:64 | Access bit p of the trailer is bit p mod 8, counted from the most significant end, of trailer byte 6 + p div 8. |
| AccessBits.DecodeSlot | mfdedit.py:86-98 | A slot decodes to "ERR" exactly when an inverted copy fails to complement its direct bit. Otherwise it decodes to the three direct bits as '0'/'1'. |
| AccessBits.LonelyFlipCorrupts | mfdedit.py:93-98 | Flipping a direct bit without its inverted copy makes an intact slot decode to "ERR". |
| AccessBits.WriteAccBit | mfdedit.py:157-174 | Writing a condition bit changes only trailer characters 12..19. The direct position gets the bit and the inverted position its complement; every other access bit keeps its value. |
| AccessBits.AccBitsDetermine | mfdedit.py:170-173 | Two trailers that agree outside characters 12..19 and on all 32 access bits are equal. |
| AccessBits.DecodeAfterWrite | mfdedit.py:157-174 | In an intact slot, writing condition bit `index` then decoding gives the old access string with character `index` replaced. |
| AccessBits.WriteKeepsOtherSlots | mfdedit.py:157-174 | Writing a bit of one slot leaves the decoded string of every other slot unchanged. |
| AccessBits.RewriteKeepsTrailer | mfdedit.py:157-174 | Writing back the value a consistent pair already holds leaves the trailer unchanged. |
| ValueBlock.InvertedDigitsBitwise | mfdedit.py:127-141 | Comparing a field against the bitwise inversion of another, as the editor does, is comparing each hex digit against fifteen minus the other's. |
| ValueBlock.CheckBlock | mfdedit.py:115-141 | Read as bytes, the block passes ("OK") exactly when it is a value block: bytes 4..7 complement bytes 0..3, bytes 8..11 repeat them, and bytes 13, 14, 15 are the complement, a copy and the complement of address byte 12. |
| ValueBlock.EncodeValueBlock | mfdedit.py:115-141 | The encoding of a value and an address is a value block holding that value and address. |
| ValueBlock.ValueBlockIsEncoding | mfdedit.py:115-141 | A 16-byte block is a value block exactly when it is the encoding of its first four bytes and its byte 12. |
| Tables.SmallSectorEntries | mfdedit.py:67-69 | A four-block sector takes the four slots one for one. |
| Tables.FillAcc | mfdedit.py:61-76 | The access table has one entry per sector, with one string per block of that sector. |
| Tables.FillDirect | mfdedit.py:67-69 | The loop for a four-block sector gives block i the string of slot i. |
| Tables.FillGrouped | mfdedit.py:70-75 | The nested loops with their early break give block b of a sixteen-block sector the string of slot b div 5. |
| Tables.FillSectorAcc | mfdedit.py:61-76 | One sector's fill equals the per-block slot mapping, for either sector size. |
| Tables.FillAccShaped | mfdedit.py:61-98 | Every decoded access string has three characters. |
| Tables.AccEntry | mfdedit.py:61-98 | A block's access string is "ERR" exactly when its governing slot is inconsistent; otherwise it holds that slot's direct bits. |
| Tables.FillAccErr | mfdedit.py:78-84 | The `acc_err` table has the shape of the access table. |
| Tables.AccErrMeansCorrupt | mfdedit.py:78-84 | `acc_err` is "OK" exactly when the governing slot's two copies agree. |
| Tables.CheckData | mfdedit.py:100-112 | The `data_warn` table has one verdict per block. |
| Tables.WarnMeansBrokenValueBlock | mfdedit.py:100-112 | "WARN" exactly when all four hold: the block is not a trailer, it is not block 0 of sector 0, its access string is 000, 001 or 110, and its bytes are not a value block. |
| Dump.SectorBlock | mfdedit.py:36-42 | Block i of a sector is the 32-digit hex of the sector's bytes 16i..16i+15. |
| Dump.ReadBlocks | mfdedit.py:31-56 | The blocks read from an accepted file have the geometry of a dump. |
| Dump.Parse | mfdedit.py:20-59 | Reading fails exactly for sizes other than 320, 1024 and 4096, with the size in the error. Otherwise it gives an unedited state with derived tables and the right number of sectors. |
| Dump.ParsedBlock | mfdedit.py:31-56 | Block b of sector s is the hex of the 16 bytes at the sector's offset plus 16b. |
| Dump.ReadDump | mfdedit.py:31-56 | The editor's read loop, with its sector counter and moving start/end offsets, computes `Parse`. |
| Dump.Save | mfdedit.py:199-206 | After saving, the state differs from the one before only in being unedited. |
| Dump.SerializeReadBlocks | mfdedit.py:199-204 | Writing out the blocks read from a file reproduces the file byte for byte. |
| Dump.SaveAfterParse | mfdedit.py:20-59 | Saving a freshly read file writes back exactly the bytes read. |
| Dump.SavedBlock | mfdedit.py:199-204 | Block b of sector s of a saved dump reads back as that block. |
| Dump.ParseAfterSave | mfdedit.py:199-206 | Reading a saved dump gives back its blocks, unedited and with every table re-derived. |
| Edits.XorStr | mfdedit.py:195-197 | Each digit of the result is the XOR of the two digits at that place. |
| Edits.WithBcc | mfdedit.py:186-193 | Rewriting the BCC changes only characters 8 and 9 of the manufacturer block. |
| Edits.BccDigit | mfdedit.py:186-193 | BCC digit j is the XOR of digit j of each of the four UID bytes, folded left to right. |
| Edits.BccIsUidXor | mfdedit.py:186-193 | Read as bytes, every bit of the BCC byte is the XOR of that bit of UID bytes 0..3. |
| Edits.UpdateBlocksHex | mfdedit.py:176-184 | The result is edited and all tables are re-derived. Only the edited digit changes, plus BCC digits 8 and 9 when a UID digit of block 0 of sector 0 is edited. After a UID edit the manufacturer block is the edited block with its BCC rewritten from the new UID. |
| Edits.UidEditKeepsBcc | mfdedit.py:176-193 | After an edit of a UID digit, every bit of byte 4 of the manufacturer block is the XOR of that bit of bytes 0..3. |
| Edits.HexEditUndo | mfdedit.py:176-184 | Editing a digit and then editing it back restores the blocks, outside the UID and BCC. |
| Edits.UpdateAccBit | mfdedit.py:143-174 | The edit fails only with `BitValueError`, never in a four-block sector, and exactly when the character read back is not a bit. On success the access string gets the typed character, only the sector's trailer changes (to the old trailer with the read-back bit rewritten), and `edited` keeps its value. |
| Edits.AccEditKeepsValid | mfdedit.py:143-149 | After an access-bit edit, `acc_err` and `data_warn` are rebuilt from the patched access table. |
| Edits.AccEditWritesPair | mfdedit.py:157-174 | In a four-block sector, the edit sets the direct access bit to the typed digit and its inverted copy to the complement. No other trailer bit or character changes. |
| Edits.SmallSectorWrite | mfdedit.py:157-174 | In a four-block sector, writing a bit of an intact slot changes the re-decoded table in exactly one character of one block. |
| Edits.BlockEditRedecodes | mfdedit.py:143-174 | In a four-block sector, when block b's string is what slot b decodes to and is not "ERR", the edit succeeds. The new trailer then decodes slot b to the patched string, and every other slot decodes as before. |
| Edits.SmallSectorEditRedecodes | mfdedit.py:143-174 | In a four-block sector whose access strings are what its trailer decodes to, an edit of an intact string succeeds, and the sector's patched strings are exactly what the new trailer decodes to. Other sectors play no part. |
| Edits.SmallSectorEditKeepsSynced | mfdedit.py:143-174 | When every table is derived from the blocks, an edit of an intact string in a four-block sector keeps every table derived from the blocks. |
| Edits.SyncedShowsBits | mfdedit.py:61-98 | In a state whose access table is decoded from its trailers, every '0' or '1' at place i of a four-block sector's string for block b is condition bit i of slot b, stored consistently. |
| Edits.AccEditKeepsShownBits | mfdedit.py:143-174 | An access-bit edit that succeeds keeps that property, in every sector. |
| Edits.WriteShowsBit | mfdedit.py:157-174 | Writing a condition bit stores it consistently and keeps every other consistently stored bit. |
| Edits.ShownBitsDecode | mfdedit.py:86-98 | Where that property holds, a four-block sector's string made only of bits is exactly what its slot decodes to. |
| Edits.ReadBackInLargeSector | mfdedit.py:151-168 | In a sixteen-block sector, an edit of block b > 0 reads the bit from entry b div 5 of the sector's access strings. When that entry is slot 0's decoded string, the bit comes from slot 0. |
| Edits.LargeSectorEditCopiesSlotZero | mfdedit.py:151-174 | In a sixteen-block sector whose entry b div 5 is slot 0's decoded string, an edit of block b >= 5 fails exactly when slot 0 is corrupt. Otherwise it copies slot 0's bit into slot b div 5, whatever digit was typed. |
| Edits.LargeSectorEditOfGroupKeepsTrailer | mfdedit.py:151-174 | In a sixteen-block sector whose entry 0 is slot 0's decoded string, an edit of blocks 1..4 with slot 0 intact leaves every block as it was. |
| Rows.SectorsFill | mfdedit.py:224-256 | The editor's loops build each sector's block rows, then a separator after every sector but the last. |
| Rows.RowsFollowLayout | mfdedit.py:224-256 | Row i of the table is the closed form `RowAt(i)`. The table has 5 rows per small sector and 17 per large one, one fewer in all. |
| Rows.RowTotals | mfdedit.py:224-256 | A Mini dump has 24 rows, a 1K dump 79 and a 4K dump 295. |
| Rows.EveryBlockHasARow | mfdedit.py:224-256 | Every block of a dump appears in the table, at row `RowIndex(s, b)`. |
| Rows.CheckRaw | mfdedit.py:304-317 | At most one of skip, trailer and manufacturer is reported. |
| Rows.CheckRawAgrees | mfdedit.py:304-317 | For every row of the table, and using only the row number: skip exactly on separators, trailer exactly on a sector's last block, manufacturer exactly on block 0 of sector 0. |

## Left out

- File opening, reading and writing, and `sys.exit`. Parsing takes the file's bytes and returns a `Result`. Saving returns the bytes to write. The file name is not modelled.
- `bitstring.BitArray` and `codecs`. They are replaced by explicit most-significant-first bit extraction and nibble/byte conversion.
- The display text of `sectors_fill` and the permission help tables (mfdedit.py:243-250, 258-302). They are display strings. Only `view_to_blocks` is modelled.
- The `Bash` colouring, the curses `TUI`, `main` and argparse. These are terminal plumbing. Three TUI input guards appear as preconditions instead:
  - an access-bit edit receives only '0' or '1', at index 0..2;
  - a hex edit receives only 0-9 or a-f;
  - digits 8 and 9 of row 0 cannot be edited.
- Edits.UpdateAccBit: like the code, the model neither sets `edited` nor re-decodes the access table. When the read-back character is "E" or "R" (a corrupt slot reached through the `b // 5` index of a sixteen-block sector), `bitstring` raises `ValueError`. Nothing catches it: it propagates through `update_acc_bit`, `__edit_hex`, `__handle_key`, `loop` and `curses.wrapper`, so the editor terminates and unsaved edits are lost. It appears here as `Failure(BitValueError)`, which stands for that termination.
- Edits.UpdateAccBit: its precondition asks only for a state of dump geometry whose access strings all have three characters. It does not ask that the tables be derived from the blocks. After a hex edit or a read they always are. After an access-bit edit the access table may differ from what the trailer decodes to.
- Edits.SmallSectorEditRedecodes: it asks that all four strings of the sector be decoded from the trailer. Edits.BlockEditRedecodes states the same re-decode for block b alone, needing only that block's string to be decoded and not "ERR". An edit of a corrupt slot can leave a string such as "1RR" that is neither; In every state that reading, hex edits and access-bit edits produce, the shown bits hold (Edits.SyncedShowsBits, Edits.AccEditKeepsShownBits). There, Edits.ShownBitsDecode shows that any string made only of bits meets the premise. The re-decode property holds only for four-block sectors. In sixteen-block sectors the editor writes the bit read from block b div 5's entry, which generally breaks it. The three `LargeSector…` lemmas state exactly what happens instead.
- Cursor movement and scrolling, which call `check_raw`, are left out because they depend on the terminal size.
