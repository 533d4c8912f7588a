# Verified models of plo

plo is the Phoenix-RTOS boot loader. Most of it drives registers; this project models the parts
whose correctness does not depend on hardware, and proves what they promise. Device operations
are abstract steps (a page, a sector, a block, a byte), and wherever the real ones can fail, the
steps may fail at any time and leave anything behind that a failure can leave. The code that
updates fields and buffers is modelled by classes and methods with the same branches; every such
method is tied by its contract to a function on values, and the main results are about those
functions or about runs of those methods.

| files | program | result |
|---|---|---|
| `NandWalk`, `NandData` | `devices/nand-imx6ull/data.c` | both caches are invisible; what was written and synced is read back under any failures, wherever blocks moved; exactly how much of an erase is missing when they did |
| `DiskBios` | `devices/disk-bios/disk-bios.c` | the write cache refines a flat sector array; exactly when a single write is a flat one |
| `SdCard` | `devices/sdcard-zynq7000/sdcarddrv.c` | byte access over block transfers is access to a flat byte array |
| `MsgFrame`, `Msg` | `phfs/msg.c`, `phfs/msg.h` | framing round trip under any chunking, exactly when resynchronisation works, only checked messages come through |
| `Ring`, `CBuffer`, `Rtt`, `Uart` | `lib/cbuffer.c`, `devices/pipe-rtt/rtt.c`, `devices/uart-16550/uart-16550.c` | queues, the last two against every interleaving with the other side |
| `Crc32`, `CrcTable`, `CrcDetect` | `lib/crc32.c` | table form and bitwise form agree; damage in four consecutive bytes is always detected |
| `Placement`, `Syspage` | `syspage.c` | sorted circular list of disjoint entries; exactly when best fit is complete and optimal |
| `Strtoul`, `NumText`, `Format`, `Printing`, `OctalAsDecimal`, `NumRoundTrip` | `lib/format.c`, `lib/strtoul.c` | exactly when a printed number is read back |
| `Words`, `Areas`, `PtableSpec`, `PtableLayout`, `Ptable` | `lib/ptable.c`, `lib/ptable.h` | verification decides validity, validity implies disjointness and fit, stamping is complete |
| `Bytes` | | byte buffers, error codes, arithmetic |

## What the code does that its callers may not expect

Each of these is proved, for all inputs or by a concrete one:

- NAND write: if the sync at the start of a write takes the cached block from below the start
  onto or past it, the data goes behind that block, and a reader of the range gets the moved image
  first and the data one block late (`NandData.Nand.WriteSyncRead`, `NandWalk.BehindIsLost`, and
  on a concrete device `NandWalk.BehindExample`).
  Otherwise the data comes back, whatever fails. It takes a failure, and every block from
  the cached one up to the start to be bad.
- NAND write: the error code of a failed page read is kept for the next good block. If the write
  enters that block at its start, no page read resets the code, so the block is marked bad with
  no failure of its own, and so are all good blocks behind it (`NandData.Nand.WriteBlock`,
  `NandData.Nand.WriteBlocks`, and on a concrete device `NandData.OneFailure`). The bytes reported
  as written are still there.
- NAND erase: the loop does not look where a sync took the cached block. If it lands on the block
  to be erased next, the code loads the moved image and erases over that, and counts the bytes
  although they were counted before, or belong to a block in front of the range, whose data is
  lost (`NandData.Nand.ErasePart`, `NandWalk.LandedErases`). Exactly as many of the bytes reported
  as were erased over twice do not read as erased: a reader of the range gets bytes from behind it
  for them (`NandData.Nand.EraseBlocks`, `NandWalk.LandedReads`, and on a concrete device
  `NandWalk.EraseExample`). If the sync goes past the block, a bad block is loaded and erased, and
  the next sync puts it in place of the one moved (`NandWalk.PassedIsReplaced`).
- Disk cache: a segment pending for one disk is flushed to the disk that is being written, and a
  write of part of a sector takes the rest of the sector from whatever the cache block held
  before. `DiskBios.DiskCache.Write` says exactly what that does and exactly when it is
  harmless; `DiskBios.TwoDisks` and `DiskBios.PartialIsLost` are writes where it is not.
- SD card: the length check is exact as long as the rounding sum stays below 2^32; beyond that
  any offset on the card passes (`SdCard.CheckIsExact`).
- Messages: what follows the end of a call in the same device read is lost. A frame whose mark
  cuts another one short survives if and only if nothing of it came with the read that had its
  mark (`MsgFrame.LostOrRead`); `MsgFrame.LostFrame` is one that does not.
- Messages: one byte changed makes any message invalid (`MsgFrame.OneByteChanged`) and its frame
  refused, unless the byte belongs to the length, which says how much of the frame is looked at:
  `MsgFrame.LengthChanged` is a long message that is then accepted as an empty one.
- Best fit: on a map without entries nothing is checked; the block may stick out of the map or, where
  rounding wraps, lie at zero (`Placement.EmptyMapNotChecked`, `Placement.EmptyMapOverruns`). On any
  other, it is wrong exactly if no gap holds the block and some gap goes astray: rounding carries
  its start past its end, or past 2^32 to zero, and the wrapped size is large enough
  (`Placement.BestFitExact`). It takes an unaligned entry or an unaligned map end;
  `Placement.UnalignedEntryOverlaps`, `Placement.UnalignedEndOverruns` and
  `Placement.RoundingWraps` are such maps.
- Number parsing: space padding, zeros before a `0x` prefix, and `+` or a space for the sign
  are the only things that keep a printed number from being read back in its base; read in base 0,
  zero-padded decimals are taken for octal, and hexadecimals and octals without a prefix for
  decimal (`NumRoundTrip`). Of those octals only single digits come back from 32 bits; from 64
  bits a long one may by coincidence (`NumRoundTrip.OctalCoincidence`).
- Partition table: the size of a table wraps from 2^27 - 1 partitions on (`PtableSpec.SizeIsExact`).
  Such a table is refused all the same, because the signature then lies on a name
  (`Ptable.Verify`), except where the size wraps to zero (`PtableSpec.SizeWraps`) and the four
  bytes in front of the table are compared instead. That takes blocks of at most 32 bytes
  (`PtableSpec.ValidTablesInBlock`).

## Model

| member | source | states |
|---|---|---|
| NandWalk.ReadIsStream | devices/nand-imx6ull/data.c:153-196 | walking block by block over good blocks reads a contiguous stretch of the concatenation of all good blocks, clipped at its end |
| NandWalk.WriteIsOverwrite | devices/nand-imx6ull/data.c:230-294 | such a walk writes a contiguous stretch of that concatenation, clipped at its end, and nothing else of it |
| NandWalk.WriteFrame | devices/nand-imx6ull/data.c:230-294 | bad blocks and blocks below the start of the walk are untouched |
| NandWalk.SizeIsClip | devices/nand-imx6ull/data.c:198-296 | the byte count a write reports is what a read of the same range would deliver |
| NandWalk.ReadAfterWrite | devices/nand-imx6ull/data.c:124-297 | on the uncached device, reading the range just written gives the reported bytes back |
| NandWalk.MovedStream | devices/nand-imx6ull/data.c:71-102 | moving the cached image over blocks that are all bad does not change the stream that ends with it |
| NandWalk.SyncKeeps | devices/nand-imx6ull/data.c:236-255 | a relocation in the middle of a write keeps every byte written so far in the stream, and the writer's jump behind the relocated block is right |
| NandWalk.CopyKeeps | devices/nand-imx6ull/data.c:289-293 | putting the next piece into the block now cached extends the written stretch by exactly that piece |
| NandWalk.SyncedIsRead | devices/nand-imx6ull/data.c:60-109 | after the last sync a reader of the range sees all bytes written, wherever the cached block went |
| NandWalk.BlockInFront | devices/nand-imx6ull/data.c:153-196 | a reader that starts in front of one more good block gets that block first, and all else one block late |
| NandWalk.BehindIsLost | devices/nand-imx6ull/data.c:242-255 | a write of any length behind a cached block that the sync takes from below the start onto or past it: what is read back is the moved image followed by the data one block late |
| NandWalk.BehindExample | devices/nand-imx6ull/data.c:242-255 | a concrete device and write for which that happens |
| NandWalk.ErasingLanded | devices/nand-imx6ull/data.c:338-370 | a sync that takes the block with the last bytes erased onto the block erased next, which then is erased over: nothing more is erased than before |
| NandWalk.LandedReads | devices/nand-imx6ull/data.c:338-393 | what a reader gets for as many bytes as were reported: those that were erased, and then bytes from behind the block erased over |
| NandWalk.LandedErases | devices/nand-imx6ull/data.c:338-370 | in the stream of any reader the moved block gives way to the block erased over: its data is lost, in the range or in front of it |
| NandWalk.PassedIsReplaced | devices/nand-imx6ull/data.c:338-370 | a sync past the block to be erased: that block is bad, it is erased in the cache, and the next sync puts it in place of the block moved, of which nothing is left |
| NandWalk.EraseExample | devices/nand-imx6ull/data.c:338-370 | a concrete device and erase: two bytes are reported, one reads as erased, and the byte in front of the range is lost |
| NandWalk.BlockPosition | devices/nand-imx6ull/data.c:144-153 | byte k of block b is byte b * erasesz + k of the device: the block and the offset in it that an access starts at |
| NandWalk.StreamAt | devices/nand-imx6ull/data.c:144-196 | without bad blocks the byte stream has every byte of the device at its position |
| NandWalk.ServeAt | devices/nand-imx6ull/data.c:124-394 | the uncached device in true byte positions: an access to byte b * erasesz + k reads, writes or erases the stretch of the good blocks from byte k of block b on, reports its length, and changes nothing in front of it or in bad blocks |
| NandWalk.ServeFlat | devices/nand-imx6ull/data.c:124-394 | on a device without bad blocks that is the flat array of its bytes, at the offset asked for; offsets past the end are refused |
| NandWalk.ServeBytes | devices/nand-imx6ull/data.c:124-394 | byte by byte: a byte of a device without bad blocks is read, overwritten or erased to 0xff exactly if its position is in the range asked for |
| NandData.PageNumber | devices/nand-imx6ull/data.c:168 | page numbers block * npages + page name the same page exactly if block and page agree |
| NandData.Nand.SyncBlock | devices/nand-imx6ull/data.c:84-92 | erase and program of one block: on success it holds the cached image, and in any case no other block changes |
| NandData.Nand.DoSync | devices/nand-imx6ull/data.c:60-109 | terminates under any failures; on EOK the image is in a good block not before the original one, every block between is bad, blocks outside the span are untouched; on ENOSPC every block from the original on is bad; without failures nothing moves |
| NandData.Nand.CachePage | devices/nand-imx6ull/data.c:169-185 | afterwards the page cache holds the page wanted, whether it was read now or earlier |
| NandData.Nand.ReadPiece | devices/nand-imx6ull/data.c:169-190 | a piece of a page through the page cache is that piece of the block |
| NandData.Nand.ReadPages | devices/nand-imx6ull/data.c:164-193 | reading a block page by page through the page cache gives the wanted part of the block |
| NandData.Nand.ReadBlock | devices/nand-imx6ull/data.c:154-195 | a block reads as its cached image if it is the cached block and as the flash otherwise |
| NandData.Nand.ReadBlocks | devices/nand-imx6ull/data.c:152-198 | the loop returns what the walk over the uncached device returns; a failing page marks its block bad and ends the read |
| NandData.Nand.LoadAround | devices/nand-imx6ull/data.c:257-273 | the cache buffer matches the flash before and behind the part about to be written; a code left by the block before counts as a failure exactly if no page in front is read |
| NandData.Nand.Fetch | devices/nand-imx6ull/data.c:236-287 | syncing the cached block and loading another one loses no byte written so far under any failure, and leaves no good block in front of the next bytes unless it moved the cached block there; if nothing fails, the block is loaded unless a code was left and nothing was cached |
| NandData.Nand.WriteBlock | devices/nand-imx6ull/data.c:236-293 | one round of the write loop: keeps the bytes written and adds the next piece, or gives the block up; if nothing fails in it, it gives the block up if and only if a code was left by the block before, the block is entered at its start and nothing is cached |
| NandData.Nand.WriteBlocks | devices/nand-imx6ull/data.c:230-296 | without failures the walk over the uncached device; blocks below both the start and the cached block stay as they are, whatever fails; under any failures the bytes reported are in the stream from the start on, or from behind the block that the first sync moved there; a block became bad without a failure of its own if and only if `lost` is one, and then every block from it on is bad |
| NandData.OneFailure | devices/nand-imx6ull/data.c:276-282 | a concrete device of two blocks: if the first round of a write gives its block up for a failed read, the second cannot succeed, and unless it fails for good both blocks are bad, the second with no failure of its own |
| NandData.Nand.EraseFetch | devices/nand-imx6ull/data.c:338-364 | syncing and loading for a partial erase, pinned: whether there was a sync, from which block to which, and which blocks are bad since; what was erased stays so unless the sync overtook the eraser |
| NandData.Nand.ErasePart | devices/nand-imx6ull/data.c:338-370 | erasing part of a block: where no sync overtook, it is erased; where one landed on the block, the block is the moved image erased over, and no more is erased than before; where one went past it, the block is bad |
| NandData.Nand.EraseRound | devices/nand-imx6ull/data.c:331-390 | one round of the erase loop, under any failures: how many bytes more are erased, the whole piece or, after a sync that overtook, none unless it is the first |
| NandData.Nand.EraseBlocks | devices/nand-imx6ull/data.c:327-393 | without failures an erase is a walk that writes erased bytes, whether through the cache or by whole blocks; under failures exactly the bytes reported less `lost` read as erased, where `lost` is counted by the syncs that overtook the eraser, and what is read for the others is bytes from behind what was erased |
| NandData.Nand.Read | devices/nand-imx6ull/data.c:124-199 | with range checks: answers as the uncached device, and changes nothing a reader can see |
| NandData.Nand.Write | devices/nand-imx6ull/data.c:202-297 | with range checks: without failures answers as the uncached device and leaves it the same; under failures the bytes reported are there, from the start on unless the first sync put the block cached before in front of them, and the blocks below the start and the cached block stay as they are |
| NandData.Nand.Erase | devices/nand-imx6ull/data.c:300-394 | with range checks: without failures answers as the uncached device and leaves it the same; under failures as the loop, so all bytes reported read as erased if no sync overtook the eraser |
| NandData.Nand.Sync | devices/nand-imx6ull/data.c:112-121 | after EOK nothing is cached and the flash is what a reader saw, up to relocation |
| NandData.Nand.Run | devices/nand-imx6ull/data.c:52-394 | both caches are invisible: any run of reads, writes, erases and syncs without failures answers as the uncached array of good blocks does, and ends as it does; what that array answers in true byte positions is `NandWalk.ServeAt` |
| NandData.Nand.WriteSyncRead | devices/nand-imx6ull/data.c:60-297 | from any state, under any failures: write returned n, sync returned EOK, read of n bytes succeeded - then they are the first n bytes written, unless the first sync of the write took the block cached before from below the start onto or past it; then every block between is bad, and what comes back is exactly its image followed by the data one block late |
| DiskBios.ChsRoundTrip | devices/disk-bios/disk-bios.c:194 | the address packet made from cylinder, head and sector names the block they were computed from |
| DiskBios.Odometer | devices/disk-bios/disk-bios.c:194 | blocks are counted along a track, then over the heads, then over the cylinders |
| DiskBios.LbaInjective | devices/disk-bios/disk-bios.c:323-325 | different cylinder, head, sector triples are different blocks |
| DiskBios.AppliedIsOverwritten | devices/disk-bios/disk-bios.c:317-364 | for whole sectors, the piecewise account of a write holds exactly of the flat overwrite |
| DiskBios.ApplyStep | devices/disk-bios/disk-bios.c:343-346 | each piece a round takes extends the written stretch by itself |
| DiskBios.OverlayPut | devices/disk-bios/disk-bios.c:342-363 | growing the segment by a block it has, touches or is empty for changes exactly that sector of the overlaid disk |
| DiskBios.TakenIsFlat | devices/disk-bios/disk-bios.c:319-346 | a write of any offset and length is a flat byte write if and only if the cache blocks of its first and last sector agree with the disk around it when their turn comes, and no sector it does not touch was flushed to |
| DiskBios.PartialIsLost | devices/disk-bios/disk-bios.c:343-344 | a concrete one-byte write that zeroes the rest of its sector |
| DiskBios.TwoDisks | devices/disk-bios/disk-bios.c:330-336 | a concrete run: unless an access fails, sectors of zeros written to one disk and to another track of a second one leave both tracks of the second zero |
| DiskBios.DiskCache.CachedAgrees | devices/disk-bios/disk-bios.c:326-344 | for a sector that is pending the cache block agrees, so such writes of part of it are flat |
| DiskBios.DiskCache.Flush | devices/disk-bios/disk-bios.c:332-339 | for the segment's own disk the overlaid view stays; on success the disk written shows exactly the segment, whichever disk it is |
| DiskBios.DiskCache.CachedIsCurrent | devices/disk-bios/disk-bios.c:326-331 | the cache block of a pending sector holds that sector |
| DiskBios.DiskCache.PutBlock | devices/disk-bios/disk-bios.c:323-363 | one round changes exactly one sector of what the disk shows with the pending segment on it, whichever disk that belonged to; nothing if the flush fails; segment stays inside one track and inside wcache |
| DiskBios.DiskCache.Write | devices/disk-bios/disk-bios.c:302-367 | exact for any offset, length and pending segment: what the disk shows afterwards, and that it is the flat byte write over what it showed before if and only if the two partial sectors agree and the segment flushed was harmless; other disks are untouched |
| DiskBios.DiskCache.Sync | devices/disk-bios/disk-bios.c:370-391 | the view stays, and on EOK the disk equals it |
| DiskBios.DiskCache.Run | devices/disk-bios/disk-bios.c:302-391 | over any run of whole-sector writes and syncs on one disk, the overlay equals the flat array with every write applied, and after a sync so does the disk |
| SdCard.CheckIsExact | devices/sdcard-zynq7000/sdcarddrv.c:82-92 | the range check decides range membership exactly where its 32-bit sum does not wrap, and accepts everything on the card where it does |
| SdCard.WrappedCheckPasses | devices/sdcard-zynq7000/sdcarddrv.c:84-92 | a concrete length that passes on a card of one block |
| SdCard.SpliceBack | devices/sdcard-zynq7000/sdcarddrv.c:100-111 | read, modify, write of a block changes just the modified bytes of the card |
| SdCard.Card.Modify | devices/sdcard-zynq7000/sdcarddrv.c:100-146 | a part of a block, or whole blocks, are written with all other bytes kept; a failure can only disturb the blocks transferred |
| SdCard.Card.Cut | devices/sdcard-zynq7000/sdcarddrv.c:100-152 | a read within one transfer delivers just the bytes asked for |
| SdCard.Card.Rounds | devices/sdcard-zynq7000/sdcarddrv.c:121-158 | the loop moves everything that remains, in transfers of at most two blocks inside the card |
| SdCard.Card.ReadWrite | devices/sdcard-zynq7000/sdcarddrv.c:77-161 | a successful write changes exactly [offs, offs + len), a successful read delivers exactly it; the call fails if and only if the card is not initialised, the check refuses or a transfer fails; never more than two blocks per transfer, and none past the card if the range is on the card or the check is exact; else the first one past it is the last and fails; refused calls do nothing |
| MsgFrame.FeedStuffed | phfs/msg.c:70-80 | the escaped form of any byte decodes to that byte |
| MsgFrame.SuperfluousEscape | phfs/msg.c:112-122 | an escape in front of a byte that needs none changes nothing |
| MsgFrame.CsumOfByte | phfs/msg.c:40-51 | what one byte does to the checksum: nothing in the checksum field, 256 times its change in the upper byte of the sequence number, else its change |
| MsgFrame.CsumOfZeros | phfs/msg.c:40-51 | of zeros, as many as there may be, the checksum is zero |
| MsgFrame.OneByteChanged | phfs/msg.c:40-51 | a checked message with any one byte changed is not a checked message |
| MsgFrame.DamagedIsRefused | phfs/msg.c:86-159 | so a frame whose message has one byte changed, outside the length, is refused, in any noise and chunks |
| MsgFrame.LengthChanged | phfs/msg.c:131-147 | a concrete message of 512 bytes that is accepted as an empty one when one byte of its length becomes zero |
| MsgFrame.FrameExample | phfs/msg.c:54-83 | a concrete message with its checksum and its frame in numbers |
| MsgFrame.ChunksDoNotMatter | phfs/msg.c:94-153 | the outcome of a read depends only on the concatenation of what the device delivers, however it is cut |
| MsgFrame.FeedPayload | phfs/msg.c:98-147 | a whole encoded message ends the call exactly at its last byte, and is accepted if and only if its checksum is right |
| MsgFrame.FrameIsRead | phfs/msg.c:54-159 | noise without a mark, a frame, anything: cut into any reads, this yields the message if and only if its checksum is right |
| MsgFrame.OnlyCheckedRead | phfs/msg.c:137-146 | whatever the line carries, an accepted message has the length its header says, at most 512 bytes of data, and a right checksum |
| MsgFrame.TruncatedWaits | phfs/msg.c:101-153 | a frame cut anywhere, even inside an escape pair, leaves the decoder waiting inside a frame that is not too long |
| MsgFrame.MarkInterrupts | phfs/msg.c:108-110 | the mark of the next frame then fails the call and leaves the state in a frame |
| MsgFrame.Resynchronise | phfs/msg.c:98-153 | truncated frame, then a mark in any read: first call fails, later reads are left, and the next frame comes through if the mark was the last byte of its read |
| MsgFrame.NeedsBytes | phfs/msg.c:98-147 | to accept a message the decoder takes at least as many bytes as its encoding has |
| MsgFrame.LostOrRead | phfs/msg.c:94-153 | after an interrupted call, the next frame is delivered if and only if nothing of it was lost with the read that had its mark |
| MsgFrame.LostFrame | phfs/msg.c:94-153 | a concrete frame that is lost, and that comes through with the read cut behind its mark |
| MsgFrame.ResynchroniseByteByByte | phfs/msg.c:86-159 | one byte per read: any truncated prefix of a frame and then a complete frame make the first call fail and the second deliver it |
| Words.Le32RoundTrip | phfs/msg.h:64-76 | a serialised word deserialises to itself; its halves are where the header macros look |
| Words.UnLe32RoundTrip | phfs/msg.h:64-76 | and the other way round |
| Words.LowestFirst | phfs/msg.h:64-76 | a concrete word: its lowest byte comes first |
| Msg.Message.Payload | phfs/msg.h:37-58 | the bytes of a message are as long as its length field says and carry sequence number and checksum in the first word |
| Msg.Message.Checksum | phfs/msg.c:40-51 | the 16-bit loop computes the checksum that the decoder compares with and `MsgFrame.CsumOfByte` describes |
| Msg.Message.SetChecksum | phfs/msg.c:167 | afterwards the message is one the decoder accepts; sequence number, type and data stay |
| Msg.Message.Write | phfs/msg.c:54-83 | on success exactly the frame went out, on failure a prefix of it |
| Msg.SamePayload | phfs/msg.c:26-37 | equal payloads are equal messages: checksum word, type word, data |
| Msg.SentIsRead | phfs/msg.c:54-159 | what the writer sends is what the reader delivers, after noise and in any chunks, if and only if the checksum was set |
| Msg.Receiver.Store | phfs/msg.c:124-135 | header bytes go to the header buffer, the others to the data, and the headers are in the message once complete |
| Msg.Receiver.Accept | phfs/msg.c:99-152 | the loop body is one step of the decoder, with the message rebuilt in place when it ends |
| Msg.MsgRead | phfs/msg.c:86-159 | both loops: result, state carried over, reads left and rebuilt message are those of the decoder on the pending reads |
| Msg.MsgSend | phfs/msg.c:162-179 | three rounds at most: each one fails because a write failed or because what came in was refused, and the call gives up exactly after three that do; EOK means that the own frame went out whole last, and the message delivered is the first one accepted of what came in |
| Ring.Append | devices/uart-16550/uart-16550.c:172-178 | copying in up to two pieces behind the entries of a ring appends to them |
| Ring.Prefix | lib/cbuffer.c:85-97 | the first entries of a ring are a run to its end and a run from its start |
| Ring.Drop | lib/cbuffer.c:99-100 | moving the start drops the oldest entries |
| CBuffer.PushIsPrefix | lib/cbuffer.c:63-75 | repeating the byte write until it refuses appends the longest prefix that fits |
| CBuffer.PopIsPrefix | lib/cbuffer.c:106-118 | repeating the byte read removes the longest prefix asked for |
| CBuffer.Buffer.Size | lib/cbuffer.c:20-26 | always the length of the queue |
| CBuffer.Buffer.Empty | lib/cbuffer.c:29-32 | true exactly for the empty queue |
| CBuffer.Buffer.WriteByte | lib/cbuffer.c:63-75 | pushes unless the queue is full |
| CBuffer.Buffer.ReadByte | lib/cbuffer.c:106-118 | pops unless the queue is empty |
| CBuffer.Buffer.Write | lib/cbuffer.c:35-60 | appends the longest prefix that fits, the same as repeated byte writes, for every capacity and wrap position |
| CBuffer.Buffer.Read | lib/cbuffer.c:78-103 | removes the longest prefix asked for, the same as repeated byte reads |
| Rtt.SlotDistinct | devices/pipe-rtt/rtt.c:142-171 | less than a round apart, two bytes of the stream never share a slot |
| Rtt.Pipe.Safety | devices/pipe-rtt/rtt.c:125-180 | in every reachable state the bytes read are a prefix of the bytes published, and at most sz - 1 are pending |
| Rtt.Pipe.WriteGuard | devices/pipe-rtt/rtt.c:165-169 | the writer stops exactly when all is copied or the ring is full as far as its snapshot shows |
| Rtt.Pipe.WriteCopy | devices/pipe-rtt/rtt.c:170-172 | copying a byte overwrites no slot that the reader has not given back |
| Rtt.Pipe.ReadCopy | devices/pipe-rtt/rtt.c:141-143 | the byte read is the next one accepted |
| Rtt.Pipe.Write | devices/pipe-rtt/rtt.c:154-180 | with the reader stopped anywhere, appends as much as fits and publishes it |
| Rtt.Pipe.Read | devices/pipe-rtt/rtt.c:125-151 | with the writer stopped anywhere, delivers as much as is published |
| Rtt.Pipe.Run | devices/pipe-rtt/rtt.c:125-180 | for every interleaving of the steps of both sides the ring does what positions in an unbounded stream would, step by step; so bytes read are a prefix of bytes accepted, no unread slot is overwritten, at most sz - 1 pending |
| Uart.Port.Write | devices/uart-16550/uart-16550.c:160-198 | accepts what fits, in order, and starts the transmitter if it was idle |
| Uart.Port.Transmit | devices/uart-16550/uart-16550.c:109-118 | the interrupt sends the oldest unsent byte, or turns itself off when there is none |
| Uart.Port.Receive | devices/uart-16550/uart-16550.c:100-107 | a byte received joins the ring; a full ring gives up its oldest byte, and only a full one does |
| Uart.Port.Read | devices/uart-16550/uart-16550.c:125-157 | delivers the oldest bytes in order |
| Uart.Port.FullFlag | devices/uart-16550/uart-16550.c:109-194 | tf is set exactly when the ring is full; the bytes stored to thr are a prefix of those accepted |
| Uart.ReceivedInOrder | devices/uart-16550/uart-16550.c:100-157 | what was delivered and what is still in the ring are the bytes that came in, in order, but for as many as were given up; all of them if and only if none was |
| Uart.Port.Run | devices/uart-16550/uart-16550.c:91-198 | for every interleaving of calls and interrupts the rings do what the events would do to the byte sequences alone; the bytes stored to thr are an in-order prefix of the bytes accepted, and the bytes delivered, followed by those to read, are the bytes that came in, in order, less those a full ring gave up |
| Crc32.Bitwise | lib/crc32.c:85-95 | the loops compute the checksum that the lemmas are about |
| Crc32.BitsLinear | lib/crc32.c:89-91 | the bit step, any number of times, is linear over exclusive or |
| Crc32.BitBijective | lib/crc32.c:89-91 | and a bijection, with the inverse given |
| Crc32.CrcConcat | lib/crc32.c:77-96 | the checksum of a concatenation is that of the second part started from that of the first |
| Crc32.CheckValue | lib/crc32.c:77-96 | the checksum of the nine digits is the published check value |
| CrcTable.EntryIsBits | lib/crc32.c:28-73 | each of the 256 table entries is eight bit steps of its index |
| CrcTable.LookupIsByte | lib/crc32.c:83 | one table step is one byte of the bitwise form, for every state and byte |
| CrcTable.ByTable | lib/crc32.c:80-84 | the table-driven loop returns what the bitwise loop returns |
| CrcDetect.CrcInjective | lib/crc32.c:77-96 | over any buffer, different bases give different checksums |
| CrcDetect.CrcOfPack | lib/crc32.c:86-92 | up to four bytes enter the state as one word |
| CrcDetect.DetectsWindow | lib/crc32.c:77-96 | two buffers of the same length that differ, but only within four consecutive bytes, never have the same checksum from the same base |
| Placement.AlignUp | syspage.c:20 | rounding gives the multiple less than one alignment above, or zero when that is 2^32 |
| Placement.AlignLeast | syspage.c:20 | it is the least multiple not below the address, and does not wrap if there is one |
| Placement.AlignedIsMultiple | syspage.c:20 | clear low bits mean a multiple of the power of two |
| Placement.InsertTidy | syspage.c:176-212 | inserting a range that overlaps nothing before the first later one keeps the entries sorted and disjoint |
| Placement.TakenIs | syspage.c:308-314 | a gap is taken exactly if it really holds the block, or if rounding carried its start past its end, or to zero, and the wrapped size and the overlap test let it through |
| Placement.RoomWins | syspage.c:310-313 | a gap that really holds the block always beats one that went astray |
| Placement.SearchIsBest | syspage.c:301-325 | the loop keeps the earliest of those gaps it takes that seem smallest |
| Placement.RoomIsPlace | syspage.c:297-336 | some gap holds the block if and only if there is an aligned place inside the map that overlaps no entry |
| Placement.BestFitExact | syspage.c:297-336 | on any map with entries, aligned or not, best fit does what a caller wants - fails if and only if there is no place, else returns the earliest of the smallest gaps - if and only if some gap holds the block or none goes astray; otherwise it returns the start of a gap gone astray, which is no place |
| Placement.BestFitFits | syspage.c:297-336 | so it always does where entry starts and the end of the map are aligned |
| Placement.EmptyMapNotChecked | syspage.c:304-335 | on a map without entries a place is always returned: the start rounded up, or zero where that wraps; it fits if and only if any aligned place does, and where it wraps none does |
| Placement.EmptyMapOverruns | syspage.c:304-335 | a map where the block sticks out, and one where the place returned is zero |
| Placement.UnalignedEntryOverlaps | syspage.c:308-315 | a map with an unaligned entry start on which best fit returns a place that is taken |
| Placement.UnalignedEndOverruns | syspage.c:319-325 | a map with an unaligned end on which best fit returns a place outside |
| Placement.RoundingWraps | syspage.c:20 | a map on which rounding the end of an entry wraps to zero, and best fit returns the place of the first entry |
| Placement.PlacedAsAsked | syspage.c:372-384 | an entry asked for at an address, or at an offset into the map, goes to the least multiple of the alignment not below that, and nowhere if it clashes there |
| Placement.ClashIsOverlap | syspage.c:379 | the overlap test of entryAdd is exact for blocks that do not run past 2^32 |
| Placement.WrappedBlockClashes | syspage.c:379 | a block that does run past it is not noticed |
| Placement.BestFitIsFree | syspage.c:297-336 | with aligned starts best fit never overlaps an entry, even in a map with entries past its end |
| Placement.PlacedIsFree | syspage.c:365-385 | neither does any other way of placing an entry, and the block ends by the limit, for admissible requests |
| Placement.AnywhereIsAdmissible | syspage.c:366-370 | a request for any place is admissible in every orderly map with entries |
| Placement.AddKeepsOrder | syspage.c:365-396 | adding an entry keeps all entries sorted, disjoint and aligned |
| Placement.FirstIsFirst | hal/armv7a/imx6ull/hal.c:180-251 | the next memory entry is inside the range asked for, covered by the loader's memory, with nothing covered before it |
| Syspage.Heap.Alloc | syspage.c:52-68 | the new top is the next multiple of eight behind the block, below the end; it lies behind the block if and only if the rounded sum does not wrap; refused exactly when the rounded end reaches the end of the heap |
| Syspage.Map.Link | syspage.c:188-210 | the pointer updates put the new node between its neighbours of the circular doubly linked list |
| Syspage.Map.SortedInsert | syspage.c:176-212 | the list stays well formed and sorted, and the new entry stands before the first one that starts later |
| Syspage.Map.FindBest | syspage.c:297-336 | the traversal returns what best fit on the entries' ranges returns |
| Syspage.Map.Overlaps | syspage.c:375-384 | the traversal finds a clash exactly if there is one |
| Syspage.Map.EntryAdd | syspage.c:365-398 | NULL exactly if there is no place or no memory, and then nothing changed; else the new entry is at the place, inserted in order |
| Syspage.Map.IsAdmissible | syspage.c:365-385 | admissible can be told from the request, the bounds of the map and its last entry: the block, rounded, ends by the limit, or it may go anywhere and the last entry, rounded, ends inside the map |
| Syspage.Map.Run | syspage.c:176-399 | over any run of admissible requests with one power-of-two alignment the entries stay a well-formed circular list, sorted, disjoint and aligned, none is lost, and each request adds exactly its entry, unless there is no place or no memory for it |
| Syspage.Map.Fill | syspage.c:274-287 | the entries taken over cover exactly the loader's memory inside the map, sorted and disjoint even if the loader's ranges overlap; it fails only when the heap is full |
| Strtoul.StrToUl | lib/strtoul.c:21-51 | the loop returns value and stopping place that the lemmas are about |
| Strtoul.StrToL | lib/strtoul.c:54-64 | likewise, with the sign and the conversion to a long |
| NumText.ValueOfText | lib/format.c:384-478 | the digits of a number stand for that number in every base used |
| NumText.ReadText | lib/strtoul.c:37-46 | zeros and the digits of a number are read to their end as that number modulo the width of an unsigned long |
| Format.PutLow | lib/format.c:419-422 | a fixed number of digits from the low word are the low digits of the 64-bit number |
| Format.PutHex | lib/format.c:417-433 | all digits of a 64-bit number, split over two words, in at most 16 characters |
| Format.PutOct | lib/format.c:439-461 | the octal split with the digit that takes two bits of one word and one of the other, in at most 22 characters |
| Format.PutDec | lib/format.c:465-478 | decimal digits in at most 20 characters |
| Format.PutBody | lib/format.c:411-478 | digits and prefix, in at most 23 of the 32 characters of the buffer |
| Format.SplitSign | lib/format.c:384-409 | sign and magnitude for every argument, the most negative ones included |
| Format.FormatNum | lib/format.c:384-499 | the text fed is padding, sign, padding, prefix and digits of the argument |
| Printing.FieldWidth | lib/format.c:480-499 | the text is as long as the width or the number needs; what is missing is in front, as zeros behind the sign or as spaces |
| Printing.SignShown | lib/format.c:384-409 | minus exactly for negative numbers, else a space or a plus as asked for, the space first; letters and digits behind it |
| Printing.LetterCase | lib/format.c:417-433 | no small letter with %X and no capital one with %x, prefix included |
| Printing.UnsignedExamples | lib/format.c:411-478 | concrete texts of %u, %x, %X, %o and their alternate forms |
| Printing.SignedExamples | lib/format.c:384-499 | concrete texts of %d with signs, widths and zeros |
| Printing.ReadExamples | lib/strtoul.c:21-51 | concrete texts read in a given base, letters of both cases, and where reading stops |
| Printing.PrefixExamples | lib/strtoul.c:25-35 | concrete texts read in base 0 and with prefixes |
| Printing.SignExamples | lib/strtoul.c:54-64 | concrete texts read with and without a sign |
| NumRoundTrip.UnsignedRoundTrip | lib/format.c:384-499 | %u, %x, %X, %o, ll forms, any flags and width, read in the matching base: the number comes back and reading stops behind it, if and only if there are no padding spaces and no zeros in front of a 0x prefix |
| NumRoundTrip.SmallerBase | lib/strtoul.c:37-46 | the digits of a number, read in a smaller base, stand for a smaller number unless there is only one |
| NumRoundTrip.BaseZeroRoundTrip | lib/strtoul.c:25-35 | any flags and width, read in base 0: the number comes back if and only if there are no padding spaces, no zeros in front of a 0x prefix, and the base that the text suggests is its own or gives the same number |
| NumRoundTrip.BaseZeroSmall | lib/strtoul.c:25-35 | where nothing wraps, zero-padded decimals and unprefixed hexadecimals come back if and only if the number is below the suggested base |
| NumRoundTrip.BaseZeroOctal | lib/strtoul.c:25-46 | unprefixed, unpadded octals, which are taken for decimal: read into 32 bits, or without wrapping (into 64 bits: below 2^57), they come back if and only if they have one digit; else exactly if the decimal value of the digits is the number modulo the width |
| NumRoundTrip.OctalCoincidence | lib/strtoul.c:25-46 | a concrete number of 22 octal digits that comes back from 64 bits though it is taken for decimal |
| OctalAsDecimal.SameModulo | lib/strtoul.c:37-46 | for no number from 8 to 2^32 do the octal digits, taken for decimal ones, stand for it modulo 2^32, nor for any number modulo anything that they do not reach |
| NumRoundTrip.SignedRoundTrip | lib/strtoul.c:54-64 | %d, %lld, any flags and width, read by lib_strtol: the number comes back if and only if there are no padding spaces and no plus or space for a sign |
| NumRoundTrip.FitsInLong | lib/strtoul.c:54-64 | what a long can hold comes back as itself |
| Areas.DisjointFit | lib/ptable.c:74-85 | disjoint ranges inside a device sum to at most its size |
| PtableSpec.SizeIsExact | lib/ptable.h:80-83 | the 32-bit size is the true size exactly below 2^27 - 1 partitions |
| PtableSpec.SizeWraps | lib/ptable.h:80-83 | at that count it is zero, and one further that of an empty table |
| PtableSpec.ValidTablesFit | lib/ptable.c:27-128 | partitions of an accepted table are disjoint as true ranges and differ in name; their sizes sum to at most memsz, and count times blksz is at most memsz |
| PtableSpec.ValidTablesInBlock | lib/ptable.c:91-128 | with blocks of more than 32 bytes an accepted table lies inside one block and ends with its signature, in true numbers |
| PtableSpec.DamageDetected | lib/ptable.c:21-37 | two different records that differ only within four consecutive bytes cannot have the same checksum |
| PtableSpec.StampedPart | lib/ptable.c:172-174 | stamping leaves every record as it is and makes its checksum right |
| PtableSpec.StampedIsValid | lib/ptable.c:160-181 | a stamped table verifies if and only if its content - sizes, offsets, names, size of the table - is valid |
| PtableSpec.TableCrcCheck | lib/ptable.c:21-24 | the checksum of the nine digits is the published check value |
| PtableLayout.PartFields | lib/ptable.h:53-60 | name, offset, size, type, reserved bytes and checksum of any partition are read where they are laid out, for all their values |
| PtableLayout.HeaderFields | lib/ptable.h:63-69 | likewise count, version and checksum of the header, and the signature |
| PtableLayout.CStringIs | lib/ptable.c:81-84 | names are compared up to their first zero |
| PtableLayout.GoodNameIs | lib/ptable.c:63-72 | a good name is one to seven letters and digits in front of a zero |
| PtableLayout.ValidInFields | lib/ptable.c:27-128 | a table is accepted if and only if the values of its fields make it valid: sizes, offsets, names, checksums unless the version is 0, 1 or 255, signature |
| PtableLayout.StampedInFields | lib/ptable.c:160-193 | serialising sets the version to 2, all checksums and the signature, and changes no other field |
| Ptable.NameVerify | lib/ptable.c:63-72 | accepts exactly one to seven letters and digits followed by a zero |
| Ptable.RangeVerify | lib/ptable.c:39-59 | the 32-bit checks accept exactly the nonempty block-aligned ranges inside the device |
| Ptable.Overlap | lib/ptable.c:77 | the 32-bit test finds exactly the overlaps of ranges that passed before |
| Ptable.PartVerify | lib/ptable.c:27-88 | zero if and only if the partition is valid and apart from all before it |
| PtableSpec.WrappedMagic | lib/ptable.c:110-118 | when the size wraps, the signature is checked where a partition's name begins |
| Ptable.Verify | lib/ptable.c:91-128 | zero if and only if the table is valid, for every count; so a table whose size wraps is refused, unless it wraps to zero and the signature is in front of the table |
| Ptable.VerifyParts | lib/ptable.c:120-125 | the loop accepts exactly if all partitions are valid, and ends before it leaves the buffer where the size wraps |
| Ptable.Serialize | lib/ptable.c:160-193 | the table becomes the stamped one, in place; zero if and only if its content is valid, and then it verifies |
| Ptable.Deserialize | lib/ptable.c:131-157 | zero if and only if the table is valid; the table stays as it is, so what was serialised is read back |

## Left out

- Register access, DMA, BIOS calls, clocks, pins and interrupt controllers: abstract steps that may fail take their place.
- Timeouts, and with them the drop of pending bytes in `rtt_writeBlocking` (devices/pipe-rtt/rtt.c:189-193); waiting calls are steps that happen once they can.
- Device tables: the NAND minor is zero or refused, a BIOS disk's minor stands for its drive number, and absent drives do not occur.
- The NULL buffer checks of the NAND driver: a sequence is never NULL.
- Error codes of the flash, disk and card operations beyond their sign; `ECC` metadata of NAND pages.
- NAND page numbers as 32-bit products: pages are named by the pair of block and page (`NandData.PageNumber`).
- NandData.Nand.EraseBlocks: says nothing of the bytes reported where a sync went past the block to be erased, where one overtook the eraser and a page read failed as well, and where the cached block was bad already when the erase began; single rounds of the first kind are `NandData.Nand.ErasePart` and `NandWalk.PassedIsReplaced`.
- NandData.Nand.Write: under failures, says nothing of the bytes in front of the range inside its first block, nor of those behind the range, which move when a block goes bad.
- The BIOS disk's read cache, which flushes do not invalidate, and access without LBA packets.
- DiskBios.DiskCache.Run: runs of whole-sector writes to one disk; single writes of any kind are `DiskBios.DiskCache.Write`.
- The content of the caller's buffer after a failed SD card read.
- The bytes a serial device may write short: `devs_write` writes everything or fails, as the serial drivers' own loops ensure.
- Received bytes of a failed `msg_read`: only result, state and reads left are stated.
- The list of maps in syspage.c, the lookup of a map by name or address, attributes and programs: `Syspage.Map.EntryAdd` starts with the map found. Entry types are not kept.
- 64-bit addresses in syspage.c, where the alignment mask has 32 bits; `Syspage.Map.Fill` assumes that a map does not end before it starts.
- Alignments that are not powers of two: the functions follow the bit operations, the theorems do not cover them.
- `(nil)` for null pointers, floating-point formats, and the parsing of format strings; the caller of `Format.FormatNum` passes flags and width.
- NULL end pointers and negative bases of lib_strtoul.
- Big-endian hosts, on which serialisation of partition tables and messages would convert.
- The other flash drivers, command parsers, console, USB and phfs dispatch: controller protocol, plumbing, or weaker variants of the caches above.
