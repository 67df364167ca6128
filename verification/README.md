# ISO/IEC 14443-3 Type A card selection and reader back-ends, in Dafny

This project models the core of a small NFC/RFID reader library written in C:

- **The ISO/IEC 14443-3 Type A selection engine.** This covers REQA/WUPA, the
  ANTICOLLISION/SELECT cascade (PICC_Select) and HLTA. The engine exists twice:
  - `cards/picc.c` is written against a reader's abstract `TransceiveData`
    (module `Picc`, with the reader in module `Pdc`);
  - `drivers/rc522/MFRC522.c` is the register-level MFRC522 version (modules
    `Mfrc522` and `Mfrc522Select`). It decodes the collision register and
    checks the CRC_A of the SAK itself.
- **The status classification of each reader back-end.** These are the MFRC522
  `PCD_CommunicateWithPICC` (module `Mfrc522`), the RC663 back-end (`Rc66x`)
  and the `MFRC522_ToCard` / `rc52x_anticol` pair of `drivers/rc52x.c` (`Rc52x`).
- **The MIFARE layer of `cards/mifare.c`** (module `Mifare`):
  - value blocks, access bits and the block 0 that MIFARE_SetUid writes;
  - READ, the two-step WRITE, the Ultralight page write;
  - INCREMENT, DECREMENT, RESTORE and TRANSFER.

  The Ultralight READ/WRITE NAK decoding of `cards/picc.c` is in module
  `PiccMifare`.
- **The PN53x normal information frame and its I2C exchange**
  (`drivers/pn53x.c`, module `Pn53x`).

Shared encodings of ISO/IEC 14443-3 are in module `Iso14443a`:

- the SEL codes, the NVB byte, the cascade tag and the BCC;
- the frame layout of each cascade level;
- the collision-bit update;
- CRC_A, from section 6.2.4 of ISO/IEC 14443-3.

Everything the C code reads from hardware is a script given to the model:

- **The reader (`Pdc.Device`)** answers each frame with the next scripted
  `Reply`: status, bytes, valid bits of the last byte, and collision position.
  It answers time-out once the script is used up, and it logs every request.
  How received bits merge into a partly sent byte (`rxAlign`) is the explicit
  function `Pdc.Merge`.
- **The MFRC522, the RC663 and the `rc52x` chip** each take one scripted
  `Round` per command: the successive interrupt-register reads, the error
  register, the FIFO contents and the control register. The bounded poll loops
  of the source run over those reads.
- **The PN53x I2C bus** returns scripted write results and scripted receptions.

Both PICC_Select implementations are proved equal to a specification:

- `Picc.SelectSpec` and `Mfrc522Select.SelectSpec` are each three mutually
  recursive functions that follow the two nested loops of the source.
- `PiccProperties` and `Mfrc522Properties` prove about those specifications
  that every frame sent is well-formed, that each frame consumes one reply, and
  that at most 99 frames are sent. They also prove that a success reports a 4-,
  7- or 10-byte UID, and they work through a lone card end to end.

## Model

| member | source | states |
|---|---|---|
| Iso14443a.SelCode | cards/picc.c:277-295 | SEL is 0x93, 0x95, 0x97 for cascade levels 1, 2, 3 |
| Iso14443a.UidIndex | cards/picc.c:277-295 | the level's first UID index is 0, 3, 6 |
| Iso14443a.BytesFor | cards/picc.c:311-312 | the byte count is the least number of bytes that holds the known bits |
| Iso14443a.BytesToCopy | cards/picc.c:311-321 | at most 3 bytes are copied behind a cascade tag, 4 otherwise; below that bound, enough bytes for every known bit |
| Iso14443a.LevelFrame | cards/picc.c:277-321 | the level's frame has SEL in byte 0, CT 0x88 in byte 2 when a cascade tag is used, then the known UID bytes of the level from byte 3 (else byte 2); byte 1 and the bytes after them are untouched |
| Iso14443a.Nvb | cards/picc.c:346-349 | the high nibble of NVB is 2 + known/8, the low nibble known%8; together they count 16 + known bits |
| Iso14443a.AnticollisionLength | cards/picc.c:350 | the bytes sent in an ANTICOLLISION are exactly those that hold the NVB's valid bits |
| Iso14443a.SelectFrame | cards/picc.c:331-343 | a SELECT frame has NVB 0x70 (56 bits) and a BCC that makes bytes 2..6 XOR to zero; the other bytes are unchanged |
| Iso14443a.StoreUid | cards/picc.c:391-396 | three UID bytes are stored after a cascade tag in byte 2, four otherwise, at the level's UID index; the rest of the UID is unchanged |
| Iso14443a.ForceCollisionBit | cards/picc.c:370-374 | for a collision at bit 1..32, only bit (pos-1)%8 of byte 2+(pos-1)/8 is set; every other byte and bit is unchanged |
| Iso14443a.BitMask | cards/picc.c:374 | `1 << checkBit` is a mask with exactly that one bit set |
| Pdc.Code | drivers/pdc.h:41-54 | each status has its code from -11 to 0, and only STATUS_OK is 0 |
| Pdc.Merge | cards/picc.c:358-363 | the first received byte keeps the low rxAlign bits already held and takes the rest from the card; with rxAlign 0 it is the received byte |
| Pdc.Received | cards/picc.c:361-363 | an answer is stored at the offset of the answer buffer (the first byte merged); nothing outside it changes |
| Pdc.Hear | drivers/pdc.h:61-73 | a reader's transceive stores only a successful or colliding answer that fits; it reports that reply's status and collision position; otherwise the buffer is untouched |
| Pdc.Device.TransceiveData | drivers/pdc.h:61-73 | one frame is logged and one reply consumed; the out-values are those of `Hear` |
| Picc.RequestOrWakeup | cards/picc.c:174-200 | a missing or too small ATQA buffer gives STATUS_NO_ROOM before any frame; otherwise a 7-bit frame is sent; a failed exchange passes its status on, and success requires exactly 2 whole bytes, else STATUS_ERROR |
| Picc.RequestA | cards/picc.c:149-153 | REQA 0x26 is sent as a 7-bit frame into the card's ATQA and the protocol is set to ISO 14443A; the status is that of REQA/WUPA: a failed exchange passes its status on, OK needs exactly 2 whole bytes, and any other OK answer is STATUS_ERROR |
| Picc.WakeupA | cards/picc.c:161-166 | a card not marked ISO 14443A is refused with STATUS_INVALID and nothing is sent; otherwise WUPA 0x52 is sent as a 7-bit frame, and a failed exchange passes its status on, OK needs exactly 2 whole bytes, and any other OK answer is STATUS_ERROR |
| Picc.HaltStatus | cards/picc.c:451-457 | for HLTA, a time-out means success, an answer (STATUS_OK) is STATUS_ERROR, and any other status passes through |
| Picc.HaltA | cards/picc.c:435-458 | sends [0x50, 0x00] with CRC and no answer buffer, and returns the mapped status |
| Picc.CollisionIndexAsWritten | cards/picc.c:369-374 | the byte index the source computes for a collision at `pos` equals CollisionByte for every pos ≥ 1, and lies inside the 9-byte frame exactly when pos ≤ 56 |
| Picc.StaleCollisionPositionOverruns | cards/picc.c:359-374 | every unwritten `collisionPos` from 57 to 255 passes the `collisionPos <= currentLevelKnownBits` check for any known-bit count up to 32, and indexes past the frame buffer |
| Picc.AnswerOffset | cards/picc.c:342-353 | the answer goes to byte 6 for a SELECT and to byte 2 + known/8 for an ANTICOLLISION |
| Picc.InnerPass | cards/picc.c:329-387 | one pass logs its frame and consumes one reply, and keeps SEL, the UID and the SAK; a continuing pass strictly increases the known bits, up to 32; an abort carries a non-OK status |
| Picc.SetUpLevel | cards/picc.c:277-325 | the level's frame is built as LevelFrame, and the known-bit count is max(0, validBits-8·uidIndex), plus 8 with a cascade tag |
| Picc.WriteLevelHeader | cards/picc.c:277-310 | SEL is written and, when a cascade tag is used, CT goes in byte 2; the copy starts at byte 3 or 2 |
| Picc.CopyKnownBytes | cards/picc.c:318-320 | the loop copies n UID bytes into the frame at the given index; the other frame bytes stay |
| Picc.StoreLevelUid | cards/picc.c:391-396 | the loop stores the level's UID bytes as StoreUid says |
| Picc.PrepareFrame | cards/picc.c:331-355 | a SELECT (known ≥ 32) frames 7 bytes with BCC and CRC requested, answer at byte 6, room 3; an ANTICOLLISION frames NVB and bytes up to the last partial one, without CRC, answer at 2 + known/8 |
| Picc.SetBit | cards/picc.c:374 | `buffer[index] \|= 1 << bit` sets one bit and changes nothing else |
| Picc.ForceBit | cards/picc.c:370-374 | the frame after a collision is ForceCollisionBit of the frame before |
| Picc.SendFrame | cards/picc.c:331-363 | framing plus transceive (rxAlign 0) moves the state to `Sent`, with the reader's answer as status |
| Picc.ExchangeFrame | cards/picc.c:329-387 | the loop body gives the outcome `InnerPass` specifies: a collision at or below the known bits is STATUS_INTERNAL_ERROR, otherwise the bit is forced; a non-OK status aborts; OK after a SELECT ends the loop, OK after an ANTICOLLISION sets known to 32 |
| Picc.RunExchanges | cards/picc.c:328-387 | the inner loop ends in the state and status the specification `Exchange` gives |
| Picc.FinishLevel | cards/picc.c:389-421 | the UID bytes are stored first; an answer that is not 24 bits with 0 trailing bits is STATUS_ERROR; the SAK's cascade bit then advances the level, else the SAK is stored |
| Picc.SearchLevel | cards/picc.c:277-387 | the level set-up and the inner loop agree with `CascadeLevel` |
| Picc.RunLevel | cards/picc.c:275-422 | one pass of the outer loop agrees with `CascadeLevel` |
| Picc.Select | cards/picc.c:223-428 | PICC_Select's status, UID, uid_size, SAK, frames sent and replies consumed are those of `SelectSpec`: validBits > 80 is STATUS_INVALID before any frame, and uid_size is 3·level+1 on success |
| Picc.FrameBuffer | cards/picc.c:234 | the 9-byte frame buffer starts with whatever the stack held |
| PiccProperties.FrameIsWellFormed | cards/picc.c:331-355 | every frame of a pass is a well-formed ANTICOLLISION, whose length and last-byte bits agree with its NVB and which has no CRC, or a 7-byte SELECT with NVB 0x70, a zero XOR and CRC |
| PiccProperties.ExchangeFollows | cards/picc.c:328-387 | the inner loop sends at most 33 - known frames, all well-formed, one reply each; this is the termination measure of the loop |
| PiccProperties.CompleteLevelFollows | cards/picc.c:389-422 | level completion either ends or goes on to the next level within the remaining budget |
| PiccProperties.CascadeLevelFollows | cards/picc.c:275-299 | from any cascade level, the rest of the run stays within 33 frames per remaining level; level 4 is STATUS_INTERNAL_ERROR |
| PiccProperties.SelectFollows | cards/picc.c:223-428 | PICC_Select sends only well-formed frames, at most 99, consumes exactly one reply per frame, and succeeds only with uid_size 4, 7 or 10 and a SAK without the cascade bit |
| PiccProperties.LoneSingleSizeCard | cards/picc.c:223-428 | a lone card with a 4-byte UID is selected with exactly `93 20` and `93 70 uid BCC`; the UID, size 4 and SAK are reported, whatever the frame buffer held |
| PiccProperties.LoneCardAnticollision | cards/picc.c:344-383 | the lone card's full answer to `93 20` fills bytes 2..6 and the loop goes on with 32 known bits |
| PiccProperties.LoneCardSelected | cards/picc.c:331-379 | the lone card's SELECT sends SEL, 0x70, the UID and BCC, and the SAK lands in byte 6 |
| PiccProperties.StoredWholeUid | cards/picc.c:391-396 | without a cascade tag, level 1 stores frame bytes 2..5 as UID bytes 0..3 and nothing else |
| PiccProperties.AnticollisionAnswered | cards/picc.c:344-383 | a 5-byte answer to the first ANTICOLLISION is stored at byte 2 and moves the loop to a SELECT |
| PiccProperties.SelectAnswered | cards/picc.c:331-379 | a 3-byte answer to a SELECT ends the loop with the SAK in byte 6 and the UID bytes intact |
| PiccMifare.NakStatus | cards/picc.c:603-627 | a 4-bit answer decodes as 0x0 STATUS_INVALID, 0x1 STATUS_CRC_WRONG, 0x4 STATUS_AUTH_ERROR, 0x5 STATUS_EEPROM_ERROR, and is success only when it is the ACK 0xA where an ACK is expected |
| PiccMifare.ReadSpec | cards/picc.c:588-635 | MIFARE_READ succeeds exactly when 16 bytes come back without error, and they are the card's bytes; a 4-bit answer is a NAK, and a failed exchange passes its status on |
| PiccMifare.Read | cards/picc.c:588-635 | sends [0x30, page] with CRC and behaves as ReadSpec |
| PiccMifare.WriteSpec | cards/picc.c:637-682 | MFU_Write succeeds exactly on an error-free exchange whose answer, if it is a 4-bit nibble, is the ACK 0xA |
| PiccMifare.Write | cards/picc.c:637-682 | sends [0xA2, page, data[0..3]] with CRC and behaves as WriteSpec |
| Mfrc522.BitFraming | drivers/rc522/MFRC522.c:298-299 | BitFramingReg holds rxAlign in bits 6..4 and txLastBits in bits 2..0 |
| Mfrc522.WaitCompleted | drivers/rc522/MFRC522.c:315-328 | the poll completes exactly when some read among the 2000 shows a waitIRq bit and no earlier read showed the timer bit or a waitIRq bit |
| Pdc.RxLastBits | drivers/rc522/MFRC522.c:346 | the valid bits of the last received byte are a 3-bit value, read from ControlReg on the MFRC522 and, identically, from RxBitCtrl on the RC663 (drivers/rc66x.c:192-193) |
| Mfrc522.Communicate | drivers/rc522/MFRC522.c:287-381 | the status priority is time-out, then ErrorReg&0x13 STATUS_ERROR, then FIFO over capacity STATUS_NO_ROOM, then CollErr STATUS_COLLISION after the data is stored, then with checkCRC NAK / short / CRC; STATUS_OK exactly when none applies |
| Mfrc522.Placed | drivers/rc522/MFRC522.c:345 | the FIFO bytes are written at the offset, and nothing else changes |
| Mfrc522.Chip.CommunicateWithPICC | drivers/rc522/MFRC522.c:287-381 | the command is logged with its BitFramingReg value, one round is consumed, and status, length, valid bits and buffer are those of `Communicate` |
| Mfrc522.Chip.TransceiveData | drivers/rc522/MFRC522.c:268-279 | the Transceive command with waitIRq 0x30 |
| Mfrc522.WaitForCommand | drivers/rc522/MFRC522.c:315-328 | the loop completes exactly when the specification's poll does |
| Mfrc522.Collect | drivers/rc522/MFRC522.c:330-380 | after completion, the error, FIFO, collision and CRC checks give `Communicate`'s outcome |
| Mfrc522.CheckCrc | drivers/rc522/MFRC522.c:367-377 | the answer is accepted exactly when its last two bytes are the CRC_A of the rest |
| Mfrc522.Recv | drivers/rc522/MFRC522.c:345 | the FIFO read writes the bytes at the offset and nothing else |
| Mfrc522.RequestOrWakeup | drivers/rc522/MFRC522.c:413-434 | STATUS_NO_ROOM for a missing or short buffer; otherwise a 7-bit frame; a non-OK status passes through, and OK only for exactly 2 bytes with 0 valid bits, else STATUS_ERROR |
| Mfrc522.HaltA | drivers/rc522/MFRC522.c:669-695 | sends HLTA 0x50 0x00 with its CRC_A and maps time-out to OK, OK to STATUS_ERROR, and passes the rest through |
| Mfrc522.AuthFrame | drivers/rc522/MFRC522.c:721-733 | the 12-byte authentication frame is command, block address, the 6 key bytes, and the last 4 UID bytes |
| Mfrc522.AuthSendData | drivers/rc522/MFRC522.c:721-733 | the fill loops build exactly AuthFrame |
| Mfrc522.Authenticate | drivers/rc522/MFRC522.c:713-738 | MFAuthent is started with AuthFrame and waitIRq 0x10, and its status is returned |
| Mfrc522.AckStatus | drivers/rc522/MFRC522.c:830-845 | a time-out is success only when accepted; otherwise success needs exactly one 4-bit answer equal to 0xA; any other 4-bit nibble is STATUS_MIFARE_NACK, other answers are STATUS_ERROR, and failures pass through |
| Mfrc522.MifareTransceive | drivers/rc522/MFRC522.c:806-846 | more than 16 bytes, or no data, is STATUS_INVALID with nothing sent; otherwise the data and its CRC_A are sent and the status is AckStatus |
| Mfrc522.WithCrc | drivers/rc522/MFRC522.c:819-824 | the command buffer holds the data followed by its CRC_A |
| Mfrc522Select.CollisionPosition | drivers/rc522/MFRC522.c:601-604 | CollPos is decoded to 1..32, with 0 standing for 32 |
| Mfrc522Select.SelectWithCrc | drivers/rc522/MFRC522.c:561-575 | the SELECT has NVB 0x70, a BCC that zeroes the XOR of bytes 2..6, and CRC_A over bytes 0..6 in bytes 7..8 |
| Mfrc522Select.Framed | drivers/rc522/MFRC522.c:561-586 | the frame of a pass keeps SEL |
| Mfrc522Select.TxLastBits | drivers/rc522/MFRC522.c:561-586 | the valid bits of the last byte sent, which is also the receive alignment, are a 3-bit value |
| Mfrc522Select.SendLength | drivers/rc522/MFRC522.c:561-586 | between 2 and 9 bytes are sent: 9 for a SELECT |
| Mfrc522Select.InnerPass | drivers/rc522/MFRC522.c:558-626 | as in cards/picc.c, but CollReg bit 0x20 is STATUS_COLLISION, a position at or below the known bits is STATUS_INTERNAL_ERROR, and otherwise the decoded bit is forced; known bits strictly increase |
| Mfrc522Select.SakChecked | drivers/rc522/MFRC522.c:641-649 | the CRC_A of the SAK is stored in bytes 2..3 and nothing else changes |
| Mfrc522Select.StoreSakCrc | drivers/rc522/MFRC522.c:641-645 | computes SakChecked in place |
| Mfrc522Select.PrepareFrame | drivers/rc522/MFRC522.c:561-591 | SELECT: 9 bytes with CRC_A, answer at 6; ANTICOLLISION: NVB and bytes up to the partial one, answer at 2 + known/8; rxAlign equals txLastBits |
| Mfrc522Select.SendFrame | drivers/rc522/MFRC522.c:561-595 | framing and transceive move the state to `Sent`, and report the answer's status, length and valid bits |
| Mfrc522Select.ResolveCollision | drivers/rc522/MFRC522.c:596-613 | CollPosNotValid is STATUS_COLLISION, a position at or below the known bits is STATUS_INTERNAL_ERROR, and otherwise only the colliding bit is set |
| Mfrc522Select.ExchangeFrame | drivers/rc522/MFRC522.c:559-625 | the loop body gives the outcome `InnerPass` specifies |
| Mfrc522Select.RunExchanges | drivers/rc522/MFRC522.c:558-626 | the inner loop agrees with `Exchange` |
| Mfrc522Select.FinishLevel | drivers/rc522/MFRC522.c:628-657 | the UID bytes are stored; not 24 bits with 0 trailing bits is STATUS_ERROR; a wrong CRC_A of the SAK is STATUS_CRC_WRONG; both come before the cascade bit is read |
| Mfrc522Select.SearchLevel | drivers/rc522/MFRC522.c:507-626 | the level set-up and the inner loop agree with `CascadeLevel` |
| Mfrc522Select.RunLevel | drivers/rc522/MFRC522.c:505-657 | one pass of the outer loop agrees with `CascadeLevel` |
| Mfrc522Select.Select | drivers/rc522/MFRC522.c:453-662 | PICC_Select's status, UID, size, SAK, commands and rounds consumed are those of `SelectSpec` |
| Mfrc522Properties.CommandIsWellFormed | drivers/rc522/MFRC522.c:561-591 | every command is a well-formed ANTICOLLISION, or a 9-byte SELECT with BCC and CRC_A, framed with rxAlign equal to txLastBits |
| Mfrc522Properties.ExchangeFollows | drivers/rc522/MFRC522.c:558-626 | the inner loop starts at most 33 - known commands, all well-formed, one round each |
| Mfrc522Properties.CompleteLevelFollows | drivers/rc522/MFRC522.c:628-657 | level completion ends or goes on within the remaining budget |
| Mfrc522Properties.CascadeLevelFollows | drivers/rc522/MFRC522.c:505-529 | from any level, at most 33 commands per remaining level |
| Mfrc522Properties.SelectFollows | drivers/rc522/MFRC522.c:453-662 | PICC_Select starts only well-formed commands, at most 99, one round each, and succeeds only with a 4-, 7- or 10-byte UID and a final SAK without the cascade bit |
| Mfrc522Properties.LoneSingleSizeCard | drivers/rc522/MFRC522.c:453-662 | a lone 4-byte-UID card is selected with `93 20` then `93 70 uid BCC CRC_A`; the SAK is accepted exactly when the two bytes after it are its CRC_A |
| Mfrc522Properties.LoneCardExchanges | drivers/rc522/MFRC522.c:558-626 | the lone card's level 1 takes exactly those two commands and leaves the SAK and its CRC in bytes 6..8 |
| Mfrc522Properties.LoneCardAnticollision | drivers/rc522/MFRC522.c:576-625 | the lone card's answer to `93 20` fills bytes 2..6 and the next pass is a SELECT |
| Mfrc522Properties.LoneCardSelected | drivers/rc522/MFRC522.c:561-625 | the lone card's SELECT carries SEL, 0x70, the UID, BCC and CRC_A, and its answer lands in bytes 6..8 |
| Mfrc522Properties.SakAccepted | drivers/rc522/MFRC522.c:638-657 | at the end of level 1, a SAK without the cascade bit is accepted exactly when its CRC_A matches, and then the size is 4 |
| Mfrc522Properties.SelectSent | drivers/rc522/MFRC522.c:561-575 | a SELECT sends SEL, 0x70, bytes 2..5, their BCC, and the CRC_A of those seven bytes |
| Mfrc522Properties.AnticollisionAnswered | drivers/rc522/MFRC522.c:576-625 | a 5-byte answer to the first ANTICOLLISION moves the loop to a SELECT |
| Mfrc522Properties.SelectAnswered | drivers/rc522/MFRC522.c:561-625 | a 3-byte answer to a SELECT ends the loop with the answer in bytes 6..8 |
| Mifare.LeValue | cards/mifare.c:236-237 | four bytes read as a little-endian int32_t: byte 0 is the low byte and byte 3 the high one |
| Mifare.LeBytes | cards/mifare.c:257-260 | the four little-endian bytes of a value decode back to it |
| Mifare.LeBytesOfValue | cards/mifare.c:233-239 | decoding then encoding gives the same four bytes, so the GetValue decode inverts the SetValue layout |
| Mifare.BlockValue | cards/mifare.c:236-237 | a block's value is the little-endian reading of its bytes 0..3 |
| Mifare.Block | cards/mifare.c:257-268 | a value block is value, complement, value, then address, ~address, address, ~address |
| Mifare.ValueBlock | cards/mifare.c:257-268 | SetValue's block is a well-formed value block, it reads back as the value, and it carries the address |
| Mifare.ValueBlockOfValue | cards/mifare.c:253-272 | every well-formed value block is SetValue's block for its own value and address |
| Mifare.ValueBlockBytes | cards/mifare.c:257-265 | in a value block, bytes 4..7 complement bytes 0..3, and bytes 8..11 repeat them |
| Mifare.C1 | cards/mifare.c:284-285 | bit i of C1 is bit 2 of group i |
| Mifare.C2 | cards/mifare.c:286-287 | bit i of C2 is bit 1 of group i |
| Mifare.C3 | cards/mifare.c:288-289 | bit i of C3 is bit 0 of group i |
| Mifare.AccessBytes | cards/mifare.c:291-293 | the three access bytes are consistent: each nibble appears once plain and once complemented |
| Mifare.AccessBitsRoundTrip | cards/mifare.c:284-293 | decoding the three access bytes gives back each group's three low bits |
| Mifare.SetAccessBits | cards/mifare.c:278-294 | writes exactly AccessBytes into bytes 0..2 and nothing else |
| Mifare.UidBlock | cards/mifare.c:452-459 | block 0 gets the new UID, then its XOR as BCC, then the rest of the block as read |
| Mifare.UidBlockChecks | cards/mifare.c:452-459 | the UID and BCC of the new block 0 XOR to zero |
| Mifare.BccCancels | cards/mifare.c:452-459 | the XOR of bytes with their own XOR appended is zero |
| Mifare.PrepareUidBlock | cards/mifare.c:452-459 | SetUid's argument check (a null UID, size 0 or size > 15 is refused, line 386) and its copy loop build UidBlock; a refused call leaves the block alone |
| Mifare.Framed | drivers/rc522/MFRC522.c:819-824 | a MIFARE command is sent with its CRC_A and no bit framing |
| Mifare.ReadCommand | cards/mifare.c:39-45 | READ is [0x30, address] with its CRC_A |
| Mifare.Read | cards/mifare.c:27-49 | a missing or shorter-than-18 buffer is STATUS_NO_ROOM with nothing sent; otherwise READ with CRC_A, and the answer is read back, CRC-checked, over the command |
| Mifare.TwoStep | cards/mifare.c:170-192 | the second step is sent only when the first is acknowledged; success needs both |
| Mifare.SilentSecondStep | cards/mifare.c:185-186 | an unanswered second step is success for INCREMENT/DECREMENT/RESTORE, which accept a time-out, and a time-out for WRITE |
| Mifare.Command2 | cards/mifare.c:75-77 | the two-byte command is [code, address] |
| Mifare.Write | cards/mifare.c:62-90 | fewer than 16 bytes is STATUS_INVALID with nothing sent; 16 bytes are WRITE then data, each acknowledged; more than 16 fails only after WRITE was acknowledged |
| Mifare.PageCommand | cards/mifare.c:109-112 | the Ultralight command is [0xA2, page, data[0..3]] |
| Mifare.UltralightWrite | cards/mifare.c:97-120 | fewer than 4 bytes is STATUS_INVALID with nothing sent; otherwise one acknowledged command |
| Mifare.TwoStepHelper | cards/mifare.c:170-192 | [cmd, address], then the four bytes of `data` with a time-out accepted, as TwoStep |
| Mifare.Decrement | cards/mifare.c:130-134 | a two-step DECREMENT 0xC0 with the delta |
| Mifare.Increment | cards/mifare.c:144-148 | a two-step INCREMENT 0xC1 with the delta |
| Mifare.Restore | cards/mifare.c:158-163 | a two-step RESTORE 0xC2 with 0 as data |
| Mifare.Transfer | cards/mifare.c:201-214 | one acknowledged TRANSFER 0xB0 with the address |
| Mifare.ReadBack | cards/mifare.c:229-237 | the four bytes decoded after a READ: the answer's first four, or the command bytes where the answer is shorter |
| Mifare.GetValueSpec | cards/mifare.c:227-240 | the status is READ's; a value is produced exactly when it is STATUS_OK |
| Mifare.GetValueOfValueBlock | cards/mifare.c:227-240 | reading a block SetValue wrote, with a correct CRC_A, gives STATUS_OK and that value |
| Mifare.GetValue | cards/mifare.c:227-240 | one READ of 18 bytes, and the status and value of GetValueSpec |
| Mifare.ValueBuffer | cards/mifare.c:254-268 | the 18-byte buffer starts with SetValue's value block |
| Mifare.StoreValueBlock | cards/mifare.c:257-268 | the byte stores lay out the value block |
| Mifare.SetValue | cards/mifare.c:253-272 | the value block is written with the two-step WRITE |
| Pn53x.Len | drivers/pn53x.c:34 | LEN is the payload length + 1, since TFI is counted |
| Pn53x.Header | drivers/pn53x.c:32-35 | the header is the start code 00 FF, LEN, and LCS with (LEN + LCS) mod 256 = 0, followed by TFI 0xD4 |
| Pn53x.Frame | drivers/pn53x.c:29-42 | the frame is len + 6 bytes with the payload copied verbatim after TFI |
| Pn53x.Unframe | drivers/pn53x.c:29-42 | a reference parser: it accepts only the start code, a matching LEN and LCS, TFI, and a DCS that zeroes the sum |
| Pn53x.UnframeChecksums | drivers/pn53x.c:34-42 | an accepted frame has (LEN + LCS) mod 256 = 0 and (TFI + Σ data + DCS) mod 256 = 0 |
| Pn53x.UnframeFrame | drivers/pn53x.c:29-42 | parsing a built frame gives the payload back |
| Pn53x.FrameUnframe | drivers/pn53x.c:29-42 | building the parsed payload gives the frame back |
| Pn53x.BuildFrame | drivers/pn53x.c:31-42 | the request's first len + 6 bytes are Frame of the data |
| Pn53x.WriteHeader | drivers/pn53x.c:32-35 | the field stores write Header |
| Pn53x.DataChecksum | drivers/pn53x.c:37-40 | the `dcs` loop sums TFI and the data modulo 256 |
| Pn53x.CopyData | drivers/pn53x.c:41 | the memcpy writes the payload at byte 5 and nothing else |
| Pn53x.Delivered | drivers/pn53x.c:17 | a bus read fills the buffer with what was received, as far as it goes |
| Pn53x.Bus.Send | drivers/pn53x.c:46 | a write records its bytes and returns the next scripted result |
| Pn53x.Bus.Recv | drivers/pn53x.c:17 | a read delivers the next scripted reception |
| Pn53x.PollFrom | drivers/pn53x.c:16-21 | a poll makes 1 to 25 reads and ends with 0 or -1 |
| Pn53x.PollSucceedsOnReady | drivers/pn53x.c:16-22 | a poll that returns 0 holds a frame whose data-ready byte is set |
| Pn53x.PollGivesUp | drivers/pn53x.c:18-20 | a poll returns -1 exactly when it made 25 reads, even when the 25th read was good |
| Pn53x.NeverReady | drivers/pn53x.c:16-21 | with no good read among the 25, the poll gives up after all of them |
| Pn53x.PollFor | drivers/pn53x.c:55-62 | the retry loop makes the reads and returns the result of PollFrom |
| Pn53x.AckPoll | drivers/pn53x.c:13-21 | the ACK poll reads 6-byte ACK frames into a zeroed buffer |
| Pn53x.ResponsePoll | drivers/pn53x.c:54-62 | the response poll reads whole response frames into a zeroed buffer |
| Pn53x.RecvAck | drivers/pn53x.c:12-25 | pn53x_recv_ack returns the ACK poll's result, and writes `acknack` (ACK word is 0xFF00) only when it succeeds |
| Pn53x.AfterWrite | drivers/pn53x.c:49-67 | after the write, success needs a heard ACK and a ready response, within 50 reads |
| Pn53x.ResponseReady | drivers/pn53x.c:56-63 | a successful exchange hands over a response whose data-ready byte is set |
| Pn53x.AfterWriteAsWritten | drivers/pn53x.c:49-67 | the same exchange as the source has it, with the result of pn53x_recv_ack dropped |
| Pn53x.AsWrittenAgreesWhenAckHeard | drivers/pn53x.c:49-52 | the two agree whenever the ACK poll succeeded |
| Pn53x.LostAckAccepted | drivers/pn53x.c:49-52 | a chip that never acknowledges but then offers a response is accepted as written and refused by AfterWrite |
| Pn53x.WriteFrame | drivers/pn53x.c:44-47 | on I2C the frame is written; any other transport gives -1 with nothing written |
| Pn53x.AwaitResponse | drivers/pn53x.c:54-63 | the response buffer is zeroed and polled |
| Pn53x.Converse | drivers/pn53x.c:49-67 | the exchange after the write, as AfterWrite |
| Pn53x.SendFrame | drivers/pn53x.c:29-75 | the corrected pn53x_send_frame: a non-I2C transport gives -1, a failed write passes its result on, and otherwise it behaves as AfterWrite |
| Pn53x.ConverseAsWritten | drivers/pn53x.c:49-67 | the exchange after the write, as AfterWriteAsWritten |
| Pn53x.SendFrameAsWritten | drivers/pn53x.c:29-75 | pn53x_send_frame as written, as AfterWriteAsWritten |
| Rc52x.MiCode | drivers/rc52x.c:46-48 | MI_OK is 0, MI_NOTAGERR 1 and MI_ERR 2 |
| Rc52x.IrqFor | drivers/rc52x.c:61-74 | irqEn/waitIRq is 0x12/0x10 for MFAuthent, 0x77/0x30 for Transceive and 0/0 otherwise; only Transceive enables the timer IRQ |
| Rc52x.PollFrom | drivers/rc52x.c:91-98 | the do-while loop stops on the timer bit, a waitIRq bit, or when its counter reaches 0 |
| Rc52x.PollStopsAtFirstEvent | drivers/rc52x.c:92-98 | the loop stops at the first read showing the timer bit or a waitIRq bit |
| Rc52x.PollExhausted | drivers/rc52x.c:91-102 | with no event before the last read, the counter reaches 0 |
| Rc52x.BitLength | drivers/rc52x.c:115 | the length is (n-1)·8 + lastBits if lastBits ≠ 0, else n·8, in 16 bits |
| Rc52x.Clamp | drivers/rc52x.c:116-117 | the FIFO read count is clamped to 1..16 |
| Rc52x.FifoRead | drivers/rc52x.c:119 | the FIFO read delivers the scripted FIFO bytes |
| Rc52x.ToCardSpec | drivers/rc52x.c:51-125 | MI_OK exactly when the poll ended with the counter above 0, ErrorReg&0x1B is clear, and no enabled timer IRQ fired; MI_NOTAGERR only for Transceive; a bit length only for an error-free Transceive |
| Rc52x.EventOnLastReadIsLost | drivers/rc52x.c:91-102 | an event seen only on the 2000th read still gives MI_ERR |
| Rc52x.TransceiveAnswered | drivers/rc52x.c:102-121 | an RxIRq before the last read with no error gives MI_OK, the bit length and the FIFO bytes |
| Rc52x.Chip.ToCard | drivers/rc52x.c:51-125 | the command is logged, one round consumed, and status, length and data are ToCardSpec's |
| Rc52x.Poll | drivers/rc52x.c:91-98 | the loop gives PollFrom's last read and counter |
| Rc52x.Recv | drivers/rc52x.c:119 | the bytes are written over the front of backData |
| Rc52x.AnticolSpec | drivers/rc52x.c:127-153 | MI_OK needs a MI_OK REQA answer of exactly 16 bits, a MI_OK anticollision, and serNum[0]^..^serNum[3] == serNum[4]; a bad REQA stops after one command |
| Rc52x.BccDecides | drivers/rc52x.c:144-151 | once both exchanges succeed, the outcome is decided by the BCC of the bytes read |
| Rc52x.Anticollide | drivers/rc52x.c:127-153 | rc52x_anticol's status, serNum and commands are AnticolSpec's |
| Rc52x.Request | drivers/rc52x.c:136-141 | the REQA half succeeds exactly on MI_OK with 16 bits |
| Rc52x.AskSerial | drivers/rc52x.c:143-151 | the SEL_CL1 0x20 half is demoted to MI_ERR on a wrong BCC |
| Rc52x.Bcc | drivers/rc52x.c:149 | the loop computes the XOR of serNum[0..3] |
| Rc66x.TxDataNum | drivers/rc66x.c:142 | TxDataNum is 0x08 \| txLastBits |
| Rc66x.RxBitCtrl | drivers/rc66x.c:143 | RxBitCtrl is 0x80 with rxAlign&7 in bits 6..4 |
| Rc66x.CrcPreset | drivers/rc66x.c:145-146 | the CRC preset is 0x19 when the CRC is on, else 0 |
| Rc66x.WaitCompleted | drivers/rc66x.c:156-170 | the wait completes exactly when some IRQ0 read shows a waitIRq bit before the IRQ1 timer bit and within 2000 polls |
| Rc66x.Communicate | drivers/rc66x.c:122-232 | the status order is time-out, then Error&0x63, then FIFO over capacity, then Error&0x04 collision after the data is returned, then with recvCRC NAK / short; STATUS_OK exactly when none applies |
| Rc66x.CrcValueIgnored | drivers/rc66x.c:214-228 | the CRC bytes of the answer never change the outcome |
| Rc66x.CollisionWithoutPosition | drivers/rc66x.c:200-202 | a completed command with only CollErr set is STATUS_COLLISION; RC66X_TransceiveData returns it without any collision position |
| Rc66x.Chip.CommunicateWithPICC | drivers/rc66x.c:122-232 | the register set-up is logged, one round consumed, and the out-values are Communicate's |
| Rc66x.Chip.TransceiveData | drivers/rc66x.c:101-114 | Transceive with waitIRq 0x16; collpos is never written |
| Rc66x.WaitForCommand | drivers/rc66x.c:155-170 | the loop completes exactly when WaitFrom does |
| Rc66x.Collect | drivers/rc66x.c:172-231 | after completion, the checks give Communicate's outcome |
| Rc66x.Recv | drivers/rc66x.c:190 | the FIFO bytes go to the front of backData |

## Left out

- Transports and bus plumbing are not modelled. Every register, FIFO and bus
  access is a scripted value. This covers drivers/rc52x_transport.c,
  drivers/rc66x_transport.c, drivers/mfrc522_transport.c, drivers/thm3060.c,
  drivers/pn5180.c, and the register writes that only flush the FIFO, clear
  interrupts or set StartSend.
- Mfrc522.RequestOrWakeup and Mfrc522Select.Select: the write that sets
  ValuesAfterColl in CollReg is not logged
  (drivers/rc522/MFRC522.c:423 and 501). The model assumes that setting: bits
  received after a collision come back cleared.
- Chip bring-up is not modelled: PCD_Init, PCD_Reset, antenna and gain control,
  the self test, RC66X_Init/Reset, rc52x_init and the PN53x firmware-version
  query. These are fixed register sequences with delays.
- CrcA: the CRC coprocessor's poll loop (PCD_CalculateCRC) and its time-out are
  not modelled. CRC_A is computed directly as the function of ISO/IEC 14443-3
  section 6.2.4, so the CRC step never fails.
- Real time is not modelled. The microsecond loop timings and millisecond
  time-outs become bounded loops over scripted reads.
- picc_anticol_iso14443a and picc_reqa in cards/picc.c are not modelled. The
  first is an unfinished multi-card enumeration; the second duplicates
  PICC_RequestA.
- PICC_RATS, PICC_APDU, MIFARE_GET_VERSION and DESFIRE_GET_VERSION are not
  modelled. They are thin wrappers around one transceive.
- The PICC_RequestA and PICC_WakeupA of drivers/rc522/MFRC522.c have no members
  of their own. Each is a one-line call of Mfrc522.RequestOrWakeup with REQA or
  WUPA.
- MIFARE_OpenUidBackdoor, MIFARE_UnbrickUidSector and the authenticate/read/write
  orchestration of MIFARE_SetUid are not modelled. They are magic sequences with
  Serial logging; only the block 0 that SetUid writes is modelled.
- cards/ntag.c and ndef.c are not part of this model.
- Serial logging is not modelled.
- C bitfield and packed-struct layout is not modelled; frames are byte sequences.
- Mifare.GetValue: when READ fails, `*value` is left unwritten; the model returns
  None. Where a shorter answer leaves part of the buffer uninitialised, the model
  decodes the bytes the command left there (Mifare.ReadBack). The `int32_t` is
  modelled as its 32-bit pattern.
- Mifare.TwoStepHelper, Mifare.Decrement and Mifare.Increment: the source sends
  the four bytes of `int32_t data` in memory order (cards/mifare.c:186). The
  model sends them little-endian, so it assumes a little-endian host. On a
  big-endian host the operand bytes would be reversed.
- Picc.Select and Mfrc522Select.Select: the uninitialised stack frame buffer is a
  parameter. The transport is given the precondition that a collision position
  lies in 1..32, since cards/picc.c never checks it. A reader that leaves the
  position unwritten breaks this precondition; that case is the second row under
  "## Findings".
- PiccMifare.Write: the uninitialised one-byte answer buffer of MFU_Write is
  modelled as 0. It is read only after an answer was stored in it.

## Findings

| source | as written | input that shows it | evidently intended | confidence | as-written member | corrected member |
|---|---|---|---|---|---|---|
| drivers/pn53x.c:50-52 | the result of pn53x_recv_ack is ignored; when the ACK poll gives up, `acknack` was never written and holds a stale stack value | 25 reads with no data-ready byte during the ACK poll, a stale `acknack` of true, then a ready response: pn53x_send_frame returns 0 without any ACK | a lost ACK fails the exchange with -1 | not executed | Pn53x.LostAckAccepted | Pn53x.SendFrame |
| cards/picc.c:359-374 | `collisionPos` is an uninitialised local; RC66X_TransceiveData (drivers/rc66x.c:101-114) never writes its `collpos`, yet RC66X_CommunicateWithPICC returns STATUS_COLLISION on CollErr (drivers/rc66x.c:200-202) | on an RC663, a colliding answer with a stale `collisionPos` of 57..255 passes the check at line 366, and `buffer[index] \|= …` writes at index 9..33 of the 9-byte frame buffer | every reader reports a collision position in 1..32, so the forced bit lands in UID bytes 2..5 of the frame | not executed | Picc.StaleCollisionPositionOverruns | Iso14443a.ForceCollisionBit |

The field names `uid`, `uid_size` and `sak` are those that cards/picc.c uses.
The `picc_t` declared in cards/picc.h:26-41 still names them `uidByte` and
`size`.
