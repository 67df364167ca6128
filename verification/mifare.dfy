/**
 * The MIFARE Classic and Ultralight layer of cards/mifare.c, on top of the
 * MFRC522 driver: READ, the two-step WRITE, the Ultralight page write,
 * INCREMENT / DECREMENT / RESTORE / TRANSFER, the value-block encoder and
 * decoder, the access-bit encoder and the block 0 that MIFARE_SetUid
 * writes.
 */
module Mifare {
  import opened Pdc
  import opened Iso14443a
  import opened Mfrc522

  /** The MIFARE command codes. */
  const MF_READ: byte := 0x30
  const MF_WRITE: byte := 0xA0
  const MF_DECREMENT: byte := 0xC0
  const MF_INCREMENT: byte := 0xC1
  const MF_RESTORE: byte := 0xC2
  const MF_TRANSFER: byte := 0xB0
  const UL_WRITE: byte := 0xA2

  /** A data block, and the room MIFARE_Read needs for a block and its CRC_A. */
  const BLOCK_SIZE: nat := 16
  const READ_SIZE: nat := 18

  // ------------------------------------------------------------ int32_t values

  /** An `int32_t`, as its two's-complement bit pattern. */
  type int32 = bv32

  /** Four bytes read as a little-endian `int32_t` (the shifts and ORs of MIFARE_GetValue). */
  function LeValue(b: seq<byte>): (v: int32)
    requires |b| == 4
    ensures v & 0xFF == b[0] as int32 && v >> 24 == b[3] as int32
  {
    (b[3] as int32 << 24) | (b[2] as int32 << 16) | (b[1] as int32 << 8) | b[0] as int32
  }

  /** The four little-endian bytes of an `int32_t` (the masks and shifts of MIFARE_SetValue). */
  function LeBytes(v: int32): (b: seq<byte>)
    ensures |b| == 4 && LeValue(b) == v
  {
    [(v & 0xFF) as byte, ((v & 0xFF00) >> 8) as byte, ((v & 0xFF_0000) >> 16) as byte, ((v & 0xFF00_0000) >> 24) as byte]
  }

  /** Every four bytes are the little-endian image of the value they encode. */
  lemma {:induction false} LeBytesOfValue(b: seq<byte>)
    requires |b| == 4
    ensures LeBytes(LeValue(b)) == b
  {
  }

  // -------------------------------------------------------------- value blocks

  /**
   * The layout of a MIFARE Classic value block: the value, its complement
   * and the value again in bytes 0..11; the address, its complement, the
   * address and its complement in bytes 12..15.
   */
  predicate IsValueBlock(b: seq<byte>)
  {
    |b| == BLOCK_SIZE
    && b[8..12] == b[..4]
    && b[4..8] == [!b[0], !b[1], !b[2], !b[3]]
    && b[14] == b[12] && b[13] == !b[12] && b[15] == !b[12]
  }

  /** The value a value block holds. */
  function BlockValue(b: seq<byte>): (v: int32)
    requires |b| >= 4
    ensures v & 0xFF == b[0] as int32
  {
    LeValue(b[..4])
  }

  /** Value bytes `v` and address `a` in value-block order. */
  function Block(v: seq<byte>, a: byte): (b: seq<byte>)
    requires |v| == 4
    ensures |b| == BLOCK_SIZE
    ensures b[..4] == v && b[4..8] == [!v[0], !v[1], !v[2], !v[3]] && b[8..12] == v
    ensures b[12] == a && b[13] == !a && b[14] == a && b[15] == !a
  {
    v + [!v[0], !v[1], !v[2], !v[3]] + v + [a, !a, a, !a]
  }

  /** The 16 bytes MIFARE_SetValue writes for `value` at `blockAddr`. */
  function ValueBlock(value: int32, blockAddr: byte): (b: seq<byte>)
    ensures IsValueBlock(b)
    ensures BlockValue(b) == value
    ensures b[12] == blockAddr
  {
    var v := LeBytes(value);
    Block(v, blockAddr)
  }

  /** A value block is determined by its value and its address: the encoder is onto. */
  lemma {:induction false} ValueBlockOfValue(b: seq<byte>)
    requires IsValueBlock(b)
    ensures ValueBlock(BlockValue(b), b[12]) == b
  {
    LeBytesOfValue(b[..4]);
    ValueBlockBytes(b);
    Layout(b, b[..4], b[12]);
  }

  /** The byte-by-byte reading of `IsValueBlock`. */
  lemma {:induction false} ValueBlockBytes(b: seq<byte>)
    requires IsValueBlock(b)
    ensures b[4] == !b[0] && b[5] == !b[1] && b[6] == !b[2] && b[7] == !b[3]
    ensures b[8] == b[0] && b[9] == b[1] && b[10] == b[2] && b[11] == b[3]
  {
    assert b[4..8][0] == b[4] && b[4..8][1] == b[5] && b[4..8][2] == b[6] && b[4..8][3] == b[7];
    assert b[8..12][0] == b[8] && b[8..12][1] == b[9] && b[8..12][2] == b[10] && b[8..12][3] == b[11];
    assert b[..4][0] == b[0] && b[..4][1] == b[1] && b[..4][2] == b[2] && b[..4][3] == b[3];
  }

  /** Sixteen bytes laid out byte by byte as a value block for `v` and `a`. */
  lemma {:induction false} Layout(b: seq<byte>, v: seq<byte>, a: byte)
    requires |b| == 16 && |v| == 4
    requires b[0] == v[0] && b[1] == v[1] && b[2] == v[2] && b[3] == v[3]
    requires b[4] == !b[0] && b[5] == !b[1] && b[6] == !b[2] && b[7] == !b[3]
    requires b[8] == v[0] && b[9] == v[1] && b[10] == v[2] && b[11] == v[3]
    requires b[12] == a && b[13] == !a && b[14] == a && b[15] == !a
    ensures b == Block(v, a)
  {
  }

  // -------------------------------------------------------------- access bits

  /** Bit `i` of a nibble `x`, as 0 or 1. */
  function BitOf(x: byte, i: nat): (d: byte)
    requires i < 4
    ensures d <= 1
  {
    (if i == 0 then x else if i == 1 then x >> 1 else if i == 2 then x >> 2 else x >> 3) & 1
  }

  /** C1, C2 and C3 as MIFARE_SetAccessBits computes them: bit `i` of each comes from group `g_i`. */
  function C1(g0: byte, g1: byte, g2: byte, g3: byte): (c: byte)
    ensures c < 0x10
    ensures BitOf(c, 0) == BitOf(g0, 2) && BitOf(c, 1) == BitOf(g1, 2)
            && BitOf(c, 2) == BitOf(g2, 2) && BitOf(c, 3) == BitOf(g3, 2)
  {
    ((g3 & 4) << 1) | (g2 & 4) | ((g1 & 4) >> 1) | ((g0 & 4) >> 2)
  }

  function C2(g0: byte, g1: byte, g2: byte, g3: byte): (c: byte)
    ensures c < 0x10
    ensures BitOf(c, 0) == BitOf(g0, 1) && BitOf(c, 1) == BitOf(g1, 1)
            && BitOf(c, 2) == BitOf(g2, 1) && BitOf(c, 3) == BitOf(g3, 1)
  {
    ((g3 & 2) << 2) | ((g2 & 2) << 1) | (g1 & 2) | ((g0 & 2) >> 1)
  }

  function C3(g0: byte, g1: byte, g2: byte, g3: byte): (c: byte)
    ensures c < 0x10
    ensures BitOf(c, 0) == BitOf(g0, 0) && BitOf(c, 1) == BitOf(g1, 0)
            && BitOf(c, 2) == BitOf(g2, 0) && BitOf(c, 3) == BitOf(g3, 0)
  {
    ((g3 & 1) << 3) | ((g2 & 1) << 2) | ((g1 & 1) << 1) | (g0 & 1)
  }

  /**
   * Bytes 6..8 of a sector trailer are consistent: each of C1, C2, C3 is
   * stored once plain and once complemented.
   */
  predicate AccessConsistent(b: seq<byte>)
    requires |b| == 3
  {
    b[0] & 0x0F == !(b[1] >> 4) & 0x0F
    && b[0] >> 4 == !b[2] & 0x0F
    && b[1] & 0x0F == !(b[2] >> 4) & 0x0F
  }

  /** The access conditions [C1 C2 C3] of group `i` read back from trailer bytes 6..8. */
  function AccessGroup(b: seq<byte>, i: nat): (g: byte)
    requires |b| == 3 && i < 4
    ensures g < 8
  {
    Condition(BitOf(b[1] >> 4, i), BitOf(b[2] & 0x0F, i), BitOf(b[2] >> 4, i))
  }

  /** The three-bit access condition [C1 C2 C3] with these bits. */
  function Condition(c1: byte, c2: byte, c3: byte): (g: byte)
    requires c1 <= 1 && c2 <= 1 && c3 <= 1
    ensures g < 8
  {
    (c1 << 2) | (c2 << 1) | c3
  }

  /** The three bytes MIFARE_SetAccessBits stores. */
  function AccessBytes(g0: byte, g1: byte, g2: byte, g3: byte): (b: seq<byte>)
    ensures |b| == 3 && AccessConsistent(b)
  {
    var c1 := C1(g0, g1, g2, g3);
    var c2 := C2(g0, g1, g2, g3);
    var c3 := C3(g0, g1, g2, g3);
    [((!c2 & 0x0F) << 4) | (!c1 & 0x0F), (c1 << 4) | (!c3 & 0x0F), (c3 << 4) | c2]
  }

  /** Decoding the stored bytes gives back each group's three low bits. */
  lemma {:induction false} AccessBitsRoundTrip(g0: byte, g1: byte, g2: byte, g3: byte)
    ensures var b := AccessBytes(g0, g1, g2, g3);
            AccessGroup(b, 0) == g0 & 7 && AccessGroup(b, 1) == g1 & 7
            && AccessGroup(b, 2) == g2 & 7 && AccessGroup(b, 3) == g3 & 7
  {
    var c1 := C1(g0, g1, g2, g3);
    var c2 := C2(g0, g1, g2, g3);
    var c3 := C3(g0, g1, g2, g3);
    var b := AccessBytes(g0, g1, g2, g3);
    assert b[1] >> 4 == c1 && b[2] & 0x0F == c2 && b[2] >> 4 == c3 by {
      Nibbles(c1, c2, c3);
    }
    GroupBack(b, 0, g0, c1, c2, c3);
    GroupBack(b, 1, g1, c1, c2, c3);
    GroupBack(b, 2, g2, c1, c2, c3);
    GroupBack(b, 3, g3, c1, c2, c3);
  }

  /** Group `i` read back from bytes holding nibbles C1, C2, C3 whose bit `i` copies `g`. */
  lemma {:induction false} GroupBack(b: seq<byte>, i: nat, g: byte, c1: byte, c2: byte, c3: byte)
    requires |b| == 3 && i < 4
    requires b[1] >> 4 == c1 && b[2] & 0x0F == c2 && b[2] >> 4 == c3
    requires BitOf(c1, i) == BitOf(g, 2) && BitOf(c2, i) == BitOf(g, 1) && BitOf(c3, i) == BitOf(g, 0)
    ensures AccessGroup(b, i) == g & 7
  {
    ConditionOf(g);
  }

  /** Where AccessBytes puts the three nibbles. */
  lemma {:induction false} Nibbles(c1: byte, c2: byte, c3: byte)
    requires c1 < 0x10 && c2 < 0x10 && c3 < 0x10
    ensures ((c1 << 4) | (!c3 & 0x0F)) >> 4 == c1
    ensures ((c3 << 4) | c2) & 0x0F == c2 && ((c3 << 4) | c2) >> 4 == c3
  {
  }

  /** A group's condition is made of its own three low bits. */
  lemma {:induction false} ConditionOf(g: byte)
    ensures Condition(BitOf(g, 2), BitOf(g, 1), BitOf(g, 0)) == g & 7
  {
  }

  /** MIFARE_SetAccessBits: store the three bytes at the front of `accessBitBuffer`. */
  method SetAccessBits(accessBitBuffer: array<byte>, g0: byte, g1: byte, g2: byte, g3: byte)
    requires accessBitBuffer.Length >= 3
    modifies accessBitBuffer
    ensures accessBitBuffer[..3] == AccessBytes(g0, g1, g2, g3)
    ensures accessBitBuffer[3..] == old(accessBitBuffer[3..])
  {
    var b := AccessBytes(g0, g1, g2, g3);
    accessBitBuffer[0] := b[0];
    accessBitBuffer[1] := b[1];
    accessBitBuffer[2] := b[2];
  }

  // -------------------------------------------------------------- block 0 / UID

  /** The arguments MIFARE_SetUid accepts: a UID buffer of 1 to 15 bytes, so UID and BCC fit a block. */
  predicate UidArgsValid(present: bool, uidSize: nat)
  {
    present && 0 < uidSize <= 15
  }

  /** Block 0 with the new UID and its BCC written over the front of the block read. */
  function UidBlock(block0: seq<byte>, newUid: seq<byte>): (b: seq<byte>)
    requires 0 < |newUid| < |block0|
    ensures |b| == |block0| && b[..|newUid|] == newUid && b[|newUid| + 1..] == block0[|newUid| + 1..]
    ensures b[|newUid|] == Xor(newUid)
  {
    newUid + [Xor(newUid)] + block0[|newUid| + 1..]
  }

  /** The XOR of a sequence with its own XOR appended is 0: a UID and its BCC check out. */
  lemma {:induction false} BccCancels(s: seq<byte>)
    ensures Xor(s + [Xor(s)]) == 0
  {
    assert (s + [Xor(s)])[..|s|] == s;
  }

  /** The UID bytes and the BCC of the new block 0 XOR to zero. */
  lemma {:induction false} UidBlockChecks(block0: seq<byte>, newUid: seq<byte>)
    requires 0 < |newUid| < |block0|
    ensures Xor(UidBlock(block0, newUid)[..|newUid| + 1]) == 0
  {
    assert UidBlock(block0, newUid)[..|newUid| + 1] == newUid + [Xor(newUid)];
    BccCancels(newUid);
  }

  /**
   * The size check of MIFARE_SetUid and the loop that copies the new UID
   * into the block-0 buffer while accumulating the BCC.  `ok` is false where
   * the source returns false before touching the card.
   */
  method PrepareUidBlock(newUid: array?<byte>, uidSize: uint8, block0: array<byte>) returns (ok: bool)
    requires newUid != null ==> uidSize <= newUid.Length
    requires block0.Length == READ_SIZE && newUid != block0
    modifies block0
    ensures ok <==> UidArgsValid(newUid != null, uidSize)
    ensures ok ==> newUid != null && block0[..] == UidBlock(old(block0[..]), newUid[..uidSize])
    ensures !ok ==> block0[..] == old(block0[..])
  {
    if newUid == null || uidSize == 0 || uidSize > 15 {
      return false;
    }
    var bcc: byte := 0;
    var i := 0;
    while i < uidSize
      invariant 0 <= i <= uidSize
      invariant block0[..i] == newUid[..i]
      invariant forall j :: i <= j < block0.Length ==> block0[j] == old(block0[j])
      invariant bcc == Xor(newUid[..i])
    {
      block0[i] := newUid[i];
      assert block0[..i + 1] == newUid[..i + 1];
      assert newUid[..i + 1][..i] == newUid[..i];
      bcc := bcc ^ newUid[i];
      i := i + 1;
    }
    ghost var filled := block0[..];
    block0[uidSize] := bcc;
    assert block0[..uidSize] == filled[..uidSize] == newUid[..uidSize];
    assert block0[uidSize + 1..] == filled[uidSize + 1..] == old(block0[uidSize + 1..]);
    assert block0[..] == block0[..uidSize] + [bcc] + block0[uidSize + 1..];
    return true;
  }

  // -------------------------------------------------------------- card commands

  /** A Transceive of `data` followed by its CRC_A, as PCD_MIFARE_Transceive sends it. */
  function Framed(data: seq<byte>): (c: Command)
    ensures c.command == CMD_TRANSCEIVE && c.bitFraming == 0 && CrcIntact(c.send)
    ensures |c.send| == |data| + 2 && c.send[..|data|] == data
  {
    assert (data + CrcA(data))[..|data|] == data;
    Command(CMD_TRANSCEIVE, data + CrcA(data), 0)
  }

  /** The READ command: code, address, CRC_A. */
  function ReadCommand(blockAddr: byte): (f: seq<byte>)
    ensures |f| == 4 && f[0] == MF_READ && f[1] == blockAddr && CrcIntact(f)
  {
    assert ([MF_READ, blockAddr] + CrcA([MF_READ, blockAddr]))[..2] == [MF_READ, blockAddr];
    [MF_READ, blockAddr] + CrcA([MF_READ, blockAddr])
  }

  /**
   * MIFARE_Read: with room for 18 bytes, send READ with its CRC_A and read
   * the block and its CRC_A back over the command in `buffer`; `size` is
   * what `*bufferSize` holds afterwards.
   */
  method Read(chip: Chip, blockAddr: byte, buffer: array?<byte>, bufferSize: nat) returns (status: Status, size: nat)
    requires buffer != null ==> bufferSize <= buffer.Length
    modifies chip, buffer
    ensures buffer == null || bufferSize < READ_SIZE ==>
              status == NoRoom && size == bufferSize && chip.log == old(chip.log) && chip.script == old(chip.script)
              && (buffer != null ==> buffer[..] == old(buffer[..]))
    ensures buffer != null && bufferSize >= READ_SIZE ==>
              var o := Communicate(Next(old(chip.script)), WAIT_TRANSCEIVE, true, bufferSize, true);
              var sent := Placed(old(buffer[..]), 0, ReadCommand(blockAddr));
              chip.log == old(chip.log) + [Command(CMD_TRANSCEIVE, ReadCommand(blockAddr), 0)]
              && chip.script == Rest(old(chip.script))
              && status == o.status
              && size == (if o.stored then |o.data| else bufferSize)
              && buffer[..] == (if o.stored then Placed(sent, 0, o.data) else sent)
  {
    if buffer == null || bufferSize < READ_SIZE {
      return NoRoom, bufferSize;
    }
    buffer[0] := MF_READ;
    buffer[1] := blockAddr;
    assert buffer[..2] == [MF_READ, blockAddr];
    var crc := CrcA(buffer[..2]);
    buffer[2] := crc[0];
    buffer[3] := crc[1];
    assert buffer[..4] == ReadCommand(blockAddr);
    assert buffer[..] == Placed(old(buffer[..]), 0, ReadCommand(blockAddr));
    var validBits;
    status, size, validBits := chip.TransceiveData(buffer[..4], buffer, 0, bufferSize, 0, 0, true);
  }

  /** What one PCD_MIFARE_Transceive step answers, and how many steps a two-step command ran. */
  datatype Steps = Steps(status: Status, ran: nat)

  /**
   * A two-step command (WRITE, INCREMENT, DECREMENT, RESTORE): the second
   * step is sent only when the first is acknowledged.
   */
  function TwoStep(rounds: seq<Round>, acceptTimeout: bool): (s: Steps)
    ensures s.ran == 1 <==> AckStatus(Next(rounds), false) != Ok
    ensures s.ran == 1 || s.ran == 2
    ensures s.status == Ok <==>
              AckStatus(Next(rounds), false) == Ok && AckStatus(Next(Rest(rounds)), acceptTimeout) == Ok
  {
    var first := AckStatus(Next(rounds), false);
    if first != Ok then Steps(first, 1) else Steps(AckStatus(Next(Rest(rounds)), acceptTimeout), 2)
  }

  /** The rounds left after `n` commands. */
  function Drop(rounds: seq<Round>, n: nat): seq<Round>
  {
    if n == 0 then rounds else Drop(Rest(rounds), n - 1)
  }

  /** A reader whose script is used up never sees an interrupt. */
  lemma {:induction false} DeadNeverCompletes(waitIRq: byte, k: nat)
    ensures WaitFrom(Dead, waitIRq, k) == Expired
    decreases POLLS - k
  {
    if k < POLLS {
      DeadNeverCompletes(waitIRq, k + 1);
    }
  }

  /**
   * The second step of INCREMENT, DECREMENT and RESTORE is not answered by
   * the card: when nothing answers it, the command still succeeds, while a
   * WRITE whose data step goes unanswered times out.
   */
  lemma {:induction false} SilentSecondStep(first: Round)
    requires AckStatus(first, false) == Ok
    ensures TwoStep([first], true).status == Ok
    ensures TwoStep([first], false).status == Timeout
  {
    DeadNeverCompletes(WAIT_TRANSCEIVE, 0);
    assert Next(Rest([first])) == Dead;
  }

  /** The two-byte command [code, address]. */
  method Command2(code: byte, blockAddr: byte) returns (cmdBuffer: array<byte>)
    ensures fresh(cmdBuffer) && cmdBuffer[..] == [code, blockAddr]
  {
    cmdBuffer := new byte[2];
    cmdBuffer[0] := code;
    cmdBuffer[1] := blockAddr;
  }

  /**
   * MIFARE_Write: WRITE with the address, then the data, each acknowledged.
   * A size above 16 is refused by PCD_MIFARE_Transceive only in the second
   * step, after the card was told to expect data.
   */
  method Write(chip: Chip, blockAddr: byte, buffer: array?<byte>, bufferSize: nat) returns (status: Status)
    requires buffer != null ==> bufferSize <= buffer.Length
    modifies chip
    ensures buffer == null || bufferSize < BLOCK_SIZE ==>
              status == Invalid && chip.log == old(chip.log) && chip.script == old(chip.script)
    ensures buffer != null && bufferSize == BLOCK_SIZE ==>
              var t := TwoStep(old(chip.script), false);
              status == t.status && chip.script == Drop(old(chip.script), t.ran)
              && chip.log == old(chip.log) + [Framed([MF_WRITE, blockAddr])]
                             + (if t.ran == 2 then [Framed(buffer[..BLOCK_SIZE])] else [])
    ensures buffer != null && bufferSize > BLOCK_SIZE ==>
              var first := AckStatus(Next(old(chip.script)), false);
              status == (if first == Ok then Invalid else first)
              && chip.script == Rest(old(chip.script))
              && chip.log == old(chip.log) + [Framed([MF_WRITE, blockAddr])]
  {
    if buffer == null || bufferSize < BLOCK_SIZE {
      return Invalid;
    }
    ghost var rounds := chip.script;
    var cmdBuffer := Command2(MF_WRITE, blockAddr);
    assert cmdBuffer[..2] == [MF_WRITE, blockAddr];
    status := MifareTransceive(chip, cmdBuffer, 2, false);
    if status != Ok {
      assert Drop(rounds, 1) == Rest(rounds);
      return status;
    }
    status := MifareTransceive(chip, buffer, bufferSize, false);
    assert Drop(rounds, 2) == Drop(Rest(rounds), 1) == Rest(Rest(rounds));
    if status != Ok {
      return status;
    }
    return Ok;
  }

  /** MIFARE_Ultralight_Write: one acknowledged command with the page and its first four bytes. */
  method UltralightWrite(chip: Chip, page: byte, buffer: array?<byte>, bufferSize: nat) returns (status: Status)
    requires buffer != null ==> bufferSize <= buffer.Length
    modifies chip
    ensures buffer == null || bufferSize < 4 ==>
              status == Invalid && chip.log == old(chip.log) && chip.script == old(chip.script)
    ensures buffer != null && bufferSize >= 4 ==>
              status == AckStatus(Next(old(chip.script)), false) && chip.script == Rest(old(chip.script))
              && chip.log == old(chip.log) + [Framed([UL_WRITE, page] + buffer[..4])]
  {
    if buffer == null || bufferSize < 4 {
      return Invalid;
    }
    var cmdBuffer := PageCommand(page, buffer);
    status := MifareTransceive(chip, cmdBuffer, 6, false);
  }

  /** The six-byte command of MIFARE_Ultralight_Write: command, page and the page's four bytes. */
  method PageCommand(page: byte, buffer: array<byte>) returns (cmdBuffer: array<byte>)
    requires buffer.Length >= 4
    ensures fresh(cmdBuffer) && cmdBuffer.Length == 6 && cmdBuffer[..6] == [UL_WRITE, page] + buffer[..4]
  {
    cmdBuffer := new byte[6];
    cmdBuffer[0] := UL_WRITE;
    cmdBuffer[1] := page;
    cmdBuffer[2] := buffer[0];
    cmdBuffer[3] := buffer[1];
    cmdBuffer[4] := buffer[2];
    cmdBuffer[5] := buffer[3];
    assert buffer[..4] == [buffer[0], buffer[1], buffer[2], buffer[3]];
  }

  /**
   * MIFARE_TwoStepHelper: the command and address, then the four bytes of
   * `data` as they lie in memory, where a timeout counts as success.
   */
  method TwoStepHelper(chip: Chip, command: byte, blockAddr: byte, data: int32) returns (status: Status)
    modifies chip
    ensures var t := TwoStep(old(chip.script), true);
            status == t.status && chip.script == Drop(old(chip.script), t.ran)
            && chip.log == old(chip.log) + [Framed([command, blockAddr])]
                           + (if t.ran == 2 then [Framed(LeBytes(data))] else [])
  {
    ghost var rounds := chip.script;
    var cmdBuffer := Command2(command, blockAddr);
    assert cmdBuffer[..2] == [command, blockAddr];
    status := MifareTransceive(chip, cmdBuffer, 2, false);
    if status != Ok {
      assert Drop(rounds, 1) == Rest(rounds);
      return status;
    }
    var bytes := LeBytes(data);
    var dataBuffer := new byte[4](i => if 0 <= i < 4 then bytes[i] else 0);
    assert dataBuffer[..4] == bytes;
    status := MifareTransceive(chip, dataBuffer, 4, true);
    assert Drop(rounds, 2) == Drop(Rest(rounds), 1) == Rest(Rest(rounds));
    if status != Ok {
      return status;
    }
    return Ok;
  }

  /** MIFARE_Decrement: DECREMENT by `delta`. */
  method Decrement(chip: Chip, blockAddr: byte, delta: int32) returns (status: Status)
    modifies chip
    ensures var t := TwoStep(old(chip.script), true);
            status == t.status && chip.script == Drop(old(chip.script), t.ran)
            && chip.log == old(chip.log) + [Framed([MF_DECREMENT, blockAddr])]
                           + (if t.ran == 2 then [Framed(LeBytes(delta))] else [])
  {
    status := TwoStepHelper(chip, MF_DECREMENT, blockAddr, delta);
  }

  /** MIFARE_Increment: INCREMENT by `delta`. */
  method Increment(chip: Chip, blockAddr: byte, delta: int32) returns (status: Status)
    modifies chip
    ensures var t := TwoStep(old(chip.script), true);
            status == t.status && chip.script == Drop(old(chip.script), t.ran)
            && chip.log == old(chip.log) + [Framed([MF_INCREMENT, blockAddr])]
                           + (if t.ran == 2 then [Framed(LeBytes(delta))] else [])
  {
    status := TwoStepHelper(chip, MF_INCREMENT, blockAddr, delta);
  }

  /** MIFARE_Restore: RESTORE, with 0 as the data of the second step. */
  method Restore(chip: Chip, blockAddr: byte) returns (status: Status)
    modifies chip
    ensures var t := TwoStep(old(chip.script), true);
            status == t.status && chip.script == Drop(old(chip.script), t.ran)
            && chip.log == old(chip.log) + [Framed([MF_RESTORE, blockAddr])]
                           + (if t.ran == 2 then [Framed([0, 0, 0, 0])] else [])
  {
    status := TwoStepHelper(chip, MF_RESTORE, blockAddr, 0);
  }

  /** MIFARE_Transfer: one acknowledged TRANSFER. */
  method Transfer(chip: Chip, blockAddr: byte) returns (status: Status)
    modifies chip
    ensures status == AckStatus(Next(old(chip.script)), false) && chip.script == Rest(old(chip.script))
    ensures chip.log == old(chip.log) + [Framed([MF_TRANSFER, blockAddr])]
  {
    var cmdBuffer := Command2(MF_TRANSFER, blockAddr);
    assert cmdBuffer[..2] == [MF_TRANSFER, blockAddr];
    status := MifareTransceive(chip, cmdBuffer, 2, false);
  }

  /**
   * The first four bytes of GetValue's buffer after a successful read: the
   * answer, completed by the READ command it overwrote when it is shorter.
   */
  function ReadBack(blockAddr: byte, data: seq<byte>): (b: seq<byte>)
    ensures |b| == 4
    ensures |data| >= 4 ==> b == data[..4]
  {
    if |data| >= 4 then data[..4] else data + ReadCommand(blockAddr)[|data|..]
  }

  /** What MIFARE_GetValue reports for the round its READ consumes: the status and `*value` if written. */
  function GetValueSpec(r: Round, blockAddr: byte): (g: (Status, Option<int32>))
    ensures g.0 == Communicate(r, WAIT_TRANSCEIVE, true, READ_SIZE, true).status
    ensures g.1.Some? <==> g.0 == Ok
  {
    var o := Communicate(r, WAIT_TRANSCEIVE, true, READ_SIZE, true);
    if o.status == Ok then (Ok, Some(LeValue(ReadBack(blockAddr, o.data)))) else (o.status, None)
  }

  /**
   * Reading a block that holds the value block for `v`, with its CRC_A and
   * no error, gives back `v`: MIFARE_GetValue inverts MIFARE_SetValue.
   */
  lemma {:induction false} GetValueOfValueBlock(r: Round, blockAddr: byte, v: int32, addr: byte)
    requires r.fifo == ValueBlock(v, addr) + CrcA(ValueBlock(v, addr))
    requires WaitFrom(r, WAIT_TRANSCEIVE, 0) == Completed && r.errorReg & 0x1B == 0 && RxLastBits(r.control) == 0
    ensures GetValueSpec(r, blockAddr) == (Ok, Some(v))
  {
    var b := ValueBlock(v, addr);
    assert r.fifo[..|r.fifo| - 2] == b;
    assert r.fifo[..4] == b[..4];
  }

  /** MIFARE_GetValue: READ into an 18-byte buffer, then decode bytes 0..3 when the read succeeded. */
  method GetValue(chip: Chip, blockAddr: byte) returns (status: Status, value: Option<int32>)
    modifies chip
    ensures (status, value) == GetValueSpec(Next(old(chip.script)), blockAddr)
    ensures chip.script == Rest(old(chip.script))
    ensures chip.log == old(chip.log) + [Command(CMD_TRANSCEIVE, ReadCommand(blockAddr), 0)]
  {
    var buffer := new byte[READ_SIZE];
    ghost var r := Next(chip.script);
    ghost var initial := buffer[..];
    var size;
    status, size := Read(chip, blockAddr, buffer, READ_SIZE);
    value := None;
    if status == Ok {
      ghost var o := Communicate(r, WAIT_TRANSCEIVE, true, READ_SIZE, true);
      ghost var sent := Placed(initial, 0, ReadCommand(blockAddr));
      ReadBackPlaced(sent, blockAddr, o.data);
      value := Some(LeValue(buffer[..4]));
    }
  }

  /** The first four bytes of a read buffer after the answer was copied over the READ command. */
  lemma {:induction false} ReadBackPlaced(sent: seq<byte>, blockAddr: byte, data: seq<byte>)
    requires |sent| == READ_SIZE && sent[..4] == ReadCommand(blockAddr) && |data| <= READ_SIZE
    ensures Placed(sent, 0, data)[..4] == ReadBack(blockAddr, data)
  {
    var p := Placed(sent, 0, data);
    if |data| < 4 {
      assert p[..|data|] == data;
      assert p[|data|..4] == sent[|data|..4] == ReadCommand(blockAddr)[|data|..];
      assert p[..4] == p[..|data|] + p[|data|..4];
    } else {
      assert p[..4] == data[..4];
    }
  }

  /** The 18-byte buffer of MIFARE_SetValue; bytes 16 and 17 are never written. */
  method ValueBuffer(value: int32, blockAddr: byte) returns (buffer: array<byte>)
    ensures fresh(buffer) && buffer.Length == READ_SIZE && buffer[..BLOCK_SIZE] == ValueBlock(value, blockAddr)
  {
    buffer := new byte[READ_SIZE];
    var v := LeBytes(value);
    StoreValueBlock(buffer, v, blockAddr);
  }

  /** The stores of MIFARE_SetValue: value, complement, value, then the address bytes. */
  method StoreValueBlock(buffer: array<byte>, v: seq<byte>, blockAddr: byte)
    requires buffer.Length == READ_SIZE && |v| == 4
    modifies buffer
    ensures buffer[..BLOCK_SIZE] == Block(v, blockAddr)
  {
    buffer[0], buffer[8] := v[0], v[0];
    buffer[1], buffer[9] := v[1], v[1];
    buffer[2], buffer[10] := v[2], v[2];
    buffer[3], buffer[11] := v[3], v[3];
    buffer[4] := !buffer[0];
    buffer[5] := !buffer[1];
    buffer[6] := !buffer[2];
    buffer[7] := !buffer[3];
    buffer[12], buffer[14] := blockAddr, blockAddr;
    buffer[13], buffer[15] := !blockAddr, !blockAddr;
    Layout(buffer[..BLOCK_SIZE], v, blockAddr);
  }

  /** MIFARE_SetValue: WRITE the value block for `value` to `blockAddr`. */
  method SetValue(chip: Chip, blockAddr: byte, value: int32) returns (status: Status)
    modifies chip
    ensures var t := TwoStep(old(chip.script), false);
            status == t.status && chip.script == Drop(old(chip.script), t.ran)
            && chip.log == old(chip.log) + [Framed([MF_WRITE, blockAddr])]
                           + (if t.ran == 2 then [Framed(ValueBlock(value, blockAddr))] else [])
  {
    var buffer := ValueBuffer(value, blockAddr);
    status := Write(chip, blockAddr, buffer, BLOCK_SIZE);
  }
}
