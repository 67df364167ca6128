/**
 * The ISO/IEC 14443-3 Type A command bytes (cards/iso14443a.h) and the
 * layout of the 9-byte SELECT/ANTICOLLISION frame that both selection
 * engines (cards/picc.c and drivers/rc522/MFRC522.c) build:
 *
 *   byte 0: SEL (cascade level), byte 1: NVB (number of valid bits),
 *   bytes 2..5: UID bytes or the cascade tag, byte 6: BCC,
 *   bytes 7..8: CRC_A.
 *
 * UID layout per cascade level is section 6.5.4 of ISO/IEC 14443-3.
 */
module Iso14443a {
  import opened Pdc

  const REQA: byte := 0x26
  const WUPA: byte := 0x52
  const CT: byte := 0x88
  const SEL_CL1: byte := 0x93
  const SEL_CL2: byte := 0x95
  const SEL_CL3: byte := 0x97
  const HLTA: byte := 0x50

  /** NVB of a SELECT: seven whole bytes (SEL, NVB, four UID bytes, BCC). */
  const NVB_SELECT: byte := 0x70

  /** The SEL byte of a cascade level. */
  function SelCode(level: nat): (sel: byte)
    requires 1 <= level <= 3
    ensures sel == 0x91 + 2 * (level as bv8)
  {
    if level == 1 then SEL_CL1 else if level == 2 then SEL_CL2 else SEL_CL3
  }

  /** The cascade level a SEL byte names, 0 for any other byte. */
  function LevelOf(sel: byte): nat
  {
    if sel == SEL_CL1 then 1 else if sel == SEL_CL2 then 2 else if sel == SEL_CL3 then 3 else 0
  }

  /** The first index in the UID that belongs to a cascade level. */
  function UidIndex(level: nat): (i: nat)
    requires 1 <= level <= 3
    ensures i == 3 * (level - 1)
  {
    if level == 1 then 0 else if level == 2 then 3 else 6
  }

  /**
   * Whether byte 2 of the frame carries the cascade tag: only when the
   * caller supplied known bits and a UID size that needs a further level.
   */
  function UseCascadeTag(level: nat, validBits: nat, uidSize: nat): bool
    requires 1 <= level <= 3
  {
    if level == 1 then validBits != 0 && uidSize > 4
    else if level == 2 then validBits != 0 && uidSize > 7
    else false
  }

  /** The caller-supplied UID bits that fall into the level starting at `uidIndex`. */
  function LevelKnownBits(validBits: nat, uidIndex: nat): nat
  {
    if validBits < 8 * uidIndex then 0 else validBits - 8 * uidIndex
  }

  /** The number of whole or partial bytes that hold `bits` bits. */
  function BytesFor(bits: nat): (n: nat)
    ensures 8 * n >= bits && 8 * n < bits + 8
  {
    bits / 8 + (if bits % 8 != 0 then 1 else 0)
  }

  /** How many known UID bytes are copied into the frame (at most 4, or 3 after a tag). */
  function BytesToCopy(known: nat, ct: bool): (n: nat)
    ensures n <= (if ct then 3 else 4)
    ensures n == (if ct then 3 else 4) || 8 * n >= known
  {
    var max := if ct then 3 else 4;
    if BytesFor(known) > max then max else BytesFor(known)
  }

  /**
   * The frame buffer at the start of a cascade level: SEL in byte 0, the
   * cascade tag in byte 2 when used, then the known UID bytes of the level;
   * every other byte keeps what the buffer held.
   */
  function LevelFrame(buf: seq<byte>, level: nat, validBits: nat, uidSize: nat, uid: seq<byte>): (r: seq<byte>)
    requires |buf| == 9 && |uid| == 10 && 1 <= level <= 3
    ensures |r| == 9 && r[0] == SelCode(level) && r[1] == buf[1]
    ensures UseCascadeTag(level, validBits, uidSize) ==> r[2] == CT
    ensures var start := if UseCascadeTag(level, validBits, uidSize) then 3 else 2;
            var n := BytesToCopy(LevelKnownBits(validBits, UidIndex(level)), UseCascadeTag(level, validBits, uidSize));
            (forall j :: start <= j < start + n ==> r[j] == uid[UidIndex(level) + j - start])
            && (forall j :: start + n <= j < 9 ==> r[j] == buf[j])
  {
    var ct := UseCascadeTag(level, validBits, uidSize);
    var start := if ct then 3 else 2;
    var n := BytesToCopy(LevelKnownBits(validBits, UidIndex(level)), ct);
    seq(9, j requires 0 <= j < 9 =>
      if j == 0 then SelCode(level)
      else if j == 2 && ct then CT
      else if start <= j < start + n then uid[UidIndex(level) + j - start]
      else buf[j])
  }

  /** The known bits of a level once set up: the tag counts as 8 known bits. */
  function StartKnownBits(level: nat, validBits: nat, uidSize: nat): nat
    requires 1 <= level <= 3
  {
    LevelKnownBits(validBits, UidIndex(level)) + if UseCascadeTag(level, validBits, uidSize) then 8 else 0
  }

  /** The number of frame bits an NVB announces: whole bytes in the high nibble, extra bits in the low. */
  function NvbBits(nvb: byte): nat
  {
    8 * ((nvb >> 4) as nat) + ((nvb & 0x0F) as nat)
  }

  /** The NVB of an ANTICOLLISION frame that carries `known` UID bits. */
  function Nvb(known: nat): (nvb: byte)
    requires known < 32
    ensures NvbBits(nvb) == 16 + known
    ensures (nvb >> 4) as nat == 2 + known / 8 && (nvb & 0x0F) as nat == known % 8
  {
    (((2 + known / 8) as bv8) << 4) + ((known % 8) as bv8)
  }

  /** Bytes sent in an ANTICOLLISION frame: SEL, NVB and the bytes holding the known bits. */
  function AnticollisionLength(known: nat): (n: nat)
    requires known < 32
    ensures n == BytesFor(NvbBits(Nvb(known)))
  {
    2 + known / 8 + (if known % 8 != 0 then 1 else 0)
  }

  /** Block check character: XOR of the four UID/CT bytes. */
  function Bcc(b0: byte, b1: byte, b2: byte, b3: byte): byte
  {
    b0 ^ b1 ^ b2 ^ b3
  }

  /** The frame made ready for a SELECT: NVB 0x70 and the BCC over bytes 2..5. */
  function SelectFrame(buf: seq<byte>): (r: seq<byte>)
    requires |buf| == 9
    ensures |r| == 9 && r[1] == NVB_SELECT && NvbBits(r[1]) == 56
    ensures r[2] ^ r[3] ^ r[4] ^ r[5] ^ r[6] == 0
    ensures forall j :: 0 <= j < 9 && j != 1 && j != 6 ==> r[j] == buf[j]
  {
    buf[1 := NVB_SELECT][6 := Bcc(buf[2], buf[3], buf[4], buf[5])]
  }

  /**
   * The UID after a level is complete: bytes 3..5 of the frame after a
   * cascade tag, else bytes 2..5, stored from `uidIndex` on; the rest of
   * the UID is left as it was.
   */
  function StoreUid(uid: seq<byte>, buf: seq<byte>, uidIndex: nat): (r: seq<byte>)
    requires |uid| == 10 && |buf| == 9 && uidIndex <= 6
    ensures |r| == 10
    ensures var (src, n) := if buf[2] == CT then (3, 3) else (2, 4);
            forall j :: 0 <= j < 10 ==>
              r[j] == if uidIndex <= j < uidIndex + n then buf[src + j - uidIndex] else uid[j]
  {
    var (src, n) := if buf[2] == CT then (3, 3) else (2, 4);
    seq(10, j requires 0 <= j < 10 =>
      if uidIndex <= j < uidIndex + n then buf[src + j - uidIndex] else uid[j])
  }

  /** The byte index that cards/picc.c computes for a collision at bit `pos`. */
  function CollisionByte(pos: nat): nat
  {
    1 + pos / 8 + (if pos % 8 != 0 then 1 else 0)
  }

  /** The bit within that byte. */
  function CollisionBit(pos: nat): (i: nat)
    requires pos >= 1
    ensures i < 8
  {
    (pos - 1) % 8
  }

  /** The byte with only bit `i` set. */
  function BitMask(i: nat): (m: byte)
    requires i < 8
    ensures Bit(m, i) && m & (m - 1) == 0
  {
    (1 as bv8) << i
  }

  /**
   * Choosing the card whose UID has a 1 at the colliding position: bit
   * (pos-1)%8 of byte 2+(pos-1)/8 (UID bits are numbered from 1 after SEL and
   * NVB) is set, and nothing else in the frame changes.
   */
  function ForceCollisionBit(buf: seq<byte>, pos: nat): (r: seq<byte>)
    requires |buf| == 9 && 1 <= pos <= 32
    ensures CollisionByte(pos) == 2 + (pos - 1) / 8 && 2 <= CollisionByte(pos) <= 5
    ensures |r| == 9 && forall j :: 0 <= j < 9 && j != CollisionByte(pos) ==> r[j] == buf[j]
    ensures var k, m := CollisionByte(pos), BitMask(CollisionBit(pos));
            r[k] & m == m && r[k] & !m == buf[k] & !m
  {
    var k := CollisionByte(pos);
    buf[k := buf[k] | BitMask(CollisionBit(pos))]
  }

  /** One step of the CRC_A shift register (ISO/IEC 14443-3, section 6.2.4 and Annex B). */
  function CrcStep(reg: bv16, b: byte): bv16
  {
    var ch := b ^ ((reg & 0xFF) as bv8);
    var ch2 := (ch ^ (ch << 4)) as bv16;
    (reg >> 8) ^ (ch2 << 8) ^ (ch2 << 3) ^ (ch2 >> 4)
  }

  function CrcRegister(data: seq<byte>): bv16
  {
    if data == [] then 0x6363 else CrcStep(CrcRegister(data[..|data| - 1]), data[|data| - 1])
  }

  /** CRC_A of a frame, least significant byte first, as it is transmitted. */
  function CrcA(data: seq<byte>): (crc: seq<byte>)
    ensures |crc| == 2
  {
    var reg := CrcRegister(data);
    [(reg & 0xFF) as bv8, (reg >> 8) as bv8]
  }
}
