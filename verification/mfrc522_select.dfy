/**
 * PICC_Select of drivers/rc522/MFRC522.c, the register-level copy of the
 * selection engine.  It differs from cards/picc.c in four places: the
 * SELECT carries a CRC_A computed by the driver (nine bytes sent), the
 * receive alignment equals the valid bits of the last byte sent, the
 * collision position is decoded from CollReg, and the CRC_A of the SAK is
 * checked by the driver.
 *
 * As for cards/picc.c, the method is proved equal to a specification,
 * `SelectSpec`, built from three mutually recursive functions that follow
 * the two loops of the source.
 */
module Mfrc522Select {
  import opened Pdc
  import opened Iso14443a
  import opened Mfrc522
  import Picc

  /** The UID record, the frame buffer and the chip, between two steps. */
  datatype St = St(uid: seq<byte>, size: uint8, sak: byte, buf: seq<byte>, log: seq<Command>, script: seq<Round>)
  {
    ghost predicate Sound()
    {
      |uid| == 10 && |buf| == 9
    }
  }

  /** What PICC_Select leaves behind. */
  datatype Selection = Selection(status: Status, uid: seq<byte>, size: uint8, sak: byte,
                                 log: seq<Command>, script: seq<Round>)

  function Stop(status: Status, st: St): Selection
  {
    Selection(status, st.uid, st.size, st.sak, st.log, st.script)
  }

  /**
   * The collision position CollReg reports: CollPos (bits 4..0), where 0
   * stands for bit 32.
   */
  function CollisionPosition(collReg: byte): (pos: nat)
    ensures 1 <= pos <= 32 && pos % 32 == (collReg & 0x1F) as nat
  {
    var p := (collReg & 0x1F) as nat;
    if p == 0 then 32 else p
  }

  /** The SELECT frame of the MFRC522 driver: NVB 0x70, BCC, and CRC_A over the first seven bytes. */
  function SelectWithCrc(buf: seq<byte>): (r: seq<byte>)
    requires |buf| == 9
    ensures |r| == 9 && r[..7] == SelectFrame(buf)[..7] && r[7..] == CrcA(r[..7])
    ensures r[1] == NVB_SELECT && r[2] ^ r[3] ^ r[4] ^ r[5] ^ r[6] == 0
  {
    var f := SelectFrame(buf);
    f[..7] + CrcA(f[..7])
  }

  /** The frame buffer once one pass of the inner loop has framed its command. */
  function Framed(known: nat, buf: seq<byte>): (r: seq<byte>)
    requires |buf| == 9
    ensures |r| == 9 && r[0] == buf[0]
  {
    if known >= 32 then SelectWithCrc(buf) else buf[1 := Nvb(known)]
  }

  /** Valid bits of the last byte sent, also the receive alignment. */
  function TxLastBits(known: nat): (n: nat)
    ensures n < 8
  {
    if known >= 32 then 0 else known % 8
  }

  /** Bytes sent: the whole 9-byte SELECT, or SEL, NVB and the bytes holding the known bits. */
  function SendLength(known: nat): (n: nat)
    ensures 2 <= n <= 9
  {
    if known >= 32 then 9 else AnticollisionLength(known)
  }

  /** The command one pass of the inner loop starts. */
  function Sending(known: nat, buf: seq<byte>): Command
    requires |buf| == 9
  {
    Command(CMD_TRANSCEIVE, Framed(known, buf)[..SendLength(known)], BitFraming(TxLastBits(known), TxLastBits(known)))
  }

  /** The chip's answer to that command: room from the answer offset to the end of the buffer. */
  function Answer(known: nat, st: St): Outcome
  {
    Communicate(Next(st.script), WAIT_TRANSCEIVE, true, 9 - Picc.AnswerOffset(known), false)
  }

  /** The state after the command: logged, round consumed, answer copied in. */
  function Sent(known: nat, st: St): (next: St)
    requires st.Sound()
    ensures next.Sound() && next.uid == st.uid && next.size == st.size && next.sak == st.sak
    ensures next.buf[0] == st.buf[0]
  {
    var b := Framed(known, st.buf);
    var o := Answer(known, st);
    st.(buf := if o.stored then Placed(b, Picc.AnswerOffset(known), o.data) else b,
        log := st.log + [Sending(known, st.buf)], script := Rest(st.script))
  }

  /** How one pass of the inner loop ends. */
  datatype Pass =
    | Again(known: nat, st: St)
    | SelectDone(responseLength: nat, rxValidBits: nat, st: St)
    | Abort(status: Status, st: St)

  function PassOf(stop: bool, status: Status, selectDone: bool, known: nat, responseLength: nat,
                  rxValidBits: nat, st: St): Pass
  {
    if stop then Abort(status, st)
    else if selectDone then SelectDone(responseLength, rxValidBits, st)
    else Again(known, st)
  }

  /**
   * One pass of the inner loop: frame, transceive with RxAlign equal to
   * TxLastBits, and on a collision decode CollReg and force the colliding
   * bit to 1.
   */
  function InnerPass(known: nat, st: St): (p: Pass)
    requires st.Sound()
    ensures p.st.Sound()
    ensures p.Again? ==> known < p.known <= 32
    ensures p.st.log == st.log + [Sending(known, st.buf)] && p.st.script == Rest(st.script)
    ensures p.st.buf[0] == st.buf[0] && p.st.uid == st.uid && p.st.size == st.size && p.st.sak == st.sak
    ensures p.SelectDone? ==> known >= 32
    ensures p.Abort? ==> p.status != Ok
  {
    var o := Answer(known, st);
    var next := Sent(known, st);
    var collReg := Next(st.script).collReg;
    if o.status == Collision then
      if collReg & 0x20 != 0 then Abort(Collision, next)
      else if CollisionPosition(collReg) <= known then Abort(InternalError, next)
      else Again(CollisionPosition(collReg), next.(buf := ForceCollisionBit(next.buf, CollisionPosition(collReg))))
    else if o.status != Ok then Abort(o.status, next)
    else if known >= 32 then SelectDone(|o.data|, o.validBits, next)
    else Again(32, next)
  }

  /** PICC_Select(uid, validBits), started with frame buffer `st.buf`. */
  function SelectSpec(validBits: uint8, st: St): Selection
    requires st.Sound()
  {
    if validBits > 80 then Stop(Invalid, st) else CascadeLevel(1, validBits, st)
  }

  function CascadeLevel(level: nat, validBits: nat, st: St): Selection
    requires 1 <= level <= 4 && validBits <= 80 && st.Sound()
    decreases 4 - level, 1, 0, st
  {
    if level > 3 then Stop(InternalError, st)
    else
      Exchange(level, validBits, StartKnownBits(level, validBits, st.size),
               st.(buf := LevelFrame(st.buf, level, validBits, st.size, st.uid)))
  }

  function Exchange(level: nat, validBits: nat, known: nat, st: St): Selection
    requires 1 <= level <= 3 && validBits <= 80 && st.Sound()
    decreases 4 - level, 0, 33 - Picc.Min(known, 32), st
  {
    match InnerPass(known, st)
    case Again(k, next) => Exchange(level, validBits, k, next)
    case SelectDone(n, vb, next) => CompleteLevel(level, validBits, n, vb, next)
    case Abort(status, next) => Stop(status, next)
  }

  /** The frame buffer after the driver stores the CRC_A of the SAK in bytes 2..3. */
  function SakChecked(buf: seq<byte>): (r: seq<byte>)
    requires |buf| == 9
    ensures |r| == 9 && r[2..4] == CrcA(buf[6..7])
    ensures forall j :: 0 <= j < 9 && j != 2 && j != 3 ==> r[j] == buf[j]
  {
    var crc := CrcA(buf[6..7]);
    buf[2 := crc[0]][3 := crc[1]]
  }

  /**
   * After the SELECT: store the level's UID bytes, require a 24-bit answer
   * whose CRC_A is right, then go on or finish by the SAK's cascade bit.
   */
  function CompleteLevel(level: nat, validBits: nat, responseLength: nat, rxValidBits: nat, st: St): Selection
    requires 1 <= level <= 3 && validBits <= 80 && st.Sound()
    decreases 4 - level, 0, 0, st
  {
    var uid := StoreUid(st.uid, st.buf, UidIndex(level));
    if responseLength != 3 || rxValidBits != 0 then Stop(Error, st.(uid := uid))
    else
      var checked := st.(uid := uid, buf := SakChecked(st.buf));
      if checked.buf[2..4] != st.buf[7..9] then Stop(CrcWrong, checked)
      else if st.buf[6] & 0x04 != 0 then CascadeLevel(level + 1, validBits, checked)
      else Selection(Ok, uid, 3 * level + 1, st.buf[6], st.log, st.script)
  }

  // ---------------------------------------------------------------- the engine

  ghost function Snapshot(uid: Uid, buffer: array<byte>, chip: Chip): St
    reads uid, uid.uidByte, buffer, chip
  {
    St(uid.uidByte[..], uid.size, uid.sak, buffer[..], chip.log, chip.script)
  }

  /** PICC_Select: as cards/picc.c, on the chip's own registers. */
  method Select(chip: Chip, uid: Uid, validBits: uint8, stack: seq<byte>) returns (result: Status)
    requires uid.Valid() && |stack| == 9
    modifies chip, uid, uid.uidByte
    ensures uid.Valid()
    ensures var s := SelectSpec(validBits, St(old(uid.uidByte[..]), old(uid.size), old(uid.sak), stack,
                                               old(chip.log), old(chip.script)));
            result == s.status && uid.uidByte[..] == s.uid && uid.size == s.size
            && uid.sak == s.sak && chip.log == s.log && chip.script == s.script
  {
    if validBits > 80 {
      return Invalid;
    }
    var buffer := Picc.FrameBuffer(stack);
    ghost var goal := CascadeLevel(1, validBits, Snapshot(uid, buffer, chip));
    var cascadeLevel: nat := 1;
    var uidComplete := false;
    while !uidComplete
      invariant 1 <= cascadeLevel <= 4 && buffer.Length == 9
      invariant uid.Valid() && uid.size == old(uid.size)
      invariant !uidComplete ==> CascadeLevel(cascadeLevel, validBits, Snapshot(uid, buffer, chip)) == goal
      invariant uidComplete ==>
                  cascadeLevel <= 3 && goal == Selection(Ok, uid.uidByte[..], 3 * cascadeLevel + 1, uid.sak, chip.log, chip.script)
      decreases 4 - cascadeLevel, if uidComplete then 0 else 1
    {
      if cascadeLevel > 3 {
        return InternalError;
      }
      var stop, status, advance := RunLevel(chip, uid, buffer, cascadeLevel, validBits);
      if stop {
        return status;
      }
      if advance {
        cascadeLevel := cascadeLevel + 1;
      } else {
        uidComplete := true;
      }
    }
    uid.size := 3 * cascadeLevel + 1;
    return Ok;
  }

  /** One pass of the outer loop. */
  method RunLevel(chip: Chip, uid: Uid, buffer: array<byte>, level: nat, validBits: uint8)
    returns (stop: bool, status: Status, advance: bool)
    requires uid.Valid() && buffer.Length == 9 && 1 <= level <= 3 && validBits <= 80
    modifies chip, uid, uid.uidByte, buffer
    ensures uid.Valid() && uid.size == old(uid.size)
    ensures CascadeLevel(level, validBits, old(Snapshot(uid, buffer, chip)))
            == if stop then Stop(status, Snapshot(uid, buffer, chip))
               else if advance then CascadeLevel(level + 1, validBits, Snapshot(uid, buffer, chip))
               else Selection(Ok, uid.uidByte[..], 3 * level + 1, uid.sak, chip.log, chip.script)
  {
    var responseLength, txLastBits;
    stop, status, responseLength, txLastBits := SearchLevel(chip, uid, buffer, level, validBits);
    advance := false;
    if !stop {
      stop, status, advance := FinishLevel(chip, uid, buffer, level, validBits, responseLength, txLastBits);
    }
  }

  /** The set-up and the inner loop of one cascade level. */
  method SearchLevel(chip: Chip, uid: Uid, buffer: array<byte>, level: nat, validBits: uint8)
    returns (stop: bool, status: Status, responseLength: nat, txLastBits: nat)
    requires uid.Valid() && buffer.Length == 9 && 1 <= level <= 3 && validBits <= 80
    modifies chip, buffer
    ensures CascadeLevel(level, validBits, old(Snapshot(uid, buffer, chip)))
            == if stop then Stop(status, Snapshot(uid, buffer, chip))
               else CompleteLevel(level, validBits, responseLength, txLastBits, Snapshot(uid, buffer, chip))
  {
    ghost var st0 := Snapshot(uid, buffer, chip);
    var known := Picc.SetUpLevel(buffer, uid.uidByte, uid.size, level, validBits);
    assert Snapshot(uid, buffer, chip) == st0.(buf := LevelFrame(st0.buf, level, validBits, st0.size, st0.uid));
    stop, status, responseLength, txLastBits := RunExchanges(chip, uid, buffer, level, validBits, known);
  }

  /** Level completion: UID bytes out, 24-bit answer, CRC_A of the SAK, cascade bit. */
  method FinishLevel(chip: Chip, uid: Uid, buffer: array<byte>, level: nat, validBits: uint8,
                     responseLength: nat, txLastBits: nat)
    returns (stop: bool, status: Status, advance: bool)
    requires uid.Valid() && buffer.Length == 9 && 1 <= level <= 3 && validBits <= 80
    modifies uid, uid.uidByte, buffer
    ensures uid.Valid() && uid.size == old(uid.size)
    ensures CompleteLevel(level, validBits, responseLength, txLastBits, old(Snapshot(uid, buffer, chip)))
            == if stop then Stop(status, Snapshot(uid, buffer, chip))
               else if advance then CascadeLevel(level + 1, validBits, Snapshot(uid, buffer, chip))
               else Selection(Ok, uid.uidByte[..], 3 * level + 1, uid.sak, chip.log, chip.script)
  {
    ghost var st := Snapshot(uid, buffer, chip);
    Picc.StoreLevelUid(buffer, uid.uidByte, UidIndex(level));
    assert Snapshot(uid, buffer, chip) == st.(uid := StoreUid(st.uid, st.buf, UidIndex(level)));
    if responseLength != 3 || txLastBits != 0 {
      return true, Error, false;
    }
    StoreSakCrc(buffer);
    assert Snapshot(uid, buffer, chip) == st.(uid := StoreUid(st.uid, st.buf, UidIndex(level)), buf := SakChecked(st.buf));
    if buffer[2] != buffer[7] || buffer[3] != buffer[8] {
      assert buffer[2..4] != st.buf[7..9];
      return true, CrcWrong, false;
    }
    assert buffer[2..4] == st.buf[7..9];
    stop, status := false, Ok;
    if buffer[6] & 0x04 != 0 {
      advance := true;
    } else {
      advance := false;
      uid.sak := buffer[6];
    }
  }

  /** PCD_CalculateCRC(responseBuffer, 1, &buffer[2]) with the SAK at buffer[6]. */
  method StoreSakCrc(buffer: array<byte>)
    requires buffer.Length == 9
    modifies buffer
    ensures buffer[..] == SakChecked(old(buffer[..]))
  {
    var crc := CrcA(buffer[6..7]);
    buffer[2] := crc[0];
    buffer[3] := crc[1];
  }

  /** The inner loop: exchange frames until the SELECT is answered. */
  method RunExchanges(chip: Chip, uid: Uid, buffer: array<byte>, level: nat, validBits: uint8, known: nat)
    returns (stop: bool, status: Status, responseLength: nat, txLastBits: nat)
    requires uid.Valid() && buffer.Length == 9 && 1 <= level <= 3 && validBits <= 80
    modifies chip, buffer
    ensures Exchange(level, validBits, known, old(Snapshot(uid, buffer, chip)))
            == if stop then Stop(status, Snapshot(uid, buffer, chip))
               else CompleteLevel(level, validBits, responseLength, txLastBits, Snapshot(uid, buffer, chip))
  {
    ghost var goal := Exchange(level, validBits, known, Snapshot(uid, buffer, chip));
    var selectDone := false;
    var k := known;
    responseLength, txLastBits := 0, 0;
    while !selectDone
      invariant !selectDone ==> Exchange(level, validBits, k, Snapshot(uid, buffer, chip)) == goal
      invariant selectDone ==>
                  CompleteLevel(level, validBits, responseLength, txLastBits, Snapshot(uid, buffer, chip)) == goal
      decreases if selectDone then 0 else 1, 33 - Picc.Min(k, 32)
    {
      ghost var before := Snapshot(uid, buffer, chip);
      ghost var k0 := k;
      stop, status, selectDone, k, responseLength, txLastBits := ExchangeFrame(chip, uid, buffer, k);
      ExchangeStep(level, validBits, k0, before, PassOf(stop, status, selectDone, k, responseLength, txLastBits,
                                                        Snapshot(uid, buffer, chip)));
      if stop {
        return;
      }
    }
    stop, status := false, Ok;
  }

  /** One pass of the inner loop, as the loop of RunExchanges takes it. */
  lemma {:induction false} ExchangeStep(level: nat, validBits: nat, known: nat, st: St, p: Pass)
    requires 1 <= level <= 3 && validBits <= 80 && st.Sound() && InnerPass(known, st) == p
    ensures p.Again? ==> known < p.known && Exchange(level, validBits, known, st) == Exchange(level, validBits, p.known, p.st)
    ensures p.SelectDone? ==>
              Exchange(level, validBits, known, st) == CompleteLevel(level, validBits, p.responseLength, p.rxValidBits, p.st)
    ensures p.Abort? ==> Exchange(level, validBits, known, st) == Stop(p.status, p.st)
  {
  }

  /** The framing half of the inner loop, CRC_A of the SELECT included. */
  method PrepareFrame(buffer: array<byte>, known: nat) returns (bufferUsed: nat, index: nat, txLastBits: nat)
    requires buffer.Length == 9
    modifies buffer
    ensures buffer[..] == Framed(known, old(buffer[..]))
    ensures bufferUsed == SendLength(known) && index == Picc.AnswerOffset(known) && txLastBits == TxLastBits(known)
  {
    if known >= 32 {
      buffer[1] := NVB_SELECT;
      buffer[6] := buffer[2] ^ buffer[3] ^ buffer[4] ^ buffer[5];
      var crc := CrcA(buffer[..7]);
      buffer[7] := crc[0];
      buffer[8] := crc[1];
      txLastBits := 0;
      bufferUsed := 9;
      index := 6;
      assert buffer[..] == buffer[..7] + crc;
    } else {
      txLastBits := known % 8;
      index := 2 + known / 8;
      buffer[1] := ((index as bv8) << 4) + (txLastBits as bv8);
      bufferUsed := index + (if txLastBits != 0 then 1 else 0);
    }
  }

  /** Framing and the transceive of one pass. */
  method SendFrame(chip: Chip, uid: Uid, buffer: array<byte>, known: nat)
    returns (status: Status, responseLength: nat, txLastBits: nat)
    requires uid.Valid() && buffer.Length == 9
    modifies chip, buffer
    ensures var st0 := old(Snapshot(uid, buffer, chip));
            var o := Answer(known, st0);
            Snapshot(uid, buffer, chip) == Sent(known, st0) && chip.collReg == Next(st0.script).collReg
            && status == o.status && (o.stored ==> responseLength == |o.data| && txLastBits == o.validBits)
  {
    ghost var st0 := Snapshot(uid, buffer, chip);
    var bufferUsed, index;
    bufferUsed, index, txLastBits := PrepareFrame(buffer, known);
    responseLength := 9 - index;
    var rxAlign := txLastBits;
    status, responseLength, txLastBits :=
      chip.TransceiveData(buffer[..bufferUsed], buffer, index, responseLength, txLastBits, rxAlign, false);
  }

  /** The body of the inner loop; `stop` stands for a `return status` of the source. */
  method ExchangeFrame(chip: Chip, uid: Uid, buffer: array<byte>, known: nat)
    returns (stop: bool, status: Status, selectDone: bool, newKnown: nat, responseLength: nat, txLastBits: nat)
    requires uid.Valid() && buffer.Length == 9
    modifies chip, buffer
    ensures InnerPass(known, old(Snapshot(uid, buffer, chip)))
            == PassOf(stop, status, selectDone, newKnown, responseLength, txLastBits, Snapshot(uid, buffer, chip))
    ensures !stop && !selectDone ==> known < newKnown <= 32
  {
    ghost var st0 := Snapshot(uid, buffer, chip);
    status, responseLength, txLastBits := SendFrame(chip, uid, buffer, known);
    ghost var o := Answer(known, st0);
    ghost var next := Sent(known, st0);
    stop, selectDone, newKnown := false, false, known;
    if status == Collision {
      stop, status, newKnown := ResolveCollision(chip, buffer, known);
      if stop {
        assert InnerPass(known, st0) == Abort(status, next);
        return;
      }
      assert Snapshot(uid, buffer, chip) == next.(buf := ForceCollisionBit(next.buf, newKnown));
    } else if status != Ok {
      stop := true;
      assert InnerPass(known, st0) == Abort(status, next);
    } else if known >= 32 {
      selectDone := true;
      assert InnerPass(known, st0) == SelectDone(responseLength, txLastBits, next);
    } else {
      newKnown := 32;
      assert InnerPass(known, st0) == Again(32, next);
    }
  }

  /** The collision branch of the inner loop: decode CollReg and choose the card with a 1 there. */
  method ResolveCollision(chip: Chip, buffer: array<byte>, known: nat) returns (stop: bool, status: Status, newKnown: nat)
    requires buffer.Length == 9
    modifies buffer
    ensures var collReg := chip.collReg;
            if collReg & 0x20 != 0 then stop && status == Collision && buffer[..] == old(buffer[..])
            else if CollisionPosition(collReg) <= known then stop && status == InternalError && buffer[..] == old(buffer[..])
            else !stop && newKnown == CollisionPosition(collReg)
                 && buffer[..] == ForceCollisionBit(old(buffer[..]), newKnown)
  {
    var valueOfCollReg := chip.collReg;
    if valueOfCollReg & 0x20 != 0 {
      return true, Collision, known;
    }
    var collisionPos := (valueOfCollReg & 0x1F) as nat;
    if collisionPos == 0 {
      collisionPos := 32;
    }
    if collisionPos <= known {
      return true, InternalError, known;
    }
    newKnown := collisionPos;
    Picc.ForceBit(buffer, newKnown);
    return false, Ok, newKnown;
  }
}
