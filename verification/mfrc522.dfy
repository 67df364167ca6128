/**
 * The register-level MFRC522 driver of drivers/rc522/MFRC522.c: the command
 * engine PCD_CommunicateWithPICC and its status classification, REQA/WUPA,
 * HLTA, MIFARE authentication, PCD_MIFARE_Transceive, and its own copy of
 * the selection engine, which decodes the collision register and checks the
 * CRC_A of the SAK itself.
 *
 * The chip is a scripted mock: each command it executes consumes one
 * `Round`, the register values the driver reads while that command runs.
 * A chip whose script is used up never raises an interrupt.
 */
module Mfrc522 {
  import opened Pdc
  import opened Iso14443a
  import Picc

  /** CommandReg values (PCD_Command). */
  const CMD_TRANSCEIVE: byte := 0x0C
  const CMD_MF_AUTHENT: byte := 0x0E

  /** ComIrqReg bits: RxIRq | IdleIRq ends a Transceive, IdleIRq an MFAuthent; bit 0 is TimerIRq. */
  const WAIT_TRANSCEIVE: byte := 0x30
  const WAIT_AUTHENT: byte := 0x10

  /** The 4-bit MIFARE acknowledge. */
  const MF_ACK: byte := 0x0A
  const MF_KEY_SIZE: nat := 6

  /** ComIrqReg reads before PCD_CommunicateWithPICC gives up. */
  const POLLS: nat := 2000

  /**
   * What the driver reads while one command runs: successive ComIrqReg
   * values (0 once the list is exhausted), ErrorReg, the FIFO contents
   * (FIFOLevelReg is their count), ControlReg and CollReg.
   */
  datatype Round = Round(comIrq: seq<byte>, errorReg: byte, fifo: seq<byte>, control: byte, collReg: byte)

  /** A chip that raises no interrupt at all. */
  const Dead := Round([], 0, [], 0, 0)

  function Next(script: seq<Round>): Round
  {
    if script == [] then Dead else script[0]
  }

  /** A command started by PCD_CommunicateWithPICC: CommandReg, the FIFO bytes and BitFramingReg. */
  datatype Command = Command(command: byte, send: seq<byte>, bitFraming: byte)

  /** BitFramingReg: RxAlign in bits 6..4, TxLastBits in bits 2..0 (`uint8_t` arithmetic). */
  function BitFraming(rxAlign: uint8, txLastBits: uint8): (b: byte)
    ensures rxAlign < 8 && txLastBits < 8 ==> (b >> 4) as nat == rxAlign && (b & 0x0F) as nat == txLastBits
  {
    ((rxAlign as bv8) << 4) + (txLastBits as bv8)
  }

  /** The `k`-th ComIrqReg read of a round. */
  function IrqRead(r: Round, k: nat): byte
  {
    if k < |r.comIrq| then r.comIrq[k] else 0
  }

  /** How the wait for a command ends. */
  datatype Wait = Completed | TimerIrq | Expired

  /** Read `k` shows neither a completion bit nor the timer bit. */
  predicate Quiet(r: Round, waitIRq: byte, k: nat)
  {
    IrqRead(r, k) & waitIRq == 0 && IrqRead(r, k) & 0x01 == 0
  }

  /** The polling loop from read `k` on: a completion bit wins over the timer bit of the same read. */
  function WaitFrom(r: Round, waitIRq: byte, k: nat): Wait
    decreases POLLS - k, r
  {
    if k >= POLLS then Expired
    else if IrqRead(r, k) & waitIRq != 0 then Completed
    else if IrqRead(r, k) & 0x01 != 0 then TimerIrq
    else WaitFrom(r, waitIRq, k + 1)
  }

  /**
   * The command completes exactly when, among the first 2000 reads, one
   * shows a completion bit and every read before it is quiet.
   */
  lemma {:induction false} WaitCompleted(r: Round, waitIRq: byte, k: nat)
    requires k <= POLLS
    ensures WaitFrom(r, waitIRq, k) == Completed <==>
            exists m :: k <= m < POLLS && IrqRead(r, m) & waitIRq != 0
                        && forall j :: k <= j < m ==> Quiet(r, waitIRq, j)
    decreases POLLS - k
  {
    if k < POLLS {
      WaitCompleted(r, waitIRq, k + 1);
      if WaitFrom(r, waitIRq, k) == Completed && IrqRead(r, k) & waitIRq == 0 {
        var m :| k + 1 <= m < POLLS && IrqRead(r, m) & waitIRq != 0
                 && forall j :: k + 1 <= j < m ==> Quiet(r, waitIRq, j);
        assert forall j :: k <= j < m ==> Quiet(r, waitIRq, j);
      }
      if exists m :: k <= m < POLLS && IrqRead(r, m) & waitIRq != 0
                     && forall j :: k <= j < m ==> Quiet(r, waitIRq, j) {
        var m :| k <= m < POLLS && IrqRead(r, m) & waitIRq != 0
                 && forall j :: k <= j < m ==> Quiet(r, waitIRq, j);
        if m > k {
          assert Quiet(r, waitIRq, k);
          assert forall j :: k + 1 <= j < m ==> Quiet(r, waitIRq, j);
        }
      }
    }
  }

  /** The last two bytes of `data` are the CRC_A of the bytes before them. */
  predicate CrcIntact(data: seq<byte>)
  {
    |data| >= 2 && CrcA(data[..|data| - 2]) == data[|data| - 2..]
  }

  /**
   * The out-values of PCD_CommunicateWithPICC: its status and, when the
   * FIFO was read (`stored`), the bytes copied out and RxLastBits.
   */
  datatype Outcome = Outcome(status: Status, stored: bool, data: seq<byte>, validBits: nat)

  /**
   * The status classification of PCD_CommunicateWithPICC for a command that
   * wants an answer of at most `capacity` bytes (`wantsData`): timeout,
   * then ErrorReg 0x13, then no room, then a collision (with the data
   * already copied), then the CRC_A checks.
   */
  function Communicate(r: Round, waitIRq: byte, wantsData: bool, capacity: nat, checkCRC: bool): (o: Outcome)
    ensures o.stored <==> WaitFrom(r, waitIRq, 0) == Completed && r.errorReg & 0x13 == 0 && wantsData
                          && |r.fifo| <= capacity
    ensures o.stored ==> o.data == r.fifo && o.validBits == RxLastBits(r.control)
    ensures o.status == Timeout <==> WaitFrom(r, waitIRq, 0) != Completed
    ensures o.status == Error <==> WaitFrom(r, waitIRq, 0) == Completed && r.errorReg & 0x13 != 0
    ensures o.status == Collision ==> r.errorReg & 0x08 != 0 && (o.stored || !wantsData)
    ensures o.status == Ok <==>
              WaitFrom(r, waitIRq, 0) == Completed && r.errorReg & 0x1B == 0
              && (wantsData ==> |r.fifo| <= capacity)
              && (wantsData && checkCRC ==> RxLastBits(r.control) == 0 && CrcIntact(r.fifo))
    ensures o.status == MifareNack ==> checkCRC && |r.fifo| == 1 && RxLastBits(r.control) == 4
    ensures o.status in {Ok, Timeout, Error, NoRoom, Collision, MifareNack, CrcWrong}
  {
    if WaitFrom(r, waitIRq, 0) != Completed then Outcome(Timeout, false, [], 0)
    else if r.errorReg & 0x13 != 0 then Outcome(Error, false, [], 0)
    else if wantsData && |r.fifo| > capacity then Outcome(NoRoom, false, [], 0)
    else
      var vb := RxLastBits(r.control);
      var o := if wantsData then Outcome(Ok, true, r.fifo, vb) else Outcome(Ok, false, [], 0);
      if r.errorReg & 0x08 != 0 then o.(status := Collision)
      else if !(wantsData && checkCRC) then o
      else if |r.fifo| == 1 && vb == 4 then o.(status := MifareNack)
      else if |r.fifo| < 2 || vb != 0 then o.(status := CrcWrong)
      else if !CrcIntact(r.fifo) then o.(status := CrcWrong)
      else o
  }

  /** `buf` with `data` copied in at `offset`, as mfrc522_recv copies the FIFO. */
  function Placed(buf: seq<byte>, offset: nat, data: seq<byte>): (r: seq<byte>)
    requires offset + |data| <= |buf|
    ensures |r| == |buf|
    ensures forall i :: offset <= i < offset + |data| ==> r[i] == data[i - offset]
    ensures forall i :: 0 <= i < |buf| && !(offset <= i < offset + |data|) ==> r[i] == buf[i]
  {
    seq(|buf|, i requires 0 <= i < |buf| => if offset <= i < offset + |data| then data[i - offset] else buf[i])
  }

  /** `rc52x_t` seen by the driver: the rounds still to come, the commands started, CollReg. */
  class Chip {
    var script: seq<Round>
    var log: seq<Command>
    var collReg: byte

    constructor (rounds: seq<Round>)
      ensures script == rounds && log == []
    {
      script := rounds;
      log := [];
      collReg := 0;
    }

    /**
     * PCD_CommunicateWithPICC: load the FIFO, start `command`, poll
     * ComIrqReg at most 2000 times, then classify.  `back[offset..]` is the
     * answer buffer of `capacity` bytes (absent when null) and `txLastBits`
     * is `*validBits` (0 when that pointer is null); `validBits` is what
     * the source leaves in `*validBits`.
     */
    method CommunicateWithPICC(command: byte, waitIRq: byte, send: seq<byte>, back: array?<byte>, offset: nat,
                               capacity: nat, txLastBits: uint8, rxAlign: uint8, checkCRC: bool)
      returns (status: Status, backLen: nat, validBits: nat)
      requires back != null ==> offset + capacity <= back.Length
      modifies this, back
      ensures log == old(log) + [Command(command, send, BitFraming(rxAlign, txLastBits))]
      ensures script == Rest(old(script)) && collReg == Next(old(script)).collReg
      ensures var o := Communicate(Next(old(script)), waitIRq, back != null, capacity, checkCRC);
              status == o.status
              && (o.stored ==> back != null && backLen == |o.data| && validBits == o.validBits
                               && back[..] == Placed(old(back[..]), offset, o.data))
              && (!o.stored ==> backLen == capacity && validBits == txLastBits
                                && (back != null ==> back[..] == old(back[..])))
    {
      var r := Next(script);
      log := log + [Command(command, send, BitFraming(rxAlign, txLastBits))];
      script := Rest(script);
      collReg := r.collReg;
      var completed := WaitForCommand(r, waitIRq);
      if !completed {
        return Timeout, capacity, txLastBits;
      }
      status, backLen, validBits := Collect(r, waitIRq, back, offset, capacity, txLastBits, checkCRC);
    }

    /** PCD_TransceiveData: the Transceive command, done on RxIRq or IdleIRq. */
    method TransceiveData(send: seq<byte>, back: array?<byte>, offset: nat, capacity: nat,
                          txLastBits: uint8, rxAlign: uint8, checkCRC: bool)
      returns (status: Status, backLen: nat, validBits: nat)
      requires back != null ==> offset + capacity <= back.Length
      modifies this, back
      ensures log == old(log) + [Command(CMD_TRANSCEIVE, send, BitFraming(rxAlign, txLastBits))]
      ensures script == Rest(old(script)) && collReg == Next(old(script)).collReg
      ensures var o := Communicate(Next(old(script)), WAIT_TRANSCEIVE, back != null, capacity, checkCRC);
              status == o.status
              && (o.stored ==> back != null && backLen == |o.data| && validBits == o.validBits
                               && back[..] == Placed(old(back[..]), offset, o.data))
              && (!o.stored ==> backLen == capacity && validBits == txLastBits
                                && (back != null ==> back[..] == old(back[..])))
    {
      status, backLen, validBits :=
        CommunicateWithPICC(CMD_TRANSCEIVE, WAIT_TRANSCEIVE, send, back, offset, capacity, txLastBits, rxAlign, checkCRC);
    }
  }

  /**
   * The polling loop of PCD_CommunicateWithPICC: at most 2000 ComIrqReg
   * reads, leaving on a completion bit; `completed` is false where the
   * source returns STATUS_TIMEOUT (timer bit, or no event at all).
   */
  method WaitForCommand(r: Round, waitIRq: byte) returns (completed: bool)
    ensures completed <==> WaitFrom(r, waitIRq, 0) == Completed
  {
    var i := POLLS;
    while i > 0
      invariant 0 <= i <= POLLS
      invariant WaitFrom(r, waitIRq, POLLS - i) == WaitFrom(r, waitIRq, 0)
    {
      var n := IrqRead(r, POLLS - i);
      if n & waitIRq != 0 {
        break;
      }
      if n & 0x01 != 0 {
        return false;
      }
      i := i - 1;
    }
    if i == 0 {
      return false;
    }
    return true;
  }

  /**
   * The rest of PCD_CommunicateWithPICC once the command completed: error
   * check, FIFO read-out, collision and CRC_A checks.
   */
  method Collect(r: Round, waitIRq: byte, back: array?<byte>, offset: nat, capacity: nat, txLastBits: uint8,
                 checkCRC: bool)
    returns (status: Status, backLen: nat, validBits: nat)
    requires WaitFrom(r, waitIRq, 0) == Completed
    requires back != null ==> offset + capacity <= back.Length
    modifies back
    ensures var o := Communicate(r, waitIRq, back != null, capacity, checkCRC);
            status == o.status
            && (o.stored ==> back != null && backLen == |o.data| && validBits == o.validBits
                             && back[..] == Placed(old(back[..]), offset, o.data))
            && (!o.stored ==> backLen == capacity && validBits == txLastBits
                              && (back != null ==> back[..] == old(back[..])))
  {
    backLen, validBits := capacity, txLastBits;
    var errorRegValue := r.errorReg;
    if errorRegValue & 0x13 != 0 {
      return Error, backLen, validBits;
    }
    var rxLastBits := 0;
    if back != null {
      var n := |r.fifo|;
      if n > capacity {
        return NoRoom, backLen, validBits;
      }
      backLen := n;
      Recv(back, offset, r.fifo);
      rxLastBits := RxLastBits(r.control);
      validBits := rxLastBits;
    }
    if errorRegValue & 0x08 != 0 {
      return Collision, backLen, validBits;
    }
    if back != null && checkCRC {
      if backLen == 1 && rxLastBits == 4 {
        return MifareNack, backLen, validBits;
      }
      if backLen < 2 || rxLastBits != 0 {
        return CrcWrong, backLen, validBits;
      }
      var intact := CheckCrc(back, offset, backLen, r.fifo);
      if !intact {
        return CrcWrong, backLen, validBits;
      }
    }
    return Ok, backLen, validBits;
  }

  /**
   * The CRC_A check of PCD_CommunicateWithPICC on the `len` bytes received
   * at `back[offset..]`: the CRC_A of all but the last two must equal those two.
   */
  method CheckCrc(back: array<byte>, offset: nat, len: nat, data: seq<byte>) returns (intact: bool)
    requires 2 <= len == |data| && offset + len <= back.Length && back[offset..offset + len] == data
    ensures intact <==> CrcIntact(data)
  {
    assert back[offset..offset + len - 2] == data[..len - 2];
    var controlBuffer := CrcA(back[offset..offset + len - 2]);
    intact := back[offset + len - 2] == controlBuffer[0] && back[offset + len - 1] == controlBuffer[1];
    assert back[offset + len - 2] == data[len - 2] && back[offset + len - 1] == data[len - 1];
    assert intact <==> data[len - 2..] == controlBuffer;
  }

  /** mfrc522_recv: the FIFO bytes copied verbatim into `back[offset..]`. */
  method Recv(back: array<byte>, offset: nat, data: seq<byte>)
    requires offset + |data| <= back.Length
    modifies back
    ensures back[..] == Placed(old(back[..]), offset, data)
  {
    var k := 0;
    while k < |data|
      invariant 0 <= k <= |data|
      invariant forall i :: 0 <= i < back.Length ==>
                  back[i] == if offset <= i < offset + k then data[i - offset] else old(back[i])
    {
      back[offset + k] := data[k];
      k := k + 1;
    }
    assert forall i :: 0 <= i < back.Length ==> back[i] == Placed(old(back[..]), offset, data)[i];
  }

  // ---------------------------------------------------------------- REQA / WUPA, HLTA

  /**
   * PICC_REQA_or_WUPA: a 7-bit frame holding `command`; the answer must be
   * exactly two whole bytes, the ATQA.
   */
  method RequestOrWakeup(chip: Chip, command: byte, bufferATQA: array?<byte>, bufferSize: nat)
    returns (status: Status, size: nat)
    requires bufferATQA != null ==> bufferSize <= bufferATQA.Length
    modifies chip, bufferATQA
    ensures bufferATQA == null || bufferSize < 2 ==>
              status == NoRoom && size == bufferSize && chip.log == old(chip.log) && chip.script == old(chip.script)
              && (bufferATQA != null ==> bufferATQA[..] == old(bufferATQA[..]))
    ensures bufferATQA != null && bufferSize >= 2 ==>
              chip.log == old(chip.log) + [Command(CMD_TRANSCEIVE, [command], 0x07)]
              && chip.script == Rest(old(chip.script))
              && var r := Next(old(chip.script));
                 var o := Communicate(r, WAIT_TRANSCEIVE, true, bufferSize, false);
                 (o.status != Ok ==> status == o.status && bufferATQA[..] == (if o.stored then Placed(old(bufferATQA[..]), 0, r.fifo) else old(bufferATQA[..])))
                 && (o.status == Ok ==> bufferATQA[..] == Placed(old(bufferATQA[..]), 0, r.fifo) && size == |r.fifo|
                                        && (status == Ok <==> |r.fifo| == 2 && RxLastBits(r.control) == 0)
                                        && (status != Ok ==> status == Error))
  {
    if bufferATQA == null || bufferSize < 2 {
      return NoRoom, bufferSize;
    }
    var validBits := 7;
    status, size, validBits := chip.TransceiveData([command], bufferATQA, 0, bufferSize, validBits, 0, false);
    if status != Ok {
      return;
    }
    if size != 2 || validBits != 0 {
      return Error, size;
    }
    return Ok, size;
  }

  /** PICC_HaltA: HLTA with a software CRC_A, four bytes, no answer expected. */
  method HaltA(chip: Chip) returns (status: Status)
    modifies chip
    ensures chip.log == old(chip.log) + [Command(CMD_TRANSCEIVE, [HLTA, 0x00] + CrcA([HLTA, 0x00]), 0)]
    ensures chip.script == Rest(old(chip.script))
    ensures status == Picc.HaltStatus(Communicate(Next(old(chip.script)), WAIT_TRANSCEIVE, false, 0, false).status)
  {
    var buffer := [HLTA, 0x00];
    buffer := buffer + CrcA(buffer);
    var result, backLen, validBits := chip.TransceiveData(buffer, null, 0, 0, 0, 0, false);
    if result == Timeout {
      return Ok;
    }
    if result == Ok {
      return Error;
    }
    return result;
  }

  // ---------------------------------------------------------------- MIFARE

  /** A Crypto1 key, `MIFARE_Key`. */
  class Key {
    const keyByte: array<byte>

    constructor (k: seq<byte>)
      requires |k| == MF_KEY_SIZE
      ensures keyByte.Length == MF_KEY_SIZE && keyByte[..] == k && fresh(keyByte)
    {
      keyByte := new byte[MF_KEY_SIZE](i => if 0 <= i < |k| then k[i] else 0);
    }
  }

  /** The UID record `Uid` that the MFRC522 driver fills in. */
  class Uid {
    var size: uint8
    const uidByte: array<byte>
    var sak: byte

    ghost predicate Valid()
      reads this
    {
      uidByte.Length == 10
    }

    constructor ()
      ensures Valid() && fresh(uidByte) && size == 0
    {
      size := 0;
      uidByte := new byte[10];
      sak := 0;
    }
  }

  /**
   * The 12-byte MFAuthent frame: command, block address, the six key bytes
   * and the last four UID bytes (AN10927 section 3.2.5).
   */
  function AuthFrame(command: byte, blockAddr: byte, key: seq<byte>, uid: seq<byte>, size: nat): (f: seq<byte>)
    requires |key| == MF_KEY_SIZE && 4 <= size <= |uid|
    ensures |f| == 12 && f[0] == command && f[1] == blockAddr
    ensures f[2..8] == key && f[8..] == uid[size - 4..size]
  {
    [command, blockAddr] + key + uid[size - 4..size]
  }

  /** PCD_Authenticate: MFAuthent with the frame above, done on IdleIRq, nothing read back. */
  method Authenticate(chip: Chip, command: byte, blockAddr: byte, key: Key, uid: Uid) returns (status: Status)
    requires uid.Valid() && key.keyByte.Length == MF_KEY_SIZE && 4 <= uid.size <= 10
    modifies chip
    ensures chip.log == old(chip.log) + [Command(CMD_MF_AUTHENT, AuthFrame(command, blockAddr, key.keyByte[..],
                                                                        uid.uidByte[..], uid.size), 0)]
    ensures chip.script == Rest(old(chip.script))
    ensures status == Communicate(Next(old(chip.script)), WAIT_AUTHENT, false, 0, false).status
  {
    var sendData := AuthSendData(command, blockAddr, key, uid);
    var backLen, validBits;
    status, backLen, validBits := chip.CommunicateWithPICC(CMD_MF_AUTHENT, WAIT_AUTHENT, sendData[..], null, 0, 0, 0, 0, false);
  }

  /** The fill loops of PCD_Authenticate. */
  method AuthSendData(command: byte, blockAddr: byte, key: Key, uid: Uid) returns (sendData: array<byte>)
    requires uid.Valid() && key.keyByte.Length == MF_KEY_SIZE && 4 <= uid.size <= 10
    ensures fresh(sendData) && sendData[..] == AuthFrame(command, blockAddr, key.keyByte[..], uid.uidByte[..], uid.size)
  {
    sendData := new byte[12];
    sendData[0] := command;
    sendData[1] := blockAddr;
    var i := 0;
    while i < MF_KEY_SIZE
      invariant 0 <= i <= MF_KEY_SIZE
      invariant sendData[0] == command && sendData[1] == blockAddr
      invariant sendData[2..2 + i] == key.keyByte[..i]
    {
      sendData[2 + i] := key.keyByte[i];
      i := i + 1;
    }
    i := 0;
    while i < 4
      invariant 0 <= i <= 4
      invariant sendData[0] == command && sendData[1] == blockAddr
      invariant sendData[2..8] == key.keyByte[..]
      invariant sendData[8..8 + i] == uid.uidByte[uid.size - 4..uid.size - 4 + i]
    {
      sendData[8 + i] := uid.uidByte[i + uid.size - 4];
      i := i + 1;
    }
    assert sendData[..] == [command, blockAddr] + sendData[2..8] + sendData[8..12];
  }

  /**
   * The status PCD_MIFARE_Transceive reports once the command ran: a
   * timeout is success only when accepted, and otherwise success needs a
   * 4-bit answer equal to MF_ACK.
   */
  function AckStatus(r: Round, acceptTimeout: bool): (s: Status)
    ensures var o := Communicate(r, WAIT_TRANSCEIVE, true, 18, false);
            (s == Ok <==> (acceptTimeout && o.status == Timeout)
                          || (o.status == Ok && r.fifo == [MF_ACK] && RxLastBits(r.control) == 4))
            && (s == MifareNack <==> o.status == Ok && |r.fifo| == 1 && RxLastBits(r.control) == 4 && r.fifo[0] != MF_ACK)
            && (o.status != Ok && !(acceptTimeout && o.status == Timeout) ==> s == o.status)
            && (o.status == Ok && !(|r.fifo| == 1 && RxLastBits(r.control) == 4) ==> s == Error)
  {
    var o := Communicate(r, WAIT_TRANSCEIVE, true, 18, false);
    if acceptTimeout && o.status == Timeout then Ok
    else if o.status != Ok then o.status
    else if |o.data| != 1 || o.validBits != 4 then Error
    else if o.data[0] != MF_ACK then MifareNack
    else Ok
  }

  /**
   * PCD_MIFARE_Transceive: append CRC_A to at most 16 bytes, transceive
   * into an 18-byte buffer and expect the 4-bit ACK.
   */
  method MifareTransceive(chip: Chip, sendData: array?<byte>, sendLen: nat, acceptTimeout: bool) returns (status: Status)
    requires sendData != null && sendLen <= 16 ==> sendLen <= sendData.Length
    modifies chip
    ensures sendData == null || sendLen > 16 ==>
              status == Invalid && chip.log == old(chip.log) && chip.script == old(chip.script)
    ensures sendData != null && sendLen <= 16 ==>
              chip.log == old(chip.log) + [Command(CMD_TRANSCEIVE, sendData[..sendLen] + CrcA(sendData[..sendLen]), 0)]
              && chip.script == Rest(old(chip.script))
              && status == AckStatus(Next(old(chip.script)), acceptTimeout)
  {
    if sendData == null || sendLen > 16 {
      return Invalid;
    }
    var cmdBuffer := WithCrc(sendData, sendLen);
    var cmdBufferSize, validBits;
    var result;
    result, cmdBufferSize, validBits :=
      chip.CommunicateWithPICC(CMD_TRANSCEIVE, WAIT_TRANSCEIVE, cmdBuffer[..sendLen + 2], cmdBuffer, 0, 18, 0, 0, false);
    if acceptTimeout && result == Timeout {
      return Ok;
    }
    if result != Ok {
      return result;
    }
    if cmdBufferSize != 1 || validBits != 4 {
      return Error;
    }
    if cmdBuffer[0] != MF_ACK {
      return MifareNack;
    }
    return Ok;
  }

  /** The 18-byte command buffer of PCD_MIFARE_Transceive: the data, then its CRC_A. */
  method WithCrc(sendData: array<byte>, sendLen: nat) returns (cmdBuffer: array<byte>)
    requires sendLen <= 16 && sendLen <= sendData.Length
    ensures fresh(cmdBuffer) && cmdBuffer.Length == 18
    ensures cmdBuffer[..sendLen + 2] == sendData[..sendLen] + CrcA(sendData[..sendLen])
  {
    cmdBuffer := new byte[18];
    var i := 0;
    while i < sendLen
      invariant 0 <= i <= sendLen
      invariant cmdBuffer[..i] == sendData[..i]
    {
      cmdBuffer[i] := sendData[i];
      i := i + 1;
    }
    var crc := CrcA(cmdBuffer[..sendLen]);
    cmdBuffer[sendLen] := crc[0];
    cmdBuffer[sendLen + 1] := crc[1];
    assert cmdBuffer[..sendLen + 2] == cmdBuffer[..sendLen] + crc;
  }
}
