/**
 * The command engine of the CLRC663 driver, drivers/rc66x.c:
 * RC66X_CommunicateWithPICC (framing registers, the IRQ0/IRQ1 polling loop
 * and the status classification) and RC66X_TransceiveData.
 *
 * As for the MFRC522, the chip is a scripted mock: each command consumes
 * one `Round` of register values, and a chip whose script is used up never
 * raises an interrupt.
 */
module Rc66x {
  import opened Pdc

  /** CommandReg value of the Transceive command. */
  const CMD_TRANSCEIVE: byte := 0x07

  /** IRQ0 bits that end a Transceive: RxIRq, IdleIRq and ErrIRq. */
  const WAIT_TRANSCEIVE: byte := 0x16

  /** IRQ0/IRQ1 read pairs before the driver gives up. */
  const POLLS: nat := 2000

  /** The preset value that switches the CRC unit on. */
  const CRC_ON: byte := 0x19

  /**
   * What the driver reads while one command runs: successive IRQ0 and IRQ1
   * values (0 once a list is exhausted), the Error register, the FIFO
   * contents (FIFOLength is their count) and RxBitCtrl after the reception.
   */
  datatype Round = Round(irq0: seq<byte>, irq1: seq<byte>, error: byte, fifo: seq<byte>, rxBitCtrl: byte)

  /** A chip that raises no interrupt at all. */
  const Dead := Round([], [], 0, [], 0)

  function Next(script: seq<Round>): Round
  {
    if script == [] then Dead else script[0]
  }

  /**
   * The registers RC66X_CommunicateWithPICC writes before it starts a
   * command: the command, the FIFO bytes, TxDataNum, RxBitCtrl and the two
   * CRC presets.
   */
  datatype Setup = Setup(command: byte, send: seq<byte>, txDataNum: byte, rxBitCtrl: byte,
                         txCrcPreset: byte, rxCrcPreset: byte)

  /** TxDataNum: DataEn (bit 3) set, TxLastBits or-ed in as given. */
  function TxDataNum(txLastBits: byte): (b: byte)
    ensures b & 0x08 == 0x08 && b & 0xF7 == txLastBits & 0xF7
    ensures txLastBits < 8 ==> b & 0x07 == txLastBits && b >> 3 == 1
  {
    0x08 | txLastBits
  }

  /** RxBitCtrl: ValuesAfterColl (bit 7) set, RxAlign in bits 6..4, nothing else. */
  function RxBitCtrl(rxAlign: byte): (b: byte)
    ensures b >> 7 == 1 && (b >> 4) & 0x07 == rxAlign & 0x07 && b & 0x0F == 0
  {
    0x80 | ((0x07 & rxAlign) << 4)
  }

  /** TxCrcPreset / RxCrcPreset: the CRC unit is on exactly when asked for. */
  function CrcPreset(on: bool): (b: byte)
    ensures on <==> b != 0
    ensures on ==> b == CRC_ON
  {
    if on then CRC_ON else 0x00
  }

  /** The `k`-th read of an interrupt register. */
  function IrqRead(values: seq<byte>, k: nat): byte
  {
    if k < |values| then values[k] else 0
  }

  /** How the wait for a command ends. */
  datatype Wait = Completed | TimerIrq | Expired

  /** Read pair `k` shows neither a completion bit in IRQ0 nor the timer bit in IRQ1. */
  predicate Quiet(r: Round, waitIRq: byte, k: nat)
  {
    IrqRead(r.irq0, k) & waitIRq == 0 && IrqRead(r.irq1, k) & 0x01 == 0
  }

  /** The polling loop from read pair `k` on: IRQ0 is tested before IRQ1. */
  function WaitFrom(r: Round, waitIRq: byte, k: nat): Wait
    decreases POLLS - k, r
  {
    if k >= POLLS then Expired
    else if IrqRead(r.irq0, k) & waitIRq != 0 then Completed
    else if IrqRead(r.irq1, k) & 0x01 != 0 then TimerIrq
    else WaitFrom(r, waitIRq, k + 1)
  }

  /**
   * The command completes exactly when, among the first 2000 read pairs,
   * one shows a completion bit in IRQ0 and every pair before it is quiet;
   * otherwise the driver reports STATUS_TIMEOUT.
   */
  lemma {:induction false} WaitCompleted(r: Round, waitIRq: byte, k: nat)
    requires k <= POLLS
    ensures WaitFrom(r, waitIRq, k) == Completed <==>
            exists m :: k <= m < POLLS && IrqRead(r.irq0, m) & waitIRq != 0
                        && forall j :: k <= j < m ==> Quiet(r, waitIRq, j)
    decreases POLLS - k
  {
    if k < POLLS {
      WaitCompleted(r, waitIRq, k + 1);
      if IrqRead(r.irq0, k) & waitIRq != 0 {
        assert WaitFrom(r, waitIRq, k) == Completed;
      } else if IrqRead(r.irq1, k) & 0x01 != 0 {
        assert !Quiet(r, waitIRq, k);
      } else {
        assert Quiet(r, waitIRq, k);
        assert WaitFrom(r, waitIRq, k) == WaitFrom(r, waitIRq, k + 1);
        if WaitFrom(r, waitIRq, k) == Completed {
          var m :| k + 1 <= m < POLLS && IrqRead(r.irq0, m) & waitIRq != 0
                   && forall j :: k + 1 <= j < m ==> Quiet(r, waitIRq, j);
          assert forall j :: k <= j < m ==> Quiet(r, waitIRq, j);
        }
        if exists m :: k <= m < POLLS && IrqRead(r.irq0, m) & waitIRq != 0
                       && forall j :: k <= j < m ==> Quiet(r, waitIRq, j) {
          var m :| k <= m < POLLS && IrqRead(r.irq0, m) & waitIRq != 0
                   && forall j :: k <= j < m ==> Quiet(r, waitIRq, j);
          assert m != k;
          assert forall j :: k + 1 <= j < m ==> Quiet(r, waitIRq, j);
        }
      }
    }
  }

  /**
   * The out-values of RC66X_CommunicateWithPICC: its status and, when the
   * FIFO was read (`stored`), the bytes copied out and RxLastBits.
   */
  datatype Outcome = Outcome(status: Status, stored: bool, data: seq<byte>, validBits: nat)

  /**
   * The status classification of RC66X_CommunicateWithPICC for a command
   * that wants an answer of at most `capacity` bytes (`wantsData`).  The
   * CRC_A value itself is never compared, only the answer's shape.
   */
  function Communicate(r: Round, waitIRq: byte, wantsData: bool, capacity: nat, recvCRC: bool): (o: Outcome)
    ensures o.status == Timeout <==> WaitFrom(r, waitIRq, 0) != Completed
    ensures o.status == Error <==> WaitFrom(r, waitIRq, 0) == Completed && r.error & 0x63 != 0
    ensures o.stored <==> WaitFrom(r, waitIRq, 0) == Completed && r.error & 0x63 == 0 && wantsData
                          && |r.fifo| <= capacity
    ensures o.stored ==> o.data == r.fifo && o.validBits == RxLastBits(r.rxBitCtrl)
    ensures o.status == NoRoom <==>
              WaitFrom(r, waitIRq, 0) == Completed && r.error & 0x63 == 0 && wantsData && |r.fifo| > capacity
    ensures o.status == Collision <==>
              WaitFrom(r, waitIRq, 0) == Completed && r.error & 0x63 == 0 && r.error & 0x04 != 0
              && (wantsData ==> o.stored)
    ensures o.status == MifareNack <==>
              o.stored && r.error & 0x04 == 0 && recvCRC && |r.fifo| == 1 && RxLastBits(r.rxBitCtrl) == 4
    ensures o.status == Ok <==>
              WaitFrom(r, waitIRq, 0) == Completed && r.error & 0x67 == 0
              && (wantsData ==> |r.fifo| <= capacity)
              && (wantsData && recvCRC ==> |r.fifo| >= 2 && RxLastBits(r.rxBitCtrl) == 0)
    ensures o.status in {Ok, Timeout, Error, NoRoom, Collision, MifareNack, CrcWrong}
  {
    if WaitFrom(r, waitIRq, 0) != Completed then Outcome(Timeout, false, [], 0)
    else if r.error & 0x63 != 0 then Outcome(Error, false, [], 0)
    else if wantsData && |r.fifo| > capacity then Outcome(NoRoom, false, [], 0)
    else
      var vb := RxLastBits(r.rxBitCtrl);
      var o := if wantsData then Outcome(Ok, true, r.fifo, vb) else Outcome(Ok, false, [], 0);
      if r.error & 0x04 != 0 then o.(status := Collision)
      else if !(wantsData && recvCRC) then o
      else if |r.fifo| == 1 && vb == 4 then o.(status := MifareNack)
      else if |r.fifo| < 2 || vb != 0 then o.(status := CrcWrong)
      else o
  }

  /** The wait depends on the interrupt registers only. */
  lemma {:induction false} WaitSame(r: Round, r': Round, waitIRq: byte, k: nat)
    requires r.irq0 == r'.irq0 && r.irq1 == r'.irq1
    ensures WaitFrom(r, waitIRq, k) == WaitFrom(r', waitIRq, k)
    decreases POLLS - k
  {
    if k < POLLS {
      WaitSame(r, r', waitIRq, k + 1);
    }
  }

  /**
   * The CRC_A check is disabled: with recvCRC, an answer whose last two
   * bytes are replaced by any others is classified the same way.
   */
  lemma {:induction false} CrcValueIgnored(r: Round, waitIRq: byte, wantsData: bool, capacity: nat, recvCRC: bool, crc: seq<byte>)
    requires |r.fifo| >= 2 && |crc| == 2
    ensures var r' := r.(fifo := r.fifo[..|r.fifo| - 2] + crc);
            Communicate(r', waitIRq, wantsData, capacity, recvCRC).status == Communicate(r, waitIRq, wantsData, capacity, recvCRC).status
  {
    WaitSame(r, r.(fifo := r.fifo[..|r.fifo| - 2] + crc), waitIRq, 0);
  }

  /**
   * A command that completes with only CollErr set in the Error register
   * ends in STATUS_COLLISION; RC66X_TransceiveData passes that status on
   * without writing a collision position (Chip.TransceiveData).  Here the
   * first IRQ0 read already shows a completion bit and one byte is received.
   */
  lemma CollisionWithoutPosition()
    ensures Communicate(Round([0x04], [], 0x04, [0x12], 0), WAIT_TRANSCEIVE, true, 5, false).status == Collision
  {
    assert WaitFrom(Round([0x04], [], 0x04, [0x12], 0), WAIT_TRANSCEIVE, 0) == Completed;
  }

  /** The `rc66x_t` seen by the driver: the rounds still to come and the commands started. */
  class Chip {
    var script: seq<Round>
    var log: seq<Setup>

    constructor (rounds: seq<Round>)
      ensures script == rounds && log == []
    {
      script := rounds;
      log := [];
    }

    /**
     * RC66X_CommunicateWithPICC.  `back` is backData and `backLen` the
     * pointer of the same name (its value is the room in `back`);
     * `validBits` is the in/out pointer whose value gives TxLastBits.  The
     * results are the values the pointers hold afterwards.
     */
    method CommunicateWithPICC(command: byte, waitIRq: byte, send: seq<byte>, back: array?<byte>,
                               backLen: Option<uint8>, validBits: Option<uint8>, rxAlign: uint8,
                               sendCRC: bool, recvCRC: bool)
      returns (status: Status, backLenOut: Option<uint8>, validBitsOut: Option<uint8>)
      requires back != null && backLen.Some? ==> backLen.value <= back.Length
      modifies this, back
      ensures var txLastBits := if validBits.Some? then validBits.value else 0;
              log == old(log) + [Setup(command, send, TxDataNum(txLastBits as byte), RxBitCtrl(rxAlign as byte),
                                       CrcPreset(sendCRC), CrcPreset(recvCRC))]
      ensures script == Rest(old(script))
      ensures var o := Communicate(Next(old(script)), waitIRq, back != null && backLen.Some?,
                                   if backLen.Some? then backLen.value else 0, recvCRC);
              status == o.status
              && (o.stored ==> back != null && backLenOut == Some(|o.data|)
                               && validBitsOut == (if validBits.Some? then Some(o.validBits) else None)
                               && back[..|o.data|] == o.data && back[|o.data|..] == old(back[|o.data|..]))
              && (!o.stored ==> backLenOut == backLen && validBitsOut == validBits
                                && (back != null ==> back[..] == old(back[..])))
    {
      var txLastBits: uint8 := if validBits.Some? then validBits.value else 0;
      log := log + [Setup(command, send, TxDataNum(txLastBits as byte), RxBitCtrl(rxAlign as byte),
                          CrcPreset(sendCRC), CrcPreset(recvCRC))];
      var r := Next(script);
      script := Rest(script);
      var completed := WaitForCommand(r, waitIRq);
      if !completed {
        ghost var o := Communicate(r, waitIRq, back != null && backLen.Some?,
                                   if backLen.Some? then backLen.value else 0, recvCRC);
        assert o.status == Timeout && !o.stored;
        return Timeout, backLen, validBits;
      }
      status, backLenOut, validBitsOut := Collect(r, waitIRq, back, backLen, validBits, recvCRC);
    }

    /**
     * RC66X_TransceiveData: the Transceive command, done on RxIRq, IdleIRq
     * or ErrIRq.  It never writes through its `collpos` pointer.
     */
    method TransceiveData(send: seq<byte>, back: array?<byte>, backLen: Option<uint8>, validBits: Option<uint8>,
                          rxAlign: uint8, collpos: array?<byte>, sendCRC: bool, recvCRC: bool)
      returns (status: Status, backLenOut: Option<uint8>, validBitsOut: Option<uint8>)
      requires back != null && backLen.Some? ==> backLen.value <= back.Length
      modifies this, back
      ensures var txLastBits := if validBits.Some? then validBits.value else 0;
              log == old(log) + [Setup(CMD_TRANSCEIVE, send, TxDataNum(txLastBits as byte), RxBitCtrl(rxAlign as byte),
                                       CrcPreset(sendCRC), CrcPreset(recvCRC))]
      ensures script == Rest(old(script))
      ensures var o := Communicate(Next(old(script)), WAIT_TRANSCEIVE, back != null && backLen.Some?,
                                   if backLen.Some? then backLen.value else 0, recvCRC);
              status == o.status
              && (o.stored ==> back != null && backLenOut == Some(|o.data|)
                               && validBitsOut == (if validBits.Some? then Some(o.validBits) else None)
                               && back[..|o.data|] == o.data && back[|o.data|..] == old(back[|o.data|..]))
              && (!o.stored ==> backLenOut == backLen && validBitsOut == validBits
                                && (back != null ==> back[..] == old(back[..])))
      ensures collpos != null && collpos != back ==> collpos[..] == old(collpos[..])
    {
      status, backLenOut, validBitsOut :=
        CommunicateWithPICC(CMD_TRANSCEIVE, WAIT_TRANSCEIVE, send, back, backLen, validBits, rxAlign, sendCRC, recvCRC);
    }
  }

  /**
   * The polling loop: at most 2000 IRQ0/IRQ1 read pairs, leaving on a
   * completion bit; `completed` is false where the source returns
   * STATUS_TIMEOUT (timer bit, or 2000 quiet pairs).
   */
  method WaitForCommand(r: Round, waitIRq: byte) returns (completed: bool)
    ensures completed <==> WaitFrom(r, waitIRq, 0) == Completed
  {
    var i := POLLS;
    while i > 0
      invariant 0 <= i <= POLLS
      invariant WaitFrom(r, waitIRq, POLLS - i) == WaitFrom(r, waitIRq, 0)
    {
      var irq0 := IrqRead(r.irq0, POLLS - i);
      var irq1 := IrqRead(r.irq1, POLLS - i);
      if irq0 & waitIRq != 0 {
        break;
      }
      if irq1 & 0x01 != 0 {
        return false;
      }
      i := i - 1;
    }
    if i == 0 {
      return false;
    }
    return true;
  }

  /**
   * The rest of RC66X_CommunicateWithPICC once the command completed:
   * error check, FIFO read-out, collision and CRC shape checks.
   */
  method Collect(r: Round, waitIRq: byte, back: array?<byte>, backLen: Option<uint8>, validBits: Option<uint8>,
                 recvCRC: bool)
    returns (status: Status, backLenOut: Option<uint8>, validBitsOut: Option<uint8>)
    requires WaitFrom(r, waitIRq, 0) == Completed
    requires back != null && backLen.Some? ==> backLen.value <= back.Length
    modifies back
    ensures var o := Communicate(r, waitIRq, back != null && backLen.Some?,
                                 if backLen.Some? then backLen.value else 0, recvCRC);
            status == o.status
            && (o.stored ==> back != null && backLenOut == Some(|o.data|)
                             && validBitsOut == (if validBits.Some? then Some(o.validBits) else None)
                             && back[..|o.data|] == o.data && back[|o.data|..] == old(back[|o.data|..]))
            && (!o.stored ==> backLenOut == backLen && validBitsOut == validBits
                              && (back != null ==> back[..] == old(back[..])))
  {
    backLenOut, validBitsOut := backLen, validBits;
    var errorRegValue := r.error;
    if errorRegValue & 0x63 != 0 {
      return Error, backLenOut, validBitsOut;
    }
    var rxLastBits := 0;
    var n := 0;
    if back != null && backLen.Some? {
      n := |r.fifo|;
      if n > backLen.value {
        return NoRoom, backLenOut, validBitsOut;
      }
      backLenOut := Some(n);
      Recv(back, r.fifo);
      rxLastBits := RxLastBits(r.rxBitCtrl);
      if validBits.Some? {
        validBitsOut := Some(rxLastBits);
      }
    }
    if errorRegValue & 0x04 != 0 {
      return Collision, backLenOut, validBitsOut;
    }
    if back != null && backLen.Some? && recvCRC {
      if n == 1 && rxLastBits == 4 {
        return MifareNack, backLenOut, validBitsOut;
      }
      if n < 2 || rxLastBits != 0 {
        return CrcWrong, backLenOut, validBitsOut;
      }
    }
    return Ok, backLenOut, validBitsOut;
  }

  /** rc66x_recv on FIFOData: the FIFO bytes copied verbatim to the front of `back`. */
  method Recv(back: array<byte>, data: seq<byte>)
    requires |data| <= back.Length
    modifies back
    ensures back[..|data|] == data && back[|data|..] == old(back[|data|..])
  {
    var i := 0;
    while i < |data|
      invariant 0 <= i <= |data|
      invariant back[..i] == data[..i] && back[i..] == old(back[i..])
    {
      back[i] := data[i];
      i := i + 1;
    }
  }
}
