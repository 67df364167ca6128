/**
 * The older MFRC522 command engine of drivers/rc52x.c: MFRC522_ToCard
 * (interrupt selection, the do-while polling loop, the error and no-tag
 * classification and the received bit length) and rc52x_anticol (REQA,
 * then a cascade level 1 anticollision whose BCC is checked).
 *
 * The chip is a scripted mock: each MFRC522_ToCard consumes one `Round` of
 * register values; a chip whose script is used up reads 0 everywhere.
 */
module Rc52x {
  import opened Pdc
  import Iso14443a

  /** The status codes MI_OK, MI_NOTAGERR and MI_ERR. */
  datatype Mi = MiOk | MiNoTag | MiErr

  function MiCode(s: Mi): (c: int)
    ensures 0 <= c <= 2 && (c == 0 <==> s == MiOk)
  {
    match s
    case MiOk => 0
    case MiNoTag => 1
    case MiErr => 2
  }

  /** CommandReg values. */
  const CMD_TRANSCEIVE: byte := 0x0C
  const CMD_MFAUTHENT: byte := 0x0E

  /** The most bytes copied out of the FIFO (MFRC522_MAX_LEN). */
  const MAX_LEN: nat := 16

  /** Reads of ComIrqReg before the counter `i` runs out. */
  const POLLS: nat := 2000

  /** ErrorReg bits that fail a command: BufferOvfl, ParityErr, ProtocolErr, CollErr. */
  const ERROR_MASK: byte := 0x1B

  /**
   * What the driver reads during one MFRC522_ToCard: the successive
   * ComIrqReg values (0 once the list is exhausted), ErrorReg, FIFOLevelReg,
   * the bytes FIFODataReg yields (0 beyond them) and ControlReg.
   */
  datatype Round = Round(comIrq: seq<byte>, error: byte, level: uint8, fifo: seq<byte>, control: byte)

  /** A chip that never answers. */
  const Dead := Round([], 0, 0, [], 0)

  function Next(script: seq<Round>): Round
  {
    if script == [] then Dead else script[0]
  }

  /** The register writes the driver makes that the model records. */
  datatype Write =
    | SetBitFraming(value: byte)
      /** ComIEnReg, the FIFO contents and CommandReg of one MFRC522_ToCard. */
    | Start(comIEn: byte, send: seq<byte>, command: byte)

  /** The interrupt enable mask and the bits that end the wait. */
  datatype Irq = Irq(irqEn: byte, waitIRq: byte)

  /**
   * MFAuthent waits for IdleIRq, Transceive for RxIRq or IdleIRq, and any
   * other command only for the timer; TimerIRq is enabled for Transceive
   * alone.
   */
  function IrqFor(command: byte): (q: Irq)
    ensures command == CMD_MFAUTHENT ==> q == Irq(0x12, 0x10)
    ensures command == CMD_TRANSCEIVE ==> q == Irq(0x77, 0x30)
    ensures command != CMD_MFAUTHENT && command != CMD_TRANSCEIVE ==> q == Irq(0, 0)
    ensures q.irqEn & 0x01 != 0 <==> command == CMD_TRANSCEIVE
    ensures q.waitIRq & q.irqEn == q.waitIRq
  {
    if command == CMD_MFAUTHENT then Irq(0x12, 0x10)
    else if command == CMD_TRANSCEIVE then Irq(0x77, 0x30)
    else Irq(0, 0)
  }

  /** The `k`-th read of ComIrqReg. */
  function IrqRead(r: Round, k: nat): byte
  {
    if k < |r.comIrq| then r.comIrq[k] else 0
  }

  /** A ComIrqReg value that lets the loop go on: neither TimerIRq nor a wait bit. */
  predicate Quiet(n: byte, waitIRq: byte)
  {
    n & 0x01 == 0 && n & waitIRq == 0
  }

  /** Where the polling loop stops: the last value read and what is left of `i`. */
  datatype PollEnd = PollEnd(n: byte, left: nat)

  /**
   * The do-while loop once `k` reads are done: read ComIrqReg, decrement
   * `i` (which started at 2000), and go on while `i` is not 0 and the value
   * read is quiet.
   */
  function PollFrom(r: Round, waitIRq: byte, k: nat): (p: PollEnd)
    requires k < POLLS
    ensures p.left < POLLS - k
    ensures p.left == 0 || !Quiet(p.n, waitIRq)
    ensures p.n == IrqRead(r, POLLS - 1 - p.left)
    decreases POLLS - k, r
  {
    var n := IrqRead(r, k);
    var i := POLLS - k - 1;
    if i != 0 && Quiet(n, waitIRq) then PollFrom(r, waitIRq, k + 1) else PollEnd(n, i)
  }

  /**
   * The loop stops at the first read that is not quiet, provided it is not
   * the 2000th: `left` is what remains of `i` after it.
   */
  lemma {:induction false} PollStopsAtFirstEvent(r: Round, waitIRq: byte, k: nat, m: nat)
    requires k <= m < POLLS - 1
    requires forall j :: k <= j < m ==> Quiet(IrqRead(r, j), waitIRq)
    requires !Quiet(IrqRead(r, m), waitIRq)
    ensures PollFrom(r, waitIRq, k) == PollEnd(IrqRead(r, m), POLLS - 1 - m)
    decreases m - k
  {
    if k < m {
      assert Quiet(IrqRead(r, k), waitIRq);
      PollStopsAtFirstEvent(r, waitIRq, k + 1, m);
    }
  }

  /**
   * After 1999 quiet reads the loop ends with `i` at 0 whatever the
   * 2000th read shows, so even a completion seen on that read is reported
   * as MI_ERR (see `EventOnLastReadIsLost`).
   */
  lemma {:induction false} PollExhausted(r: Round, waitIRq: byte, k: nat)
    requires k < POLLS
    requires forall j :: k <= j < POLLS - 1 ==> Quiet(IrqRead(r, j), waitIRq)
    ensures PollFrom(r, waitIRq, k) == PollEnd(IrqRead(r, POLLS - 1), 0)
    decreases POLLS - k
  {
    if k < POLLS - 1 {
      assert Quiet(IrqRead(r, k), waitIRq);
      PollExhausted(r, waitIRq, k + 1);
    }
  }

  /**
   * The received length in bits written to `*backLen`: whole bytes, or
   * n - 1 whole bytes and `lastBits` bits of the last, truncated to 16 bits.
   */
  function BitLength(n: uint8, lastBits: nat): (bits: nat)
    requires lastBits < 8
    ensures bits < 0x1_0000
    ensures n > 0 ==> bits == if lastBits == 0 then 8 * n else 8 * (n - 1) + lastBits
    ensures n == 0 && lastBits != 0 ==> bits == 0x1_0000 - 8 + lastBits
  {
    if lastBits != 0 then ((n as int - 1) * 8 + lastBits) % 0x1_0000 else (n * 8) % 0x1_0000
  }

  /** The count of FIFO bytes copied out: FIFOLevel, at least 1 and at most 16. */
  function Clamp(n: uint8): (count: nat)
    ensures 1 <= count <= MAX_LEN
    ensures 1 <= n <= MAX_LEN ==> count == n
  {
    if n == 0 then 1 else if n > MAX_LEN then MAX_LEN else n
  }

  /** The first `count` values FIFODataReg yields. */
  function FifoRead(r: Round, count: nat): (data: seq<byte>)
    ensures |data| == count
    ensures forall j :: 0 <= j < count && j < |r.fifo| ==> data[j] == r.fifo[j]
  {
    seq(count, j => if 0 <= j < |r.fifo| then r.fifo[j] else 0)
  }

  /**
   * The effect of MFRC522_ToCard: its status and, when it wrote them, the
   * bit length stored through `backLen` and the bytes stored in `backData`.
   */
  datatype ToCard = ToCard(status: Mi, bits: Option<nat>, data: seq<byte>)

  function ToCardSpec(r: Round, command: byte): (o: ToCard)
    ensures o.status == MiOk <==>
              var p := PollFrom(r, IrqFor(command).waitIRq, 0);
              p.left != 0 && r.error & ERROR_MASK == 0 && p.n & IrqFor(command).irqEn & 0x01 == 0
    ensures o.status == MiNoTag ==> command == CMD_TRANSCEIVE
    ensures o.bits.Some? <==>
              command == CMD_TRANSCEIVE && PollFrom(r, IrqFor(command).waitIRq, 0).left != 0
              && r.error & ERROR_MASK == 0
    ensures o.bits.Some? ==> o.status != MiErr && o.bits.value == BitLength(r.level, (r.control & 0x07) as nat)
                             && o.data == FifoRead(r, Clamp(r.level))
    ensures o.bits.None? ==> o.data == []
  {
    var q := IrqFor(command);
    var p := PollFrom(r, q.waitIRq, 0);
    if p.left == 0 || r.error & ERROR_MASK != 0 then ToCard(MiErr, None, [])
    else
      var status := if p.n & q.irqEn & 0x01 != 0 then MiNoTag else MiOk;
      if command == CMD_TRANSCEIVE then
        ToCard(status, Some(BitLength(r.level, (r.control & 0x07) as nat)), FifoRead(r, Clamp(r.level)))
      else ToCard(status, None, [])
  }

  /**
   * A command whose completion shows up only on the 2000th ComIrqReg read
   * still fails: the loop has used up `i`, and `i == 0` is taken as a
   * time-out.
   */
  lemma {:induction false} EventOnLastReadIsLost(r: Round, command: byte)
    requires forall j :: 0 <= j < POLLS - 1 ==> Quiet(IrqRead(r, j), IrqFor(command).waitIRq)
    ensures ToCardSpec(r, command) == ToCard(MiErr, None, [])
  {
    PollExhausted(r, IrqFor(command).waitIRq, 0);
  }

  /**
   * A Transceive whose RxIRq arrives on read `m`, before the last, with no
   * error and no timer bit, succeeds and reports the FIFO contents.
   */
  lemma {:induction false} TransceiveAnswered(r: Round, m: nat)
    requires m < POLLS - 1
    requires forall j :: 0 <= j < m ==> Quiet(IrqRead(r, j), 0x30)
    requires IrqRead(r, m) & 0x20 != 0 && IrqRead(r, m) & 0x01 == 0
    requires r.error & ERROR_MASK == 0
    ensures ToCardSpec(r, CMD_TRANSCEIVE) ==
            ToCard(MiOk, Some(BitLength(r.level, (r.control & 0x07) as nat)), FifoRead(r, Clamp(r.level)))
  {
    PollStopsAtFirstEvent(r, 0x30, 0, m);
  }

  /** The REQA and anticollision frames of rc52x_anticol. */
  const ANTICOL: seq<byte> := [Iso14443a.SEL_CL1, 0x20]

  /**
   * rc52x_anticol over the two rounds of its two MFRC522_ToCard calls and
   * the initial `serNum` contents: its status and the final contents.
   */
  datatype Anticol = Anticol(status: Mi, serNum: seq<byte>, rounds: nat)

  /** `data` written over the front of `buf`. */
  function Over(buf: seq<byte>, data: seq<byte>): (b: seq<byte>)
    requires |data| <= |buf|
    ensures |b| == |buf| && b[..|data|] == data && b[|data|..] == buf[|data|..]
  {
    data + buf[|data|..]
  }

  function AnticolSpec(r1: Round, r2: Round, serNum: seq<byte>): (a: Anticol)
    requires |serNum| >= MAX_LEN
    ensures |a.serNum| == |serNum|
    ensures a.status == MiOk ==>
              ToCardSpec(r1, CMD_TRANSCEIVE).status == MiOk && ToCardSpec(r1, CMD_TRANSCEIVE).bits == Some(16)
              && ToCardSpec(r2, CMD_TRANSCEIVE).status == MiOk
              && Xor(a.serNum[..4]) == a.serNum[4] && a.rounds == 2
    ensures (ToCardSpec(r1, CMD_TRANSCEIVE).status != MiOk || ToCardSpec(r1, CMD_TRANSCEIVE).bits != Some(16))
            <==> a.rounds == 1
    ensures a.rounds == 1 ==> a.status == MiErr
  {
    var o1 := ToCardSpec(r1, CMD_TRANSCEIVE);
    var s1 := Over(Over(serNum, [Iso14443a.REQA]), o1.data);
    if o1.status != MiOk || o1.bits != Some(16) then Anticol(MiErr, s1, 1)
    else
      var o2 := ToCardSpec(r2, CMD_TRANSCEIVE);
      var s2 := Over(Over(s1, ANTICOL), o2.data);
      var status := if o2.status == MiOk && Xor(s2[..4]) != s2[4] then MiErr else o2.status;
      Anticol(status, s2, 2)
  }

  /**
   * Once the ATQA came back as 16 bits and the anticollision answer holds
   * at least five bytes, the outcome is decided by the BCC alone, and
   * `serNum` starts with the bytes read out of the FIFO.
   */
  lemma {:induction false} BccDecides(r1: Round, r2: Round, serNum: seq<byte>)
    requires |serNum| >= MAX_LEN
    requires ToCardSpec(r1, CMD_TRANSCEIVE).status == MiOk && ToCardSpec(r1, CMD_TRANSCEIVE).bits == Some(16)
    requires ToCardSpec(r2, CMD_TRANSCEIVE).status == MiOk && r2.level >= 5
    ensures var d := FifoRead(r2, Clamp(r2.level));
            var a := AnticolSpec(r1, r2, serNum);
            a.serNum[..|d|] == d && (a.status == MiOk <==> Xor(d[..4]) == d[4])
  {
    var d := FifoRead(r2, Clamp(r2.level));
    var a := AnticolSpec(r1, r2, serNum);
    assert a.serNum[..|d|] == d;
    assert a.serNum[..4] == d[..4];
  }

  /** The `rc52x_t` seen by the driver: the rounds still to come and the writes made. */
  class Chip {
    var script: seq<Round>
    var log: seq<Write>

    constructor (rounds: seq<Round>)
      ensures script == rounds && log == []
    {
      script := rounds;
      log := [];
    }

    /**
     * MFRC522_ToCard.  `backData` must hold the up to 16 bytes the FIFO
     * read-out copies; `bits` is the value left in `*backLen` (None when it
     * is not written).
     */
    method ToCard(command: byte, send: seq<byte>, backData: array<byte>) returns (status: Mi, bits: Option<nat>)
      requires backData.Length >= MAX_LEN
      modifies this, backData
      ensures log == old(log) + [Start(IrqFor(command).irqEn | 0x80, send, command)]
      ensures script == Rest(old(script))
      ensures var o := ToCardSpec(Next(old(script)), command);
              status == o.status && bits == o.bits
              && backData[..] == Over(old(backData[..]), o.data)
    {
      var q := IrqFor(command);
      log := log + [Start(q.irqEn | 0x80, send, command)];
      var r := Next(script);
      script := Rest(script);
      var n, i := Poll(r, q.waitIRq);
      status, bits := MiErr, None;
      if i != 0 {
        if r.error & ERROR_MASK == 0 {
          status := MiOk;
          if n & q.irqEn & 0x01 != 0 {
            status := MiNoTag;
          }
          if command == CMD_TRANSCEIVE {
            var level := r.level;
            var lastBits := r.control & 0x07;
            bits := Some(BitLength(level, lastBits as nat));
            var count := Clamp(level);
            Recv(r, backData, count);
          }
        } else {
          status := MiErr;
        }
      }
    }
  }

  /** The do-while loop over ComIrqReg: the value last read and the counter left. */
  method Poll(r: Round, waitIRq: byte) returns (n: byte, i: nat)
    ensures PollEnd(n, i) == PollFrom(r, waitIRq, 0)
  {
    i := POLLS;
    n := IrqRead(r, POLLS - i);
    i := i - 1;
    while i != 0 && Quiet(n, waitIRq)
      invariant i < POLLS
      invariant PollFrom(r, waitIRq, 0) ==
                if i != 0 && Quiet(n, waitIRq) then PollFrom(r, waitIRq, POLLS - i) else PollEnd(n, i)
      decreases i
    {
      n := IrqRead(r, POLLS - i);
      i := i - 1;
    }
  }

  /** mfrc522_recv on FIFODataReg: `count` FIFO values copied to the front of `backData`. */
  method Recv(r: Round, backData: array<byte>, count: nat)
    requires count <= backData.Length
    modifies backData
    ensures backData[..] == Over(old(backData[..]), FifoRead(r, count))
  {
    var j := 0;
    while j < count
      invariant 0 <= j <= count
      invariant backData[..j] == FifoRead(r, count)[..j] && backData[j..] == old(backData[j..])
    {
      backData[j] := if j < |r.fifo| then r.fifo[j] else 0;
      j := j + 1;
    }
  }

  /**
   * rc52x_anticol: REQA with 7-bit framing, which must come back MI_OK
   * with exactly 16 bits (an ATQA); then SEL_CL1 with NVB 0x20, whose
   * MI_OK answer must end with the XOR of its first four bytes.
   */
  method Anticollide(chip: Chip, serNum: array<byte>) returns (status: Mi)
    requires serNum.Length >= MAX_LEN
    modifies chip, serNum
    ensures var rounds := old(chip.script);
            var a := AnticolSpec(Next(rounds), Next(Rest(rounds)), old(serNum[..]));
            status == a.status && serNum[..] == a.serNum
            && chip.script == (if a.rounds == 1 then Rest(rounds) else Rest(Rest(rounds)))
            && chip.log == old(chip.log) + [SetBitFraming(0x07), Start(0xF7, [Iso14443a.REQA], CMD_TRANSCEIVE)]
                           + (if a.rounds == 1 then []
                              else [SetBitFraming(0x00), Start(0xF7, ANTICOL, CMD_TRANSCEIVE)])
  {
    ghost var rounds := chip.script;
    ghost var start := serNum[..];
    var ok := Request(chip, serNum);
    if !ok {
      return MiErr;
    }
    status := AskSerial(chip, serNum);
  }

  /** The REQA half of rc52x_anticol: whether an ATQA of 16 bits came back MI_OK. */
  method Request(chip: Chip, serNum: array<byte>) returns (ok: bool)
    requires serNum.Length >= MAX_LEN
    modifies chip, serNum
    ensures var o1 := ToCardSpec(Next(old(chip.script)), CMD_TRANSCEIVE);
            (ok <==> o1.status == MiOk && o1.bits == Some(16))
            && serNum[..] == Over(Over(old(serNum[..]), [Iso14443a.REQA]), o1.data)
            && chip.script == Rest(old(chip.script))
            && chip.log == old(chip.log) + [SetBitFraming(0x07), Start(0xF7, [Iso14443a.REQA], CMD_TRANSCEIVE)]
  {
    ghost var start := serNum[..];
    chip.log := chip.log + [SetBitFraming(0x07)];
    serNum[0] := Iso14443a.REQA;
    assert serNum[..] == Over(start, [Iso14443a.REQA]);
    assert serNum[..1] == [Iso14443a.REQA];
    var status, unLen := chip.ToCard(CMD_TRANSCEIVE, serNum[..1], serNum);
    ok := status == MiOk && unLen == Some(16);
  }

  /** The SEL_CL1 half of rc52x_anticol: the ToCard status, demoted when the BCC is wrong. */
  method AskSerial(chip: Chip, serNum: array<byte>) returns (status: Mi)
    requires serNum.Length >= MAX_LEN
    modifies chip, serNum
    ensures var o2 := ToCardSpec(Next(old(chip.script)), CMD_TRANSCEIVE);
            var s2 := Over(Over(old(serNum[..]), ANTICOL), o2.data);
            serNum[..] == s2
            && status == (if o2.status == MiOk && Xor(s2[..4]) != s2[4] then MiErr else o2.status)
            && chip.script == Rest(old(chip.script))
            && chip.log == old(chip.log) + [SetBitFraming(0x00), Start(0xF7, ANTICOL, CMD_TRANSCEIVE)]
  {
    ghost var s1 := serNum[..];
    chip.log := chip.log + [SetBitFraming(0x00)];
    serNum[0] := Iso14443a.SEL_CL1;
    serNum[1] := 0x20;
    assert serNum[..] == Over(s1, ANTICOL);
    assert serNum[..2] == ANTICOL;
    var unLen;
    status, unLen := chip.ToCard(CMD_TRANSCEIVE, serNum[..2], serNum);
    if status == MiOk {
      var check := Bcc(serNum);
      if check != serNum[4] {
        status := MiErr;
      }
    }
  }

  /** The `serNumCheck ^=` loop: the XOR of serNum[0..3]. */
  method Bcc(serNum: array<byte>) returns (check: byte)
    requires serNum.Length >= 5
    ensures check == Xor(serNum[..4])
  {
    check := 0;
    var i := 0;
    while i < 4
      invariant 0 <= i <= 4
      invariant check == Xor(serNum[..i])
    {
      assert serNum[..i + 1][..i] == serNum[..i];
      check := check ^ serNum[i];
      i := i + 1;
    }
  }
}
