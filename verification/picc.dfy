/**
 * The ISO/IEC 14443-3 Type A selection engine of cards/picc.c: REQA/WUPA,
 * the SELECT/ANTICOLLISION cascade and HLTA, written against the reader's
 * abstract `TransceiveData` (module Pdc).
 *
 * PICC_Select is proved equal to the specification `SelectSpec`, three
 * mutually recursive functions that follow the two loops of the source:
 * `CascadeLevel` sets up a level, `Exchange` is one pass of the inner
 * ANTICOLLISION/SELECT loop and `CompleteLevel` stores the level's UID bytes
 * and reads the SAK.  The properties of the engine are proved about that
 * specification in module PiccProperties.
 */
module Picc {
  import opened Pdc
  import opened Iso14443a

  datatype Protocol = Undefined | Iso14443A | Iso14443B | Iso15693 | JisX6319_4

  /** The card record `picc_t`, with the field names cards/picc.c uses. */
  class Card {
    var protocol: Protocol
    const uid: array<byte>
    var uid_size: uint8
    var sak: byte
    const atqa: array<byte>

    ghost predicate Valid()
      reads this
    {
      uid.Length == 10 && atqa.Length == 2 && uid != atqa
    }

    constructor ()
      ensures Valid() && fresh(uid) && fresh(atqa)
      ensures protocol == Undefined && uid_size == 0
    {
      protocol := Undefined;
      uid := new byte[10];
      uid_size := 0;
      sak := 0;
      atqa := new byte[2];
    }
  }

  // ---------------------------------------------------------------- REQA / WUPA

  /**
   * PICC_REQA_or_WUPA: a 7-bit short frame holding `command`; the ATQA is
   * accepted only when it is exactly two whole bytes.
   */
  method RequestOrWakeup(pdc: Device, command: byte, bufferATQA: array?<byte>, bufferSize: nat)
    returns (status: Status, size: nat)
    requires pdc.Valid()
    requires bufferATQA != null ==> bufferSize <= bufferATQA.Length
    modifies pdc, bufferATQA
    ensures pdc.Valid()
    ensures bufferATQA == null || bufferSize < 2 ==>
              status == NoRoom && size == bufferSize && pdc.log == old(pdc.log)
              && pdc.script == old(pdc.script) && (bufferATQA != null ==> bufferATQA[..] == old(bufferATQA[..]))
    ensures bufferATQA != null && bufferSize >= 2 ==>
              pdc.log == old(pdc.log) + [Request([command], 7, bufferSize, 0, false, false)]
              && pdc.script == Tail(old(pdc.script))
              && var h := Hear(Head(old(pdc.script)), true, old(bufferATQA[..]), 0, bufferSize, 0, 7);
                 bufferATQA[..] == h.buf && size == h.backLen
                 && (h.status != Ok ==> status == h.status)
                 && (h.status == Ok ==> (status == Ok <==> h.backLen == 2 && h.validBits == 0))
                 && (h.status == Ok ==> status == Ok || status == Error)
  {
    if bufferATQA == null || bufferSize < 2 {
      return NoRoom, bufferSize;
    }
    var validBits := 7;
    var collisionPos;
    status, size, validBits, collisionPos := pdc.TransceiveData([command], validBits, bufferATQA, 0, bufferSize, 0, false, false);
    if status != Ok {
      return;
    }
    if size != 2 || validBits != 0 {
      return Error, size;
    }
    return Ok, size;
  }

  /** PICC_RequestA: marks the card ISO 14443A and sends REQA into its ATQA field. */
  method RequestA(pdc: Device, picc: Card) returns (status: Status)
    requires pdc.Valid() && picc.Valid()
    modifies pdc, picc, picc.atqa
    ensures pdc.Valid() && picc.Valid() && picc.protocol == Iso14443A
    ensures picc.uid_size == old(picc.uid_size) && picc.sak == old(picc.sak)
    ensures pdc.log == old(pdc.log) + [Request([REQA], 7, 2, 0, false, false)]
    ensures pdc.script == Tail(old(pdc.script))
    ensures var h := Hear(Head(old(pdc.script)), true, old(picc.atqa[..]), 0, 2, 0, 7);
            picc.atqa[..] == h.buf && (status == Ok <==> h.status == Ok && h.backLen == 2 && h.validBits == 0)
            && (h.status != Ok ==> status == h.status)
            && (h.status == Ok && !(h.backLen == 2 && h.validBits == 0) ==> status == Error)
  {
    picc.protocol := Iso14443A;
    var size := 2;
    status, size := RequestOrWakeup(pdc, REQA, picc.atqa, size);
  }

  /** PICC_WakeupA: only for a card already known to speak ISO 14443A. */
  method WakeupA(pdc: Device, picc: Card) returns (status: Status)
    requires pdc.Valid() && picc.Valid()
    modifies pdc, picc.atqa
    ensures pdc.Valid() && picc.Valid()
    ensures picc.protocol != Iso14443A ==>
              status == Invalid && pdc.log == old(pdc.log) && pdc.script == old(pdc.script)
              && picc.atqa[..] == old(picc.atqa[..])
    ensures picc.protocol == Iso14443A ==>
              pdc.log == old(pdc.log) + [Request([WUPA], 7, 2, 0, false, false)]
              && pdc.script == Tail(old(pdc.script))
              && var h := Hear(Head(old(pdc.script)), true, old(picc.atqa[..]), 0, 2, 0, 7);
                 picc.atqa[..] == h.buf && (status == Ok <==> h.status == Ok && h.backLen == 2 && h.validBits == 0)
                 && (h.status != Ok ==> status == h.status)
                 && (h.status == Ok && !(h.backLen == 2 && h.validBits == 0) ==> status == Error)
  {
    if picc.protocol != Iso14443A {
      return Invalid;
    }
    var size := 2;
    status, size := RequestOrWakeup(pdc, WUPA, picc.atqa, size);
  }

  // ---------------------------------------------------------------- HLTA

  /**
   * The status PICC_HaltA reports for the reader's status: a card that
   * obeys HLTA stays silent, so only a timeout is success and an answer is
   * an error.
   */
  function HaltStatus(s: Status): (r: Status)
    ensures r == Ok <==> s == Timeout
    ensures r == Error <==> s == Ok || s == Error
    ensures s != Ok && s != Timeout ==> r == s
  {
    if s == Timeout then Ok else if s == Ok then Error else s
  }

  /** PICC_HaltA: sends HLTA 0x50 0x00 with CRC and expects no answer. */
  method HaltA(pdc: Device) returns (status: Status)
    requires pdc.Valid()
    modifies pdc
    ensures pdc.Valid()
    ensures pdc.log == old(pdc.log) + [Request([HLTA, 0x00], 0, 0, 0, true, true)]
    ensures pdc.script == Tail(old(pdc.script))
    ensures status == HaltStatus(Head(old(pdc.script)).status)
  {
    var result, backLen, validBits, collisionPos := pdc.TransceiveData([HLTA, 0x00], 0, null, 0, 0, 0, true, true);
    if result == Timeout {
      return Ok;
    }
    if result == Ok {
      return Error;
    }
    return result;
  }

  // ---------------------------------------------------------------- SELECT: specification

  /** The card record's UID fields, the frame buffer and the reader, between two steps. */
  datatype St = St(uid: seq<byte>, uidSize: uint8, sak: byte, buf: seq<byte>,
                   log: seq<Request>, script: seq<Reply>)
  {
    ghost predicate Sound()
    {
      |uid| == 10 && |buf| == 9 && WellFormedScript(script)
    }
  }

  /** What PICC_Select leaves behind: its status, the card record's fields and the reader. */
  datatype Selection = Selection(status: Status, uid: seq<byte>, uidSize: uint8, sak: byte,
                                 log: seq<Request>, script: seq<Reply>)

  function Stop(status: Status, st: St): Selection
  {
    Selection(status, st.uid, st.uidSize, st.sak, st.log, st.script)
  }

  function Min(a: nat, b: nat): nat
  {
    if a < b then a else b
  }

  /** PICC_Select(pdc, picc, validBits), started with frame buffer `st.buf`. */
  function SelectSpec(validBits: uint8, st: St): Selection
    requires st.Sound()
  {
    if validBits > 80 then Stop(Invalid, st) else CascadeLevel(1, validBits, st)
  }

  /** The outer loop at cascade level `level`: set up the frame and run the inner loop. */
  function CascadeLevel(level: nat, validBits: nat, st: St): Selection
    requires 1 <= level <= 4 && validBits <= 80 && st.Sound()
    decreases 4 - level, 1, 0, st
  {
    if level > 3 then Stop(InternalError, st)
    else
      Exchange(level, validBits, StartKnownBits(level, validBits, st.uidSize),
               st.(buf := LevelFrame(st.buf, level, validBits, st.uidSize, st.uid)))
  }

  /** The request that one pass of the inner loop hands to the reader. */
  function Frame(known: nat, buf: seq<byte>): (q: Request)
    requires |buf| == 9
  {
    if known >= 32 then Request(SelectFrame(buf)[..7], 0, 3, 0, true, false)
    else Request(buf[1 := Nvb(known)][..AnticollisionLength(known)], known % 8, 9 - (2 + known / 8), 0, false, false)
  }

  /** The pass a run of the inner-loop body reports through its loop variables. */
  function PassOf(stop: bool, status: Status, selectDone: bool, known: nat, responseLength: nat,
                  rxValidBits: nat, st: St): Pass
  {
    if stop then Abort(status, st)
    else if selectDone then SelectDone(responseLength, rxValidBits, st)
    else Again(known, st)
  }

  /** How one pass of the inner loop ends. */
  datatype Pass =
    | Again(known: nat, st: St)                                  // collision resolved or ANTICOLLISION answered
    | SelectDone(responseLength: nat, rxValidBits: nat, st: St)  // the SELECT was answered
    | Abort(status: Status, st: St)                              // PICC_Select returns `status`

  /**
   * The byte the collision branch of PICC_Select ors the forced bit into,
   * as written: `1 + pos / 8 + (pos % 8 ? 1 : 0)`.  For every position from
   * 1 on it is CollisionByte, but it stays inside the 9-byte frame buffer
   * only up to position 56, and nothing in PICC_Select bounds `pos`.
   */
  function CollisionIndexAsWritten(pos: nat): (i: nat)
    ensures pos >= 1 ==> i == CollisionByte(pos)
    ensures i < 9 <==> pos <= 56
  {
    1 + pos / 8 + (if pos % 8 != 0 then 1 else 0)
  }

  /**
   * `collisionPos` is an uninitialised local that a reader may leave
   * unwritten (RC66X_TransceiveData never writes it).  Every stale value
   * from 57 to 255 passes the `collisionPos <= currentLevelKnownBits` check,
   * for any known-bit count PICC_Select reaches, and indexes past the frame
   * buffer.
   */
  lemma StaleCollisionPositionOverruns(known: nat, pos: nat)
    requires known <= 32 && 57 <= pos <= 255
    ensures !(pos <= known) && CollisionIndexAsWritten(pos) >= 9
  {
  }

  /** Where the answer to the frame of `known` known bits is stored. */
  function AnswerOffset(known: nat): (offset: nat)
    ensures 2 <= offset <= 6
  {
    if known >= 32 then 6 else 2 + known / 8
  }

  /** The reader's out-values for the frame sent with `known` known bits. */
  function Answer(known: nat, st: St): (h: Heard)
    requires st.Sound()
    ensures |h.buf| == 9
    ensures WellFormed(Head(st.script)) && (h.status == Ok || h.status == Collision) ==> h.validBits < 8
  {
    var frame := if known >= 32 then SelectFrame(st.buf) else st.buf[1 := Nvb(known)];
    var offset := AnswerOffset(known);
    Hear(Head(st.script), true, frame, offset, 9 - offset, 0, Frame(known, st.buf).txLastBits)
  }

  /** The state after the exchange: frame logged, reply consumed, answer in the buffer. */
  function Sent(known: nat, st: St): (next: St)
    requires st.Sound()
    ensures next.Sound()
  {
    st.(buf := Answer(known, st).buf, log := st.log + [Frame(known, st.buf)], script := Tail(st.script))
  }

  /**
   * One pass of the inner loop with `known` bits of the level known: frame
   * the ANTICOLLISION or SELECT, exchange it, and on a collision force the
   * colliding bit to 1.
   */
  function InnerPass(known: nat, st: St): (p: Pass)
    requires st.Sound()
    ensures p.st.Sound()
    ensures p.Again? ==> known < p.known <= 32
    ensures p.st.log == st.log + [Frame(known, st.buf)] && p.st.script == Tail(st.script)
    ensures p.st.buf[0] == st.buf[0] && p.st.uid == st.uid && p.st.uidSize == st.uidSize && p.st.sak == st.sak
    ensures p.Abort? ==> p.status != Ok
  {
    var h := Answer(known, st);
    var next := Sent(known, st);
    if h.status == Collision then
      if h.collisionPos <= known then Abort(InternalError, next)
      else Again(h.collisionPos, next.(buf := ForceCollisionBit(h.buf, h.collisionPos)))
    else if h.status != Ok then Abort(h.status, next)
    else if known >= 32 then SelectDone(h.backLen, h.validBits, next)
    else Again(32, next)
  }

  /** The inner loop of cascade level `level`, from `known` known bits on. */
  function Exchange(level: nat, validBits: nat, known: nat, st: St): Selection
    requires 1 <= level <= 3 && validBits <= 80 && st.Sound()
    decreases 4 - level, 0, 33 - Min(known, 32), st
  {
    match InnerPass(known, st)
    case Again(k, next) => Exchange(level, validBits, k, next)
    case SelectDone(n, vb, next) => CompleteLevel(level, validBits, n, vb, next)
    case Abort(status, next) => Stop(status, next)
  }

  /** After the SELECT: store the level's UID bytes, check the SAK and go on or finish. */
  function CompleteLevel(level: nat, validBits: nat, responseLength: nat, rxValidBits: nat, st: St): Selection
    requires 1 <= level <= 3 && validBits <= 80 && st.Sound()
    decreases 4 - level, 0, 0, st
  {
    var uid := StoreUid(st.uid, st.buf, UidIndex(level));
    if responseLength != 3 || rxValidBits != 0 then Stop(Error, st.(uid := uid))
    else if st.buf[6] & 0x04 != 0 then CascadeLevel(level + 1, validBits, st.(uid := uid))
    else Selection(Ok, uid, 3 * level + 1, st.buf[6], st.log, st.script)
  }

  // ---------------------------------------------------------------- SELECT: the engine

  ghost function Snapshot(picc: Card, buffer: array<byte>, pdc: Device): St
    reads picc, picc.uid, buffer, pdc
  {
    St(picc.uid[..], picc.uid_size, picc.sak, buffer[..], pdc.log, pdc.script)
  }

  /**
   * Level set-up of PICC_Select: SEL byte, cascade tag and the caller's
   * known UID bytes of this level; returns the level's known bits.
   */
  method SetUpLevel(buffer: array<byte>, uid: array<byte>, uidSize: uint8, level: nat, validBits: uint8)
    returns (known: nat)
    requires buffer.Length == 9 && uid.Length == 10 && buffer != uid && 1 <= level <= 3 && validBits <= 80
    modifies buffer
    ensures buffer[..] == LevelFrame(old(buffer[..]), level, validBits, uidSize, uid[..])
    ensures known == StartKnownBits(level, validBits, uidSize)
  {
    var uidIndex, useCascadeTag, index := WriteLevelHeader(buffer, uidSize, level, validBits);
    ghost var tagged := buffer[..];
    var currentLevelKnownBits: int := validBits - 8 * uidIndex;
    if currentLevelKnownBits < 0 {
      currentLevelKnownBits := 0;
    }
    assert currentLevelKnownBits == LevelKnownBits(validBits, uidIndex);
    var bytesToCopy := currentLevelKnownBits / 8 + (if currentLevelKnownBits % 8 != 0 then 1 else 0);
    if bytesToCopy > 0 {
      var maxBytes := if useCascadeTag then 3 else 4;
      if bytesToCopy > maxBytes {
        bytesToCopy := maxBytes;
      }
      CopyKnownBytes(buffer, index, uid, uidIndex, bytesToCopy);
    }
    assert bytesToCopy == BytesToCopy(LevelKnownBits(validBits, uidIndex), useCascadeTag);
    LevelFrameFilled(old(buffer[..]), tagged, buffer[..], level, validBits, uidSize, uid[..], index, bytesToCopy);
    if useCascadeTag {
      currentLevelKnownBits := currentLevelKnownBits + 8;
    }
    known := currentLevelKnownBits;
  }

  /** The header written and `n` UID bytes copied in after it: the level's frame. */
  lemma {:induction false} LevelFrameFilled(before: seq<byte>, tagged: seq<byte>, after: seq<byte>, level: nat,
                                            validBits: nat, uidSize: uint8, uid: seq<byte>, start: nat, n: nat)
    requires |before| == 9 && |uid| == 10 && 1 <= level <= 3
    requires var ct := UseCascadeTag(level, validBits, uidSize);
             start == (if ct then 3 else 2) && n == BytesToCopy(LevelKnownBits(validBits, UidIndex(level)), ct)
             && tagged == if ct then before[0 := SelCode(level)][2 := CT] else before[0 := SelCode(level)]
    requires |after| == 9 && forall j :: 0 <= j < 9 ==> after[j] == if start <= j < start + n then uid[UidIndex(level) + j - start] else tagged[j]
    ensures after == LevelFrame(before, level, validBits, uidSize, uid)
  {
    var want := LevelFrame(before, level, validBits, uidSize, uid);
    forall j | 0 <= j < 9
      ensures after[j] == want[j]
    {
    }
  }

  /** The SEL byte and, when used, the cascade tag of a level; `index` is where the UID bytes go. */
  method WriteLevelHeader(buffer: array<byte>, uidSize: uint8, level: nat, validBits: uint8)
    returns (uidIndex: nat, useCascadeTag: bool, index: nat)
    requires buffer.Length == 9 && 1 <= level <= 3
    modifies buffer
    ensures uidIndex == UidIndex(level) && useCascadeTag == UseCascadeTag(level, validBits, uidSize)
    ensures index == if useCascadeTag then 3 else 2
    ensures buffer[..] == if useCascadeTag then old(buffer[..])[0 := SelCode(level)][2 := CT]
                          else old(buffer[..])[0 := SelCode(level)]
  {
    if level == 1 {
      buffer[0] := SEL_CL1;
      uidIndex := 0;
      useCascadeTag := validBits != 0 && uidSize > 4;
    } else if level == 2 {
      buffer[0] := SEL_CL2;
      uidIndex := 3;
      useCascadeTag := validBits != 0 && uidSize > 7;
    } else {
      buffer[0] := SEL_CL3;
      uidIndex := 6;
      useCascadeTag := false;
    }
    index := 2;
    if useCascadeTag {
      buffer[index] := CT;
      index := index + 1;
    }
  }

  /** The copy loop of the level set-up: `n` UID bytes from `uid[from..]` into `buffer[at..]`. */
  method CopyKnownBytes(buffer: array<byte>, at: nat, uid: array<byte>, from: nat, n: nat)
    requires at + n <= buffer.Length && from + n <= uid.Length && buffer != uid
    modifies buffer
    ensures forall j :: 0 <= j < buffer.Length ==>
              buffer[j] == if at <= j < at + n then uid[from + j - at] else old(buffer[j])
  {
    var index, count := at, 0;
    while count < n
      invariant 0 <= count <= n && index == at + count
      invariant forall j :: 0 <= j < buffer.Length ==>
                  buffer[j] == if at <= j < index then uid[from + j - at] else old(buffer[j])
    {
      buffer[index] := uid[from + count];
      index := index + 1;
      count := count + 1;
    }
  }

  /** Level completion of PICC_Select: copy the level's UID bytes out of the frame. */
  method StoreLevelUid(buffer: array<byte>, uid: array<byte>, uidIndex: nat)
    requires buffer.Length == 9 && uid.Length == 10 && buffer != uid && uidIndex <= 6
    modifies uid
    ensures uid[..] == StoreUid(old(uid[..]), buffer[..], uidIndex)
  {
    var index := if buffer[2] == CT then 3 else 2;
    var bytesToCopy := if buffer[2] == CT then 3 else 4;
    ghost var src := index;
    var count := 0;
    while count < bytesToCopy
      invariant 0 <= count <= bytesToCopy && index == src + count
      invariant forall j :: 0 <= j < 10 ==>
                  uid[j] == if uidIndex <= j < uidIndex + count then buffer[src + j - uidIndex] else old(uid[j])
    {
      uid[uidIndex + count] := buffer[index];
      index := index + 1;
      count := count + 1;
    }
  }

  /**
   * The framing half of the inner loop: NVB, and for a SELECT the BCC;
   * returns the bytes to send, where the answer goes, the valid bits of
   * the last byte sent and whether the reader appends a CRC.
   */
  method PrepareFrame(buffer: array<byte>, known: nat)
    returns (bufferUsed: nat, index: nat, txLastBits: nat, sendCRC: bool)
    requires buffer.Length == 9
    modifies buffer
    ensures buffer[..] == if known >= 32 then SelectFrame(old(buffer[..])) else old(buffer[..])[1 := Nvb(known)]
    ensures bufferUsed <= 9 && index == if known >= 32 then 6 else 2 + known / 8
    ensures var q := Frame(known, old(buffer[..]));
            buffer[..bufferUsed] == q.send && txLastBits == q.txLastBits && 9 - index == q.capacity
            && sendCRC == q.sendCRC
  {
    if known >= 32 {
      buffer[1] := NVB_SELECT;
      buffer[6] := buffer[2] ^ buffer[3] ^ buffer[4] ^ buffer[5];
      sendCRC := true;
      txLastBits := 0;
      bufferUsed := 7;
      index := 6;
    } else {
      txLastBits := known % 8;
      index := 2 + known / 8;
      buffer[1] := ((index as bv8) << 4) + (txLastBits as bv8);
      bufferUsed := index + (if txLastBits != 0 then 1 else 0);
      sendCRC := false;
    }
  }

  /** `buffer[index] |= 1 << bit`. */
  method SetBit(buffer: array<byte>, index: nat, bit: nat)
    requires index < buffer.Length && bit < 8
    modifies buffer
    ensures buffer[..] == old(buffer[..])[index := old(buffer[index]) | BitMask(bit)]
  {
    buffer[index] := buffer[index] | BitMask(bit);
  }

  /** The framing and the reader call of one pass of the inner loop. */
  method SendFrame(pdc: Device, picc: Card, buffer: array<byte>, known: nat)
    returns (status: Status, responseLength: nat, txLastBits: nat, collisionPos: nat)
    requires pdc.Valid() && picc.Valid() && buffer.Length == 9
    modifies pdc, buffer
    ensures pdc.Valid() && picc.uid[..] == old(picc.uid[..])
    ensures var st0 := old(Snapshot(picc, buffer, pdc));
            var h := Answer(known, st0);
            Snapshot(picc, buffer, pdc) == Sent(known, st0)
            && status == h.status && responseLength == h.backLen && txLastBits == h.validBits
            && collisionPos == h.collisionPos
  {
    ghost var st0 := Snapshot(picc, buffer, pdc);
    var bufferUsed, index, sendCRC;
    bufferUsed, index, txLastBits, sendCRC := PrepareFrame(buffer, known);
    responseLength := 9 - index;
    var rxAlign := 0;
    status, responseLength, txLastBits, collisionPos :=
      pdc.TransceiveData(buffer[..bufferUsed], txLastBits, buffer, index, responseLength, rxAlign, sendCRC, false);
  }

  /**
   * The body of the inner loop of PICC_Select.  `stop` stands for a
   * `return status` of the source; otherwise `selectDone` and `known` are
   * the loop variables after the pass.
   */
  method ExchangeFrame(pdc: Device, picc: Card, buffer: array<byte>, known: nat)
    returns (stop: bool, status: Status, selectDone: bool, newKnown: nat, responseLength: nat, txLastBits: nat)
    requires pdc.Valid() && picc.Valid() && buffer.Length == 9
    modifies pdc, buffer
    ensures pdc.Valid() && picc.uid[..] == old(picc.uid[..])
    ensures InnerPass(known, old(Snapshot(picc, buffer, pdc)))
            == PassOf(stop, status, selectDone, newKnown, responseLength, txLastBits, Snapshot(picc, buffer, pdc))
    ensures !stop && !selectDone ==> known < newKnown <= 32
  {
    ghost var st0 := Snapshot(picc, buffer, pdc);
    var collisionPos;
    status, responseLength, txLastBits, collisionPos := SendFrame(pdc, picc, buffer, known);
    ghost var h := Answer(known, st0);
    ghost var next := Sent(known, st0);
    assert Snapshot(picc, buffer, pdc) == next;
    stop, selectDone, newKnown := false, false, known;
    if status == Collision {
      if collisionPos <= known {
        assert InnerPass(known, st0) == Abort(InternalError, next);
        return true, InternalError, selectDone, newKnown, responseLength, txLastBits;
      }
      newKnown := collisionPos;
      ForceBit(buffer, newKnown);
      assert Snapshot(picc, buffer, pdc) == next.(buf := ForceCollisionBit(h.buf, newKnown));
    } else if status != Ok {
      stop := true;
      assert InnerPass(known, st0) == Abort(status, next);
    } else if known >= 32 {
      selectDone := true;
      assert InnerPass(known, st0) == SelectDone(responseLength, txLastBits, next);
    } else {
      newKnown := 32;
      assert InnerPass(known, st0) == Again(32, next);
    }
  }

  /** The collision branch of the inner loop: set the bit the source picks for position `pos`. */
  method ForceBit(buffer: array<byte>, pos: nat)
    requires buffer.Length == 9 && 1 <= pos <= 32
    modifies buffer
    ensures buffer[..] == ForceCollisionBit(old(buffer[..]), pos)
  {
    var count := pos % 8;
    var checkBit := (pos - 1) % 8;
    var index := 1 + pos / 8 + (if count != 0 then 1 else 0);
    assert index == CollisionByte(pos) && checkBit == CollisionBit(pos);
    SetBit(buffer, index, checkBit);
  }

  /**
   * PICC_Select: selects one card, cascade level by cascade level, and
   * leaves its UID, UID size and SAK in the card record.  `stack` is what
   * the uninitialised 9-byte frame buffer happens to hold.
   */
  method Select(pdc: Device, picc: Card, validBits: uint8, stack: seq<byte>) returns (result: Status)
    requires pdc.Valid() && picc.Valid() && |stack| == 9
    modifies pdc, picc, picc.uid
    ensures pdc.Valid() && picc.Valid() && picc.protocol == old(picc.protocol)
    ensures var s := SelectSpec(validBits, St(old(picc.uid[..]), old(picc.uid_size), old(picc.sak), stack,
                                               old(pdc.log), old(pdc.script)));
            result == s.status && picc.uid[..] == s.uid && picc.uid_size == s.uidSize
            && picc.sak == s.sak && pdc.log == s.log && pdc.script == s.script
  {
    if validBits > 80 {
      return Invalid;
    }
    var buffer := FrameBuffer(stack);
    ghost var goal := CascadeLevel(1, validBits, Snapshot(picc, buffer, pdc));
    var cascadeLevel: nat := 1;
    var uidComplete := false;
    while !uidComplete
      invariant 1 <= cascadeLevel <= 4 && buffer.Length == 9
      invariant pdc.Valid() && picc.Valid() && picc.protocol == old(picc.protocol)
      invariant picc.uid_size == old(picc.uid_size)
      invariant !uidComplete ==> CascadeLevel(cascadeLevel, validBits, Snapshot(picc, buffer, pdc)) == goal
      invariant uidComplete ==>
                  cascadeLevel <= 3 && goal == Selection(Ok, picc.uid[..], 3 * cascadeLevel + 1, picc.sak, pdc.log, pdc.script)
      decreases 4 - cascadeLevel, if uidComplete then 0 else 1
    {
      if cascadeLevel > 3 {
        return InternalError;
      }
      var stop, status, advance := RunLevel(pdc, picc, buffer, cascadeLevel, validBits);
      if stop {
        return status;
      }
      if advance {
        cascadeLevel := cascadeLevel + 1;
      } else {
        uidComplete := true;
      }
    }
    picc.uid_size := 3 * cascadeLevel + 1;
    return Ok;
  }

  /** The frame buffer on PICC_Select's stack, holding whatever `stack` says. */
  method FrameBuffer(stack: seq<byte>) returns (buffer: array<byte>)
    requires |stack| == 9
    ensures fresh(buffer) && buffer[..] == stack
  {
    buffer := new byte[9](i => if 0 <= i < |stack| then stack[i] else 0);
    assert buffer[..] == stack;
  }

  /**
   * One pass of the outer loop of PICC_Select: set up the level, run the
   * inner loop, store the level's UID bytes and check the SAK.  `advance`
   * means the SAK announced a further cascade level.
   */
  method RunLevel(pdc: Device, picc: Card, buffer: array<byte>, level: nat, validBits: uint8)
    returns (stop: bool, status: Status, advance: bool)
    requires pdc.Valid() && picc.Valid() && buffer.Length == 9 && 1 <= level <= 3 && validBits <= 80
    modifies pdc, picc, picc.uid, buffer
    ensures pdc.Valid() && picc.Valid() && picc.protocol == old(picc.protocol) && picc.uid_size == old(picc.uid_size)
    ensures CascadeLevel(level, validBits, old(Snapshot(picc, buffer, pdc)))
            == if stop then Stop(status, Snapshot(picc, buffer, pdc))
               else if advance then CascadeLevel(level + 1, validBits, Snapshot(picc, buffer, pdc))
               else Selection(Ok, picc.uid[..], 3 * level + 1, picc.sak, pdc.log, pdc.script)
  {
    var responseLength, txLastBits;
    stop, status, responseLength, txLastBits := SearchLevel(pdc, picc, buffer, level, validBits);
    advance := false;
    if !stop {
      stop, status, advance := FinishLevel(pdc, picc, buffer, level, validBits, responseLength, txLastBits);
    }
  }

  /** The set-up and the inner loop of one cascade level. */
  method SearchLevel(pdc: Device, picc: Card, buffer: array<byte>, level: nat, validBits: uint8)
    returns (stop: bool, status: Status, responseLength: nat, txLastBits: nat)
    requires pdc.Valid() && picc.Valid() && buffer.Length == 9 && 1 <= level <= 3 && validBits <= 80
    modifies pdc, buffer
    ensures pdc.Valid() && picc.uid[..] == old(picc.uid[..])
    ensures CascadeLevel(level, validBits, old(Snapshot(picc, buffer, pdc)))
            == if stop then Stop(status, Snapshot(picc, buffer, pdc))
               else CompleteLevel(level, validBits, responseLength, txLastBits, Snapshot(picc, buffer, pdc))
  {
    ghost var st0 := Snapshot(picc, buffer, pdc);
    var known := SetUpLevel(buffer, picc.uid, picc.uid_size, level, validBits);
    assert Snapshot(picc, buffer, pdc) == st0.(buf := LevelFrame(st0.buf, level, validBits, st0.uidSize, st0.uid));
    stop, status, responseLength, txLastBits := RunExchanges(pdc, picc, buffer, level, validBits, known);
  }

  /** Level completion: store the level's UID bytes, check the answer to the SELECT and read the SAK. */
  method FinishLevel(pdc: Device, picc: Card, buffer: array<byte>, level: nat, validBits: uint8,
                     responseLength: nat, txLastBits: nat)
    returns (stop: bool, status: Status, advance: bool)
    requires pdc.Valid() && picc.Valid() && buffer.Length == 9 && 1 <= level <= 3 && validBits <= 80
    modifies picc, picc.uid
    ensures picc.Valid() && picc.protocol == old(picc.protocol) && picc.uid_size == old(picc.uid_size)
    ensures CompleteLevel(level, validBits, responseLength, txLastBits, old(Snapshot(picc, buffer, pdc)))
            == if stop then Stop(status, Snapshot(picc, buffer, pdc))
               else if advance then CascadeLevel(level + 1, validBits, Snapshot(picc, buffer, pdc))
               else Selection(Ok, picc.uid[..], 3 * level + 1, picc.sak, pdc.log, pdc.script)
  {
    ghost var st := Snapshot(picc, buffer, pdc);
    StoreLevelUid(buffer, picc.uid, UidIndex(level));
    assert Snapshot(picc, buffer, pdc) == st.(uid := StoreUid(st.uid, st.buf, UidIndex(level)));
    if responseLength != 3 || txLastBits != 0 {
      return true, Error, false;
    }
    stop, status := false, Ok;
    if buffer[6] & 0x04 != 0 {
      advance := true;
    } else {
      advance := false;
      picc.sak := buffer[6];
    }
  }

  /** The inner loop of PICC_Select: exchange frames until the SELECT is answered. */
  method RunExchanges(pdc: Device, picc: Card, buffer: array<byte>, level: nat, validBits: uint8, known: nat)
    returns (stop: bool, status: Status, responseLength: nat, txLastBits: nat)
    requires pdc.Valid() && picc.Valid() && buffer.Length == 9 && 1 <= level <= 3 && validBits <= 80
    modifies pdc, buffer
    ensures pdc.Valid() && picc.uid[..] == old(picc.uid[..])
    ensures Exchange(level, validBits, known, old(Snapshot(picc, buffer, pdc)))
            == if stop then Stop(status, Snapshot(picc, buffer, pdc))
               else CompleteLevel(level, validBits, responseLength, txLastBits, Snapshot(picc, buffer, pdc))
  {
    ghost var goal := Exchange(level, validBits, known, Snapshot(picc, buffer, pdc));
    var selectDone := false;
    var k := known;
    responseLength, txLastBits := 0, 0;
    while !selectDone
      invariant pdc.Valid() && picc.uid[..] == old(picc.uid[..])
      invariant !selectDone ==> Exchange(level, validBits, k, Snapshot(picc, buffer, pdc)) == goal
      invariant selectDone ==>
                  CompleteLevel(level, validBits, responseLength, txLastBits, Snapshot(picc, buffer, pdc)) == goal
      decreases if selectDone then 0 else 1, 33 - Min(k, 32)
    {
      stop, status, selectDone, k, responseLength, txLastBits := ExchangeFrame(pdc, picc, buffer, k);
      if stop {
        return;
      }
    }
    stop, status := false, Ok;
  }
}
