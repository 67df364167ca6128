/**
 * Status codes and the abstract reader interface of drivers/pdc.h.
 *
 * The card layer (cards/picc.c) reaches the reader chip only through the
 * `TransceiveData` function pointer of a `bs_pdc_t`.  Here that pointer is a
 * mock reader, `Device`, whose radio field is a script of replies: each call
 * logs the frame it was given and consumes the next reply.  When the script
 * is empty nothing in the field answers and the call times out.
 */
module Pdc {

  /** A data byte as it travels over the air or sits in a frame buffer. */
  type byte = bv8

  /** A C `uint8_t` used as a number (sizes, counters, bit counts). */
  type uint8 = x: int | 0 <= x < 256

  /** A C pointer argument that may be null: `None`, or the value it points to. */
  datatype Option<T> = None | Some(value: T)

  /** `pdc_result_t`. */
  datatype Status =
    | Ok | Error | HardError | Collision | Timeout | NoRoom
    | InternalError | Invalid | CrcWrong | MifareNack | AuthError | EepromError

  /** The numeric value of each status in drivers/pdc.h. */
  function Code(s: Status): (c: int)
    ensures -11 <= c <= 0
    ensures (c == 0) == (s == Ok)
  {
    match s
    case Ok => 0
    case Error => -1
    case HardError => -2
    case Collision => -3
    case Timeout => -4
    case NoRoom => -5
    case InternalError => -6
    case Invalid => -7
    case CrcWrong => -8
    case MifareNack => -9
    case AuthError => -10
    case EepromError => -11
  }

  /** Bit `i` (0 = least significant) of a byte. */
  predicate Bit(x: byte, i: nat)
    requires i < 8
  {
    (x >> i) & 1 == 1
  }

  /** XOR of all bytes of a sequence. */
  function Xor(s: seq<byte>): byte
  {
    if s == [] then 0 else Xor(s[..|s| - 1]) ^ s[|s| - 1]
  }

  /** `(uint8_t)n` for a number that fits: the byte whose value is `n`. */
  function ByteOf(n: int): (b: byte)
    requires 0 <= n < 0x100
    ensures b as int == n
    decreases n
  {
    if n == 0 then 0 else ByteOf(n - 1) + 1
  }

  /** Two bytes of the same value are the same byte. */
  lemma {:induction false} SameValue(a: byte, b: byte)
    requires a as int == b as int
    ensures a == b
  {
    assert a == (a as int) as byte;
  }

  /** The mask of the `n` least significant bits of a byte. */
  function LowBits(n: nat): byte
    requires n < 8
  {
    ((1 as bv8) << n) - 1
  }

  /**
   * The first received byte lands in a byte of which the caller already
   * knows the low `rxAlign` bits: those bits are kept, the rest come from
   * the air.
   */
  function Merge(held: byte, received: byte, rxAlign: nat): (b: byte)
    requires rxAlign < 8
    ensures b & LowBits(rxAlign) == held & LowBits(rxAlign)
    ensures b & !LowBits(rxAlign) == received & !LowBits(rxAlign)
    ensures rxAlign == 0 ==> b == received
  {
    (held & LowBits(rxAlign)) | (received & !LowBits(rxAlign))
  }

  /** `buf` after `data` has been received at `offset` (first byte merged). */
  function Received(buf: seq<byte>, offset: nat, data: seq<byte>, rxAlign: nat): (r: seq<byte>)
    requires offset + |data| <= |buf| && rxAlign < 8
    ensures |r| == |buf|
    ensures forall i :: 0 <= i < |buf| && !(offset <= i < offset + |data|) ==> r[i] == buf[i]
    ensures forall i :: offset < i < offset + |data| ==> r[i] == data[i - offset]
    ensures |data| > 0 ==> r[offset] == Merge(buf[offset], data[0], rxAlign)
  {
    seq(|buf|, i requires 0 <= i < |buf| =>
      if i == offset && |data| > 0 then Merge(buf[offset], data[0], rxAlign)
      else if offset < i < offset + |data| then data[i - offset]
      else buf[i])
  }

  /** What the field answers to one frame. */
  datatype Reply = Reply(status: Status, data: seq<byte>, validBits: nat, collisionPos: nat)

  /** The answer when no card responds. */
  const Silence := Reply(Timeout, [], 0, 0)

  /**
   * A reply a reader can deliver: a 3-bit count of valid bits in the last
   * byte, and for a collision a bit position 1..32 within the UID part of
   * the frame (the range drivers/rc522/MFRC522.c:597-604 produces).
   */
  predicate WellFormed(r: Reply)
  {
    r.validBits < 8 && (r.status == Collision ==> 1 <= r.collisionPos <= 32)
  }

  predicate WellFormedScript(script: seq<Reply>)
  {
    forall i :: 0 <= i < |script| ==> WellFormed(script[i])
  }

  /** The next answer of the field: silence once the script is used up. */
  function Head(script: seq<Reply>): (r: Reply)
    ensures WellFormedScript(script) ==> WellFormed(r)
  {
    if script == [] then Silence else script[0]
  }

  /**
   * What is left of a script of scripted answers once one has been used; an
   * empty script stays empty.  Every chip model in this project uses it.
   */
  function Rest<T>(script: seq<T>): (rest: seq<T>)
    ensures script != [] ==> |rest| == |script| - 1
  {
    if script == [] then [] else script[1..]
  }

  function Tail(script: seq<Reply>): (rest: seq<Reply>)
    ensures WellFormedScript(script) ==> WellFormedScript(rest)
    ensures script != [] ==> |rest| == |script| - 1
  {
    Rest(script)
  }

  /**
   * The RxLastBits field, bits 2..0 of the register a chip reports it in
   * (ControlReg on the MFRC522, RxBitCtrl on the RC663): the valid bits of
   * the last received byte, 0 meaning all eight.
   */
  function RxLastBits(reg: byte): (n: nat)
    ensures n < 8
  {
    (reg & 0x07) as nat
  }

  /**
   * One frame handed to `TransceiveData`: the bytes sent, the valid bits of
   * the last one, the room for the answer (0 when no answer buffer is
   * given), the receive alignment and the two CRC flags.
   */
  datatype Request = Request(send: seq<byte>, txLastBits: nat, capacity: nat, rxAlign: nat,
                             sendCRC: bool, recvCRC: bool)

  /** The out-values of one `TransceiveData` call. */
  datatype Heard = Heard(status: Status, buf: seq<byte>, backLen: nat, validBits: nat, collisionPos: nat)

  /**
   * The contract of a reader's `TransceiveData`: with an answer buffer, a
   * successful or colliding answer is stored at `offset` unless it exceeds
   * `capacity` (STATUS_NO_ROOM); `backLen` and `validBits` are written only
   * when data was stored.  Without an answer buffer nothing is written.
   */
  function Hear(r: Reply, wantsData: bool, buf: seq<byte>, offset: nat, capacity: nat,
                rxAlign: nat, validBitsIn: nat): (h: Heard)
    requires wantsData ==> offset + capacity <= |buf|
    requires rxAlign < 8
    ensures |h.buf| == |buf|
    ensures h.status == Ok || h.status == Collision ==> h.status == r.status
    ensures h.status == Collision ==> h.collisionPos == r.collisionPos
    ensures WellFormed(r) && (h.status == Ok || h.status == Collision) && wantsData ==> h.validBits < 8
    ensures h.buf != buf ==> wantsData && h.status == r.status && |r.data| <= capacity
  {
    if wantsData && (r.status == Ok || r.status == Collision) then
      if |r.data| > capacity then Heard(NoRoom, buf, capacity, validBitsIn, 0)
      else Heard(r.status, Received(buf, offset, r.data, rxAlign), |r.data|, r.validBits, r.collisionPos)
    else
      Heard(r.status, buf, capacity, validBitsIn, if r.status == Collision then r.collisionPos else 0)
  }

  /** `bs_pdc_t` with a scripted field. */
  class Device {
    var script: seq<Reply>
    var log: seq<Request>

    ghost predicate Valid()
      reads this
    {
      WellFormedScript(script)
    }

    constructor (replies: seq<Reply>)
      requires WellFormedScript(replies)
      ensures Valid() && script == replies && log == []
    {
      script := replies;
      log := [];
    }

    /**
     * `TransceiveData(pdc, sendData, sendLen, backData, backLen, validBits,
     * rxAlign, collisionPos, sendCRC, recvCRC)`; the answer buffer is
     * `back[offset..offset + capacity]`, or absent when `back` is null.
     */
    method TransceiveData(send: seq<byte>, txLastBits: nat, back: array?<byte>, offset: nat,
                          capacity: nat, rxAlign: nat, sendCRC: bool, recvCRC: bool)
      returns (status: Status, backLen: nat, validBits: nat, collisionPos: nat)
      requires Valid() && rxAlign < 8
      requires back != null ==> offset + capacity <= back.Length
      modifies this, back
      ensures Valid()
      ensures log == old(log) + [Request(send, txLastBits, if back == null then 0 else capacity,
                                         rxAlign, sendCRC, recvCRC)]
      ensures script == Tail(old(script))
      ensures var h := Hear(Head(old(script)), back != null, if back == null then [] else old(back[..]),
                            offset, capacity, rxAlign, txLastBits);
              status == h.status && backLen == h.backLen && validBits == h.validBits
              && collisionPos == h.collisionPos && (back != null ==> back[..] == h.buf)
    {
      var r := Head(script);
      var h := Hear(r, back != null, if back == null then [] else back[..], offset, capacity, rxAlign, txLastBits);
      if back != null {
        forall i | 0 <= i < back.Length {
          back[i] := h.buf[i];
        }
      }
      log := log + [Request(send, txLastBits, if back == null then 0 else capacity, rxAlign, sendCRC, recvCRC)];
      script := Tail(script);
      status, backLen, validBits, collisionPos := h.status, h.backLen, h.validBits, h.collisionPos;
    }
  }
}
