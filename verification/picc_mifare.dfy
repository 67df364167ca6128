/**
 * MIFARE_READ and MFU_Write of cards/picc.c: a MIFARE Ultralight READ and
 * WRITE sent through the reader's abstract `TransceiveData` (module Pdc).
 * A card that refuses a command answers with a single 4-bit NAK nibble
 * instead of data; both functions turn that nibble into a status.
 */
module PiccMifare {
  import opened Pdc
  import Mifare
  import Mfrc522

  /** The room MIFARE_READ gives the answer: one 16-byte read of four pages. */
  const PAGES_SIZE: nat := 16

  /**
   * The status a 4-bit answer stands for: 0x0 invalid argument, 0x1 CRC
   * error, 0x4 authentication error, 0x5 EEPROM error; the ACK 0xA is
   * success only where an acknowledgement is the expected answer.
   */
  function NakStatus(nak: byte, ackIsOk: bool): (s: Status)
    ensures s == Ok <==> ackIsOk && nak == Mfrc522.MF_ACK
    ensures s != Error ==> nak == 0x0 || nak == 0x1 || nak == 0x4 || nak == 0x5 || nak == Mfrc522.MF_ACK
    ensures s == Invalid <==> nak == 0x0
    ensures s == CrcWrong <==> nak == 0x1
    ensures s == AuthError <==> nak == 0x4
    ensures s == EepromError <==> nak == 0x5
  {
    if nak == 0x0 then Invalid
    else if nak == 0x1 then CrcWrong
    else if nak == 0x4 then AuthError
    else if nak == 0x5 then EepromError
    else if nak == Mfrc522.MF_ACK && ackIsOk then Ok
    else Error
  }

  /**
   * MIFARE_READ against reply `r` with answer buffer `buf`: the status and
   * the buffer afterwards.  Only a whole 16-byte answer is a success; a
   * single 4-bit answer is a NAK; a failed exchange passes its status on.
   */
  function ReadSpec(r: Reply, buf: seq<byte>): (o: (Status, seq<byte>))
    requires |buf| >= PAGES_SIZE
    ensures |o.1| == |buf|
    ensures o.0 == Ok <==> r.status == Ok && |r.data| == PAGES_SIZE
    ensures r.status == Ok && |r.data| == PAGES_SIZE ==> o.1[..PAGES_SIZE] == r.data && o.1[PAGES_SIZE..] == buf[PAGES_SIZE..]
    ensures r.status == Ok && |r.data| == 1 && r.validBits == 4 ==> o.0 == NakStatus(r.data[0], false)
    ensures r.status != Ok && r.status != Collision ==> o == (r.status, buf)
  {
    var h := Hear(r, true, buf, 0, PAGES_SIZE, 0, 0);
    assert r.status == Ok && 0 < |r.data| <= PAGES_SIZE ==> h.buf[0] == r.data[0];
    assert r.status == Ok && |r.data| == PAGES_SIZE ==>
             forall i :: 0 <= i < PAGES_SIZE ==> h.buf[..PAGES_SIZE][i] == r.data[i];
    var s := if h.status == Ok && h.backLen == 1 && h.validBits == 4 then NakStatus(h.buf[0], false)
             else if h.backLen != PAGES_SIZE then Error
             else h.status;
    (s, h.buf)
  }

  /**
   * MFU_Write against reply `r`: success is an exchange without error
   * whose answer, if it is a 4-bit nibble, is the ACK.
   */
  function WriteSpec(r: Reply): (s: Status)
    ensures s == Ok <==> r.status == Ok && |r.data| <= 1 && (|r.data| == 1 && r.validBits == 4 ==> r.data[0] == Mfrc522.MF_ACK)
    ensures r.status == Ok && |r.data| == 1 && r.validBits == 4 ==> s == NakStatus(r.data[0], true)
    ensures r.status != Ok && r.status != Collision ==> s == r.status
  {
    var h := Hear(r, true, [0], 0, 1, 0, 0);
    assert r.status == Ok && |r.data| == 1 ==> h.buf[0] == r.data[0];
    if h.status == Ok && h.backLen == 1 && h.validBits == 4 then NakStatus(h.buf[0], true) else h.status
  }

  /** MIFARE_READ: READ with the page number and CRC, 16 bytes back into `data`. */
  method Read(pdc: Device, page: int, data: array<byte>) returns (result: Status)
    requires pdc.Valid() && data.Length >= PAGES_SIZE
    modifies pdc, data
    ensures pdc.Valid()
    ensures pdc.log == old(pdc.log) + [Request([Mifare.MF_READ, ByteOf(page % 256)], 0, PAGES_SIZE, 0, true, true)]
    ensures pdc.script == Tail(old(pdc.script))
    ensures (result, data[..]) == ReadSpec(Head(old(pdc.script)), old(data[..]))
  {
    var buffer := [Mifare.MF_READ, ByteOf(page % 256)];
    var backsize, validBits, collisionPos;
    result, backsize, validBits, collisionPos := pdc.TransceiveData(buffer, 0, data, 0, PAGES_SIZE, 0, true, true);
    if result == Ok && backsize == 1 && validBits == 4 {
      result := NakStatus(data[0], false);
      return;
    }
    if backsize != PAGES_SIZE {
      return Error;
    }
  }

  /** MFU_Write: WRITE with the page number, four data bytes and CRC; a 4-bit answer is decoded. */
  method Write(pdc: Device, page: int, data: array<byte>) returns (result: Status)
    requires pdc.Valid() && data.Length >= 4
    modifies pdc
    ensures pdc.Valid()
    ensures pdc.log == old(pdc.log) + [Request([Mifare.UL_WRITE, ByteOf(page % 256)] + data[..4], 0, 1, 0, true, false)]
    ensures pdc.script == Tail(old(pdc.script))
    ensures result == WriteSpec(Head(old(pdc.script)))
  {
    var buffer := [Mifare.UL_WRITE, ByteOf(page % 256)] + data[..4];
    var backBuffer := new byte[1];
    backBuffer[0] := 0;
    var backsize, validBits, collisionPos;
    result, backsize, validBits, collisionPos := pdc.TransceiveData(buffer, 0, backBuffer, 0, 1, 0, true, false);
    if result == Ok && backsize == 1 && validBits == 4 {
      result := NakStatus(backBuffer[0], true);
    }
  }
}
