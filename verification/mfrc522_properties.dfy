/**
 * Properties of PICC_Select of drivers/rc522/MFRC522.c (module
 * Mfrc522Select): every command it starts is a well-formed ANTICOLLISION,
 * or a nine-byte SELECT with BCC and CRC_A, framed in BitFramingReg with
 * the receive alignment equal to the valid bits of the last byte sent;
 * each command consumes one round of the chip; no run starts more than 99
 * commands; a success ends with a complete UID; and for a lone card the
 * SAK is accepted exactly when its CRC_A is right.
 */
module Mfrc522Properties {
  import opened Pdc
  import opened Iso14443a
  import opened Mfrc522
  import opened Mfrc522Select
  import Picc
  import PiccProperties

  /** A command of PICC_Select at cascade level `level`. */
  predicate LevelCommandOk(c: Command, level: nat)
    requires 1 <= level <= 3
  {
    c.command == CMD_TRANSCEIVE && |c.send| >= 2 && c.send[0] == SelCode(level)
    && if |c.send| == 9 then
         c.send[1] == NVB_SELECT && c.bitFraming == 0
         && c.send[2] ^ c.send[3] ^ c.send[4] ^ c.send[5] ^ c.send[6] == 0
         && c.send[7..] == CrcA(c.send[..7])
       else
         16 <= NvbBits(c.send[1]) < 48 && |c.send| == BytesFor(NvbBits(c.send[1]))
         && (c.bitFraming >> 4) as nat == NvbBits(c.send[1]) % 8
         && (c.bitFraming & 0x0F) as nat == NvbBits(c.send[1]) % 8
  }

  predicate CommandOk(c: Command)
  {
    |c.send| > 0 && 1 <= LevelOf(c.send[0]) <= 3 && LevelCommandOk(c, LevelOf(c.send[0]))
  }

  /** The rounds left after `n` commands. */
  function Skip(script: seq<Round>, n: nat): (rest: seq<Round>)
    ensures |rest| <= |script|
  {
    if n == 0 then script else Skip(Rest(script), n - 1)
  }

  /** Skipping `n` replies drops the first `n` of them, or all of them. */
  lemma {:induction false} SkipDrops(script: seq<Round>, n: nat)
    ensures n <= |script| ==> Skip(script, n) == script[n..]
    ensures n >= |script| ==> Skip(script, n) == []
  {
    if n > 0 {
      SkipDrops(Rest(script), n - 1);
      if 0 < n <= |script| {
        assert Rest(script)[n - 1..] == script[n..];
      }
    }
  }

  predicate Complete(s: Selection)
  {
    s.status == Ok ==> (s.size == 4 || s.size == 7 || s.size == 10) && s.sak & 0x04 == 0
  }

  /**
   * The outcome `s` of a run that started with `log` and `script`: at most
   * `budget` more commands, all well-formed, one round each, and a
   * complete UID on success.
   */
  ghost predicate Follows(log: seq<Command>, script: seq<Round>, s: Selection, budget: nat)
  {
    log <= s.log && |s.log| <= |log| + budget
    && (forall i :: |log| <= i < |s.log| ==> CommandOk(s.log[i]))
    && s.script == Skip(script, |s.log| - |log|)
    && Complete(s)
  }

  lemma {:induction false} CommandIsWellFormed(known: nat, buf: seq<byte>, level: nat)
    requires |buf| == 9 && 1 <= level <= 3 && buf[0] == SelCode(level)
    ensures CommandOk(Sending(known, buf))
  {
    var c := Sending(known, buf);
    assert LevelOf(c.send[0]) == level;
    if known < 32 {
      assert c.send[1] == Nvb(known);
      assert (16 + known) % 8 == known % 8;
    } else {
      assert c.send == SelectWithCrc(buf);
    }
  }

  lemma {:induction false} LogPrefix(log: seq<Command>, c: Command, longer: seq<Command>)
    requires log + [c] <= longer
    ensures log <= longer && longer[|log|] == c
  {
    assert forall i :: 0 <= i < |log| ==> longer[i] == (log + [c])[i];
    assert longer[|log|] == (log + [c])[|log|];
  }

  lemma {:induction false} PassFollows(level: nat, known: nat, buf: seq<byte>, log: seq<Command>, script: seq<Round>,
                                        s: Selection, budget: nat, total: nat)
    requires 1 <= level <= 3 && |buf| == 9 && buf[0] == SelCode(level)
    requires Follows(log + [Sending(known, buf)], Rest(script), s, budget) && budget < total
    ensures Follows(log, script, s, total)
  {
    CommandIsWellFormed(known, buf, level);
    LogPrefix(log, Sending(known, buf), s.log);
    assert Skip(script, |s.log| - |log|) == Skip(Rest(script), |s.log| - |log| - 1);
  }

  lemma {:induction false} Quiet(st: St, s: Selection, budget: nat)
    requires s.log == st.log && s.script == st.script && Complete(s)
    ensures Follows(st.log, st.script, s, budget)
  {
  }

  lemma {:induction false} CascadeLevelFollows(level: nat, validBits: nat, st: St)
    requires 1 <= level <= 4 && validBits <= 80 && st.Sound()
    ensures Follows(st.log, st.script, CascadeLevel(level, validBits, st), 33 * (4 - level))
    decreases 4 - level, 1, 0
  {
    if level <= 3 {
      var st1 := st.(buf := LevelFrame(st.buf, level, validBits, st.size, st.uid));
      ExchangeFollows(level, validBits, StartKnownBits(level, validBits, st.size), st1);
    }
  }

  lemma {:induction false} ExchangeFollows(level: nat, validBits: nat, known: nat, st: St)
    requires 1 <= level <= 3 && validBits <= 80 && st.Sound() && st.buf[0] == SelCode(level)
    ensures Follows(st.log, st.script, Exchange(level, validBits, known, st),
                    33 - Picc.Min(known, 32) + 33 * (3 - level))
    decreases 4 - level, 0, 33 - Picc.Min(known, 32)
  {
    var s := Exchange(level, validBits, known, st);
    match InnerPass(known, st)
    case Again(k, next) =>
      assert next.log == st.log + [Sending(known, st.buf)] && next.script == Rest(st.script);
      assert s == Exchange(level, validBits, k, next);
      ExchangeFollows(level, validBits, k, next);
      PassFollows(level, known, st.buf, st.log, st.script, s, 33 - Picc.Min(k, 32) + 33 * (3 - level),
                  33 - Picc.Min(known, 32) + 33 * (3 - level));
    case SelectDone(n, vb, next) =>
      assert next.log == st.log + [Sending(known, st.buf)] && next.script == Rest(st.script);
      CompleteLevelFollows(level, validBits, n, vb, next);
      PassFollows(level, known, st.buf, st.log, st.script, s, 33 * (3 - level), 33 - Picc.Min(known, 32) + 33 * (3 - level));
    case Abort(status, next) =>
      assert next.log == st.log + [Sending(known, st.buf)] && next.script == Rest(st.script);
      Quiet(next, Stop(status, next), 0);
      PassFollows(level, known, st.buf, st.log, st.script, s, 0, 33 - Picc.Min(known, 32) + 33 * (3 - level));
  }

  lemma {:induction false} CompleteLevelFollows(level: nat, validBits: nat, responseLength: nat, rxValidBits: nat, st: St)
    requires 1 <= level <= 3 && validBits <= 80 && st.Sound()
    ensures Follows(st.log, st.script, CompleteLevel(level, validBits, responseLength, rxValidBits, st), 33 * (3 - level))
    decreases 4 - level, 0, 0
  {
    var uid := StoreUid(st.uid, st.buf, UidIndex(level));
    var s := CompleteLevel(level, validBits, responseLength, rxValidBits, st);
    var checked := st.(uid := uid, buf := SakChecked(st.buf));
    if responseLength != 3 || rxValidBits != 0 {
      assert s == Stop(Error, st.(uid := uid));
      Quiet(st, s, 33 * (3 - level));
    } else if checked.buf[2..4] != st.buf[7..9] {
      assert s == Stop(CrcWrong, checked);
      Quiet(st, s, 33 * (3 - level));
    } else if st.buf[6] & 0x04 != 0 {
      assert s == CascadeLevel(level + 1, validBits, checked);
      CascadeLevelFollows(level + 1, validBits, checked);
    } else {
      assert s == Selection(Ok, uid, 3 * level + 1, st.buf[6], st.log, st.script);
      Quiet(st, s, 33 * (3 - level));
    }
  }

  /**
   * PICC_Select of the MFRC522 driver starts only well-formed commands, at
   * most 33 per cascade level, consumes one round per command, and
   * succeeds only with a 4-, 7- or 10-byte UID and a final SAK without the
   * cascade bit.  It reads like PiccProperties.SelectFollows, but it is about
   * this driver's own SelectSpec, St and Follows: the two PICC_Select
   * engines keep separate state, so each has its own lemma.
   */
  lemma {:induction false} SelectFollows(validBits: uint8, st: St)
    requires st.Sound()
    ensures Follows(st.log, st.script, SelectSpec(validBits, st), 99)
  {
    if validBits <= 80 {
      CascadeLevelFollows(1, validBits, st);
    }
  }

  // ---------------------------------------------------------------- a lone card

  /** A round in which the command completes at once without errors and the FIFO holds `data`. */
  function Answering(data: seq<byte>): Round
  {
    Round([WAIT_TRANSCEIVE], 0, data, 0, 0)
  }

  /**
   * A lone card with a single-size UID u0..u3 (u0 not the cascade tag):
   * given no known bits, PICC_Select starts exactly `93 20` and the
   * nine-byte `93 70 u0 u1 u2 u3 BCC CRC_A`, and it accepts the SAK exactly
   * when the two bytes after it are its CRC_A; then it reports the UID,
   * size 4 and the SAK.
   */
  lemma {:induction false} LoneSingleSizeCard(st: St, u0: byte, u1: byte, u2: byte, u3: byte, sak: byte, crc0: byte, crc1: byte)
    requires st.Sound() && u0 != CT && sak & 0x04 == 0
    requires st.script == [Answering([u0, u1, u2, u3, Bcc(u0, u1, u2, u3)]), Answering([sak, crc0, crc1])]
    ensures var s := SelectSpec(0, st);
            var select := [SEL_CL1, NVB_SELECT, u0, u1, u2, u3, Bcc(u0, u1, u2, u3)];
            s.log == st.log + [Command(CMD_TRANSCEIVE, [SEL_CL1, 0x20], 0)]
                            + [Command(CMD_TRANSCEIVE, select + CrcA(select), 0)]
            && s.script == []
            && (s.status == Ok <==> [crc0, crc1] == CrcA([sak]))
            && (s.status != Ok ==> s.status == CrcWrong)
            && (s.status == Ok ==> |s.uid| == 10 && s.uid[..4] == [u0, u1, u2, u3] && s.uid[4..] == st.uid[4..]
                                   && s.size == 4 && s.sak == sak)
  {
    var st3 := LoneCardExchanges(st, u0, u1, u2, u3, sak, crc0, crc1);
    SakAccepted(st3, sak, crc0, crc1);
    PiccProperties.StoredWholeUid(st.uid, st3.buf);
    var s := SelectSpec(0, st);
    assert s == CompleteLevel(1, 0, 3, 0, st3);
    assert s.uid == StoreUid(st.uid, st3.buf, 0);
    assert s.uid[..4] == st3.buf[2..6] == [u0, u1, u2, u3];
  }

  /** The two commands of the lone card's level 1, up to the check of the SAK. */
  lemma {:induction false} LoneCardExchanges(st: St, u0: byte, u1: byte, u2: byte, u3: byte, sak: byte, crc0: byte, crc1: byte)
    returns (st3: St)
    requires st.Sound() && u0 != CT
    requires st.script == [Answering([u0, u1, u2, u3, Bcc(u0, u1, u2, u3)]), Answering([sak, crc0, crc1])]
    ensures st3.Sound() && SelectSpec(0, st) == CompleteLevel(1, 0, 3, 0, st3)
    ensures st3.uid == st.uid && st3.buf[2..6] == [u0, u1, u2, u3] && st3.buf[6..9] == [sak, crc0, crc1]
    ensures var select := [SEL_CL1, NVB_SELECT, u0, u1, u2, u3, Bcc(u0, u1, u2, u3)];
            st3.log == st.log + [Command(CMD_TRANSCEIVE, [SEL_CL1, 0x20], 0)] + [Command(CMD_TRANSCEIVE, select + CrcA(select), 0)]
            && st3.script == []
  {
    var st1 := st.(buf := LevelFrame(st.buf, 1, 0, st.size, st.uid));
    assert StartKnownBits(1, 0, st.size) == 0;
    assert SelectSpec(0, st) == Exchange(1, 0, 0, st1);
    var st2 := LoneCardAnticollision(st1, u0, u1, u2, u3, sak, crc0, crc1);
    ExchangeAgain(1, 0, 0, st1, 32, st2);
    st3 := LoneCardSelected(st2, u0, u1, u2, u3, sak, crc0, crc1);
    ExchangeDone(1, 0, 32, st2, 3, 0, st3);
  }

  /** The lone card's `93 20`: all five bytes come back and the next pass sends the SELECT. */
  lemma {:induction false} LoneCardAnticollision(st: St, u0: byte, u1: byte, u2: byte, u3: byte, sak: byte, crc0: byte, crc1: byte)
    returns (next: St)
    requires st.Sound() && st.buf[0] == SEL_CL1
    requires st.script == [Answering([u0, u1, u2, u3, Bcc(u0, u1, u2, u3)]), Answering([sak, crc0, crc1])]
    ensures next.Sound() && InnerPass(0, st) == Again(32, next)
    ensures next.buf[0] == SEL_CL1 && next.buf[2..7] == [u0, u1, u2, u3, Bcc(u0, u1, u2, u3)]
    ensures next.uid == st.uid && next.script == [Answering([sak, crc0, crc1])]
    ensures next.log == st.log + [Command(CMD_TRANSCEIVE, [SEL_CL1, 0x20], 0)]
  {
    next := AnticollisionAnswered(st, [u0, u1, u2, u3, Bcc(u0, u1, u2, u3)]);
  }

  /** The lone card's SELECT: the SAK and the two bytes after it land behind the UID bytes. */
  lemma {:induction false} LoneCardSelected(st: St, u0: byte, u1: byte, u2: byte, u3: byte, sak: byte, crc0: byte, crc1: byte)
    returns (next: St)
    requires st.Sound() && st.buf[0] == SEL_CL1 && st.buf[2..7] == [u0, u1, u2, u3, Bcc(u0, u1, u2, u3)]
    requires st.script == [Answering([sak, crc0, crc1])]
    ensures next.Sound() && InnerPass(32, st) == SelectDone(3, 0, next)
    ensures next.uid == st.uid && next.buf[2..6] == [u0, u1, u2, u3]
    ensures next.buf[6..9] == [sak, crc0, crc1] && next.script == []
    ensures var select := [SEL_CL1, NVB_SELECT, u0, u1, u2, u3, Bcc(u0, u1, u2, u3)];
            next.log == st.log + [Command(CMD_TRANSCEIVE, select + CrcA(select), 0)]
  {
    PiccProperties.UidBytes(st.buf, u0, u1, u2, u3, Bcc(u0, u1, u2, u3));
    next := SelectAnswered(st, [sak, crc0, crc1]);
    SelectOf(st.buf, u0, u1, u2, u3);
  }

  lemma {:induction false} SelectOf(b: seq<byte>, u0: byte, u1: byte, u2: byte, u3: byte)
    requires |b| == 9 && b[0] == SEL_CL1 && b[2..7] == [u0, u1, u2, u3, Bcc(u0, u1, u2, u3)]
    ensures var select := [SEL_CL1, NVB_SELECT, u0, u1, u2, u3, Bcc(u0, u1, u2, u3)];
            Sending(32, b) == Command(CMD_TRANSCEIVE, select + CrcA(select), 0)
  {
    SelectSent(b);
    assert b[2] == u0 && b[3] == u1 && b[4] == u2 && b[5] == u3;
  }

  /** The end of level 1: a SAK without the cascade bit is accepted exactly when its CRC_A is right. */
  lemma {:induction false} SakAccepted(st: St, sak: byte, crc0: byte, crc1: byte)
    requires st.Sound() && st.buf[6..9] == [sak, crc0, crc1] && sak & 0x04 == 0
    ensures var s := CompleteLevel(1, 0, 3, 0, st);
            s.log == st.log && s.script == st.script && s.uid == StoreUid(st.uid, st.buf, 0)
            && (s.status == Ok <==> [crc0, crc1] == CrcA([sak]))
            && (s.status != Ok ==> s.status == CrcWrong)
            && (s.status == Ok ==> s.size == 4 && s.sak == sak)
  {
    assert st.buf[6] == st.buf[6..9][0] == sak;
    assert st.buf[6..7] == [sak];
    assert st.buf[7..9] == [crc0, crc1];
  }

  lemma {:induction false} ExchangeAgain(level: nat, validBits: nat, known: nat, st: St, k: nat, next: St)
    requires 1 <= level <= 3 && validBits <= 80 && st.Sound() && next.Sound()
    requires InnerPass(known, st) == Again(k, next)
    ensures Exchange(level, validBits, known, st) == Exchange(level, validBits, k, next)
  {
  }

  lemma {:induction false} ExchangeDone(level: nat, validBits: nat, known: nat, st: St, n: nat, vb: nat, next: St)
    requires 1 <= level <= 3 && validBits <= 80 && st.Sound() && next.Sound()
    requires InnerPass(known, st) == SelectDone(n, vb, next)
    ensures Exchange(level, validBits, known, st) == CompleteLevel(level, validBits, n, vb, next)
  {
  }

  /** A round that completes at once with `data` in the FIFO gives an error-free answer when `data` fits. */
  lemma {:induction false} AnsweredWith(known: nat, st: St, data: seq<byte>)
    requires st.script != [] && st.script[0] == Answering(data) && |data| <= 9 - Picc.AnswerOffset(known)
    ensures Answer(known, st) == Outcome(Ok, true, data, 0)
  {
    assert WaitFrom(Answering(data), WAIT_TRANSCEIVE, 0) == Completed;
  }

  /** The first ANTICOLLISION of level 1 (`93 20`) answered with a whole UID and BCC. */
  lemma {:induction false} AnticollisionAnswered(st: St, data: seq<byte>) returns (next: St)
    requires st.Sound() && st.buf[0] == SEL_CL1 && |data| == 5
    requires st.script != [] && st.script[0] == Answering(data)
    ensures next.Sound() && InnerPass(0, st) == Again(32, next)
    ensures next.buf[0] == SEL_CL1 && next.buf[2..7] == data && next.uid == st.uid && next.size == st.size
    ensures next.log == st.log + [Command(CMD_TRANSCEIVE, [SEL_CL1, 0x20], 0)] && next.script == st.script[1..]
  {
    next := Sent(0, st);
    AnsweredWith(0, st, data);
    assert Sending(0, st.buf).send == [SEL_CL1, 0x20];
  }

  /** The SELECT of the MFRC522 driver sends SEL, NVB 0x70, the four UID bytes, BCC and CRC_A. */
  lemma {:induction false} SelectSent(b: seq<byte>)
    requires |b| == 9
    ensures var select := [b[0], NVB_SELECT, b[2], b[3], b[4], b[5], Bcc(b[2], b[3], b[4], b[5])];
            Sending(32, b) == Command(CMD_TRANSCEIVE, select + CrcA(select), 0)
  {
    assert SelectFrame(b) == b[1 := NVB_SELECT][6 := Bcc(b[2], b[3], b[4], b[5])];
    var select := [b[0], NVB_SELECT, b[2], b[3], b[4], b[5], Bcc(b[2], b[3], b[4], b[5])];
    assert SelectWithCrc(b)[..7] == select;
  }

  /** The SELECT answered with three whole bytes. */
  lemma {:induction false} SelectAnswered(st: St, data: seq<byte>) returns (next: St)
    requires st.Sound() && |data| == 3
    requires st.script != [] && st.script[0] == Answering(data)
    ensures next.Sound() && InnerPass(32, st) == SelectDone(3, 0, next)
    ensures next.buf[2..6] == st.buf[2..6] && next.buf[6..9] == data && next.uid == st.uid && next.size == st.size
    ensures next.log == st.log + [Sending(32, st.buf)]
    ensures next.script == st.script[1..]
  {
    next := Sent(32, st);
    AnsweredWith(32, st, data);
    assert next.buf == Placed(SelectWithCrc(st.buf), 6, data);
  }
}
