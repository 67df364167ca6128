/**
 * Properties of the PICC_Select specification of module Picc: every frame
 * it hands to the reader is a well-formed ANTICOLLISION or SELECT frame of
 * ISO/IEC 14443-3 (section 6.5.3), each frame consumes exactly one reply,
 * no run exchanges more than 99 frames, and a successful run ends at a
 * cascade level whose SAK says "UID complete".
 */
module PiccProperties {
  import opened Pdc
  import opened Iso14443a
  import opened Picc

  /**
   * A frame of PICC_Select at cascade level `level`: SEL first, then either
   * an ANTICOLLISION frame whose length and last-byte bit count agree with
   * its NVB, or a 7-byte SELECT with NVB 0x70, a zero XOR over UID and BCC
   * and a CRC appended by the reader.
   */
  predicate LevelFrameOk(q: Request, level: nat)
    requires 1 <= level <= 3
  {
    q.rxAlign == 0 && !q.recvCRC && |q.send| >= 2 && q.send[0] == SelCode(level)
    && if q.sendCRC then
         |q.send| == 7 && q.send[1] == NVB_SELECT && q.txLastBits == 0 && q.capacity == 3
         && q.send[2] ^ q.send[3] ^ q.send[4] ^ q.send[5] ^ q.send[6] == 0
       else
         16 <= NvbBits(q.send[1]) < 48 && |q.send| == BytesFor(NvbBits(q.send[1]))
         && q.txLastBits == NvbBits(q.send[1]) % 8 && q.capacity + (q.send[1] >> 4) as nat == 9
  }

  /** A frame of some cascade level. */
  predicate FrameOk(q: Request)
  {
    |q.send| > 0 && 1 <= LevelOf(q.send[0]) <= 3 && LevelFrameOk(q, LevelOf(q.send[0]))
  }

  /** The script after `n` exchanges: one reply consumed per frame, silence once empty. */
  function Skip(script: seq<Reply>, n: nat): (rest: seq<Reply>)
    ensures |rest| <= |script|
  {
    if n == 0 then script else Skip(Tail(script), n - 1)
  }

  /** Skipping `n` replies drops the first `n` of them, or all of them. */
  lemma {:induction false} SkipDrops(script: seq<Reply>, n: nat)
    ensures n <= |script| ==> Skip(script, n) == script[n..]
    ensures n >= |script| ==> Skip(script, n) == []
  {
    if n > 0 {
      SkipDrops(Tail(script), n - 1);
      if 0 < n <= |script| {
        assert Tail(script)[n - 1..] == script[n..];
      }
    }
  }

  /**
   * The outcome `s` of a run that started in `st`: the log grows by at most
   * `budget` frames, every one of them well-formed, each consuming one
   * reply; a success reports a 4-, 7- or 10-byte UID with a SAK that does
   * not announce a further level.
   */
  ghost predicate Follows(log: seq<Request>, script: seq<Reply>, s: Selection, budget: nat)
  {
    log <= s.log && |s.log| <= |log| + budget
    && (forall i :: |log| <= i < |s.log| ==> FrameOk(s.log[i]))
    && s.script == Skip(script, |s.log| - |log|)
    && Complete(s)
  }

  /** A successful selection ends with a complete UID. */
  predicate Complete(s: Selection)
  {
    s.status == Ok ==> (s.uidSize == 4 || s.uidSize == 7 || s.uidSize == 10) && s.sak & 0x04 == 0
  }

  /** The frame of one inner-loop pass is well-formed for the level in byte 0. */
  lemma {:induction false} FrameIsWellFormed(known: nat, buf: seq<byte>, level: nat)
    requires |buf| == 9 && 1 <= level <= 3 && buf[0] == SelCode(level)
    ensures FrameOk(Frame(known, buf))
  {
    var q := Frame(known, buf);
    assert LevelOf(q.send[0]) == level;
    if known < 32 {
      var nvb := Nvb(known);
      assert q.send[1] == nvb;
      assert (16 + known) % 8 == known % 8;
    }
  }

  /** One pass more of the inner loop: its frame is logged and one reply consumed. */
  lemma {:induction false} PassFollows(level: nat, known: nat, buf: seq<byte>, log: seq<Request>, script: seq<Reply>,
                                        s: Selection, budget: nat, total: nat)
    requires 1 <= level <= 3 && |buf| == 9 && buf[0] == SelCode(level)
    requires Follows(log + [Frame(known, buf)], Tail(script), s, budget) && budget < total
    ensures Follows(log, script, s, total)
  {
    FrameIsWellFormed(known, buf, level);
    LogPrefix(log, Frame(known, buf), s.log);
    assert Skip(script, |s.log| - |log|) == Skip(Tail(script), |s.log| - |log| - 1);
  }

  /** A log that extends `log + [q]` extends `log`, with `q` right after it. */
  lemma {:induction false} LogPrefix(log: seq<Request>, q: Request, longer: seq<Request>)
    requires log + [q] <= longer
    ensures log <= longer && longer[|log|] == q
  {
    assert forall i :: 0 <= i < |log| ==> longer[i] == (log + [q])[i];
    assert longer[|log|] == (log + [q])[|log|];
  }

  /** A run that exchanged nothing more. */
  lemma {:induction false} Quiet(st: St, s: Selection, budget: nat)
    requires s.log == st.log && s.script == st.script && Complete(s)
    ensures Follows(st.log, st.script, s, budget)
  {
  }

  /** The outer loop from cascade level `level` on. */
  lemma {:induction false} CascadeLevelFollows(level: nat, validBits: nat, st: St)
    requires 1 <= level <= 4 && validBits <= 80 && st.Sound()
    ensures Follows(st.log, st.script, CascadeLevel(level, validBits, st), 33 * (4 - level))
    decreases 4 - level, 1, 0
  {
    if level <= 3 {
      var st1 := st.(buf := LevelFrame(st.buf, level, validBits, st.uidSize, st.uid));
      ExchangeFollows(level, validBits, StartKnownBits(level, validBits, st.uidSize), st1);
    }
  }

  /** The inner loop of level `level` with `known` bits known. */
  lemma {:induction false} ExchangeFollows(level: nat, validBits: nat, known: nat, st: St)
    requires 1 <= level <= 3 && validBits <= 80 && st.Sound() && st.buf[0] == SelCode(level)
    ensures Follows(st.log, st.script, Exchange(level, validBits, known, st), 33 - Min(known, 32) + 33 * (3 - level))
    decreases 4 - level, 0, 33 - Min(known, 32)
  {
    var s := Exchange(level, validBits, known, st);
    match InnerPass(known, st)
    case Again(k, next) =>
      assert next.log == st.log + [Frame(known, st.buf)] && next.script == Tail(st.script);
      assert s == Exchange(level, validBits, k, next);
      ExchangeFollows(level, validBits, k, next);
      PassFollows(level, known, st.buf, st.log, st.script, s, 33 - Min(k, 32) + 33 * (3 - level),
                  33 - Min(known, 32) + 33 * (3 - level));
    case SelectDone(n, vb, next) =>
      assert next.log == st.log + [Frame(known, st.buf)] && next.script == Tail(st.script);
      CompleteLevelFollows(level, validBits, n, vb, next);
      PassFollows(level, known, st.buf, st.log, st.script, s, 33 * (3 - level), 33 - Min(known, 32) + 33 * (3 - level));
    case Abort(status, next) =>
      assert next.log == st.log + [Frame(known, st.buf)] && next.script == Tail(st.script);
      Quiet(next, Stop(status, next), 0);
      PassFollows(level, known, st.buf, st.log, st.script, s, 0, 33 - Min(known, 32) + 33 * (3 - level));
  }

  lemma {:induction false} CompleteLevelFollows(level: nat, validBits: nat, responseLength: nat, rxValidBits: nat, st: St)
    requires 1 <= level <= 3 && validBits <= 80 && st.Sound()
    ensures Follows(st.log, st.script, CompleteLevel(level, validBits, responseLength, rxValidBits, st), 33 * (3 - level))
    decreases 4 - level, 0, 0
  {
    var uid := StoreUid(st.uid, st.buf, UidIndex(level));
    var s := CompleteLevel(level, validBits, responseLength, rxValidBits, st);
    if responseLength != 3 || rxValidBits != 0 {
      assert s == Stop(Error, st.(uid := uid));
      Quiet(st, s, 33 * (3 - level));
    } else if st.buf[6] & 0x04 != 0 {
      assert s == CascadeLevel(level + 1, validBits, st.(uid := uid));
      CascadeLevelFollows(level + 1, validBits, st.(uid := uid));
    } else {
      assert s == Selection(Ok, uid, 3 * level + 1, st.buf[6], st.log, st.script);
      Quiet(st, s, 33 * (3 - level));
    }
  }

  /**
   * PICC_Select sends only well-formed frames, at most 33 per cascade level,
   * consumes one reply per frame, and succeeds only with a 4-, 7- or
   * 10-byte UID and a final SAK without the cascade bit.
   */
  lemma {:induction false} SelectFollows(validBits: uint8, st: St)
    requires st.Sound()
    ensures Follows(st.log, st.script, SelectSpec(validBits, st), 99)
  {
    if validBits <= 80 {
      CascadeLevelFollows(1, validBits, st);
    }
  }

  // ---------------------------------------------------------------- a lone card

  /**
   * A lone card with a single-size UID u0..u3 (u0 is not the cascade tag)
   * answers the ANTICOLLISION with its UID and BCC and the SELECT with its
   * SAK and CRC: PICC_Select, given no known bits, sends exactly
   * `93 20` and `93 70 u0 u1 u2 u3 BCC`, and reports the UID, size 4 and
   * the SAK, whatever the frame buffer held before.
   */
  lemma {:induction false} LoneSingleSizeCard(st: St, u0: byte, u1: byte, u2: byte, u3: byte, sak: byte, crc0: byte, crc1: byte)
    requires st.Sound() && u0 != CT && sak & 0x04 == 0
    requires st.script == [Reply(Ok, [u0, u1, u2, u3, Bcc(u0, u1, u2, u3)], 0, 0), Reply(Ok, [sak, crc0, crc1], 0, 0)]
    ensures var s := SelectSpec(0, st);
            s.status == Ok && |s.uid| == 10 && s.uid[..4] == [u0, u1, u2, u3] && s.uid[4..] == st.uid[4..]
            && s.uidSize == 4 && s.sak == sak && s.script == []
            && s.log == st.log + [Request([SEL_CL1, 0x20], 0, 7, 0, false, false)]
                               + [Request([SEL_CL1, NVB_SELECT, u0, u1, u2, u3, Bcc(u0, u1, u2, u3)], 0, 3, 0, true, false)]
  {
    var st1 := st.(buf := LevelFrame(st.buf, 1, 0, st.uidSize, st.uid));
    assert StartKnownBits(1, 0, st.uidSize) == 0;
    assert SelectSpec(0, st) == Exchange(1, 0, 0, st1);
    var st2 := LoneCardAnticollision(st1, u0, u1, u2, u3, sak, crc0, crc1);
    ExchangeAgain(1, 0, 0, st1, 32, st2);
    var st3 := LoneCardSelected(st2, u0, u1, u2, u3, sak, crc0, crc1);
    ExchangeDone(1, 0, 32, st2, 3, 0, st3);
    StoredWholeUid(st.uid, st3.buf);
    assert CompleteLevel(1, 0, 3, 0, st3) == Selection(Ok, StoreUid(st.uid, st3.buf, 0), 4, sak, st3.log, st3.script);
  }

  /** The lone card's `93 20`: all five bytes come back and the next pass sends the SELECT. */
  lemma {:induction false} LoneCardAnticollision(st: St, u0: byte, u1: byte, u2: byte, u3: byte, sak: byte, crc0: byte, crc1: byte)
    returns (next: St)
    requires st.Sound() && st.buf[0] == SEL_CL1
    requires st.script == [Reply(Ok, [u0, u1, u2, u3, Bcc(u0, u1, u2, u3)], 0, 0), Reply(Ok, [sak, crc0, crc1], 0, 0)]
    ensures next.Sound() && InnerPass(0, st) == Again(32, next)
    ensures next.buf[0] == SEL_CL1 && next.buf[2..7] == [u0, u1, u2, u3, Bcc(u0, u1, u2, u3)]
    ensures next.uid == st.uid && next.uidSize == st.uidSize && next.script == [Reply(Ok, [sak, crc0, crc1], 0, 0)]
    ensures next.log == st.log + [Request([SEL_CL1, 0x20], 0, 7, 0, false, false)]
  {
    next := AnticollisionAnswered(st, [u0, u1, u2, u3, Bcc(u0, u1, u2, u3)]);
  }

  /** The lone card's SELECT: the SAK lands behind the UID bytes. */
  lemma {:induction false} LoneCardSelected(st: St, u0: byte, u1: byte, u2: byte, u3: byte, sak: byte, crc0: byte, crc1: byte)
    returns (next: St)
    requires st.Sound() && st.buf[0] == SEL_CL1 && st.buf[2..7] == [u0, u1, u2, u3, Bcc(u0, u1, u2, u3)]
    requires st.script == [Reply(Ok, [sak, crc0, crc1], 0, 0)]
    ensures next.Sound() && InnerPass(32, st) == SelectDone(3, 0, next)
    ensures next.uid == st.uid && next.uidSize == st.uidSize && next.buf[2..6] == [u0, u1, u2, u3]
    ensures next.buf[2] == u0 && next.buf[6] == sak && next.script == []
    ensures next.log == st.log + [Request([SEL_CL1, NVB_SELECT, u0, u1, u2, u3, Bcc(u0, u1, u2, u3)], 0, 3, 0, true, false)]
  {
    UidBytes(st.buf, u0, u1, u2, u3, Bcc(u0, u1, u2, u3));
    next := SelectAnswered(st, [sak, crc0, crc1]);
  }

  lemma {:induction false} UidBytes(b: seq<byte>, u0: byte, u1: byte, u2: byte, u3: byte, bcc: byte)
    requires |b| >= 7 && b[2..7] == [u0, u1, u2, u3, bcc]
    ensures b[2] == u0 && b[3] == u1 && b[4] == u2 && b[5] == u3 && b[2..6] == [u0, u1, u2, u3]
  {
    assert b[2..6] == b[2..7][..4];
  }

  /** Level 1 completion without a cascade tag stores frame bytes 2..5 as UID bytes 0..3. */
  lemma {:induction false} StoredWholeUid(uid: seq<byte>, buf: seq<byte>)
    requires |uid| == 10 && |buf| == 9 && buf[2] != CT
    ensures StoreUid(uid, buf, 0)[..4] == buf[2..6] && StoreUid(uid, buf, 0)[4..] == uid[4..]
  {
  }

  lemma {:induction false} ExchangeAgain(level: nat, validBits: nat, known: nat, st: St, k: nat, next: St)
    requires 1 <= level <= 3 && validBits <= 80 && st.Sound() && next.Sound()
    requires InnerPass(known, st) == Again(k, next)
    ensures Exchange(level, validBits, known, st) == Exchange(level, validBits, k, next)
  {
  }

  lemma {:induction false} ExchangeDone(level: nat, validBits: nat, known: nat, st: St, n: nat, vb: nat, next: St)
    requires 1 <= level <= 3 && validBits <= 80 && st.Sound() && next.Sound()
    requires InnerPass(known, st) == SelectDone(n, vb, next)
    ensures Exchange(level, validBits, known, st) == CompleteLevel(level, validBits, n, vb, next)
  {
  }

  /** A whole-UID answer to the first ANTICOLLISION of level 1 (`93 20`). */
  lemma {:induction false} AnticollisionAnswered(st: St, data: seq<byte>) returns (next: St)
    requires st.Sound() && st.buf[0] == SEL_CL1 && |data| == 5
    requires st.script != [] && st.script[0] == Reply(Ok, data, 0, 0)
    ensures next.Sound() && InnerPass(0, st) == Again(32, next)
    ensures next.buf[0] == SEL_CL1 && next.buf[2..7] == data && next.uid == st.uid && next.uidSize == st.uidSize
    ensures next.log == st.log + [Request([SEL_CL1, 0x20], 0, 7, 0, false, false)] && next.script == st.script[1..]
  {
    next := Sent(0, st);
    var h := Answer(0, st);
    assert h == Heard(Ok, Received(st.buf[1 := Nvb(0)], 2, data, 0), 5, 0, 0);
    assert h.buf[2..7] == data;
    assert Frame(0, st.buf).send == [SEL_CL1, 0x20];
  }

  /** A SAK answer to the SELECT of the UID bytes in the frame. */
  lemma {:induction false} SelectAnswered(st: St, data: seq<byte>) returns (next: St)
    requires st.Sound() && |data| == 3
    requires st.script != [] && st.script[0] == Reply(Ok, data, 0, 0)
    ensures next.Sound() && InnerPass(32, st) == SelectDone(3, 0, next)
    ensures next.buf[2..6] == st.buf[2..6] && next.buf[6] == data[0] && next.uid == st.uid && next.uidSize == st.uidSize
    ensures next.log == st.log + [Request([st.buf[0], NVB_SELECT, st.buf[2], st.buf[3], st.buf[4], st.buf[5],
                                           Bcc(st.buf[2], st.buf[3], st.buf[4], st.buf[5])], 0, 3, 0, true, false)]
    ensures next.script == st.script[1..]
  {
    next := Sent(32, st);
    var h := Answer(32, st);
    assert h == Heard(Ok, Received(SelectFrame(st.buf), 6, data, 0), 3, 0, 0);
    assert h.buf[2..6] == st.buf[2..6];
    var b := st.buf;
    assert SelectFrame(b) == b[1 := NVB_SELECT][6 := Bcc(b[2], b[3], b[4], b[5])];
    assert Frame(32, b).send == [b[0], NVB_SELECT, b[2], b[3], b[4], b[5], Bcc(b[2], b[3], b[4], b[5])];
  }
}
