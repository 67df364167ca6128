/**
 * The PN53x host-to-chip framing and the I2C exchange of drivers/pn53x.c:
 * pn53x_send_frame builds a normal information frame (start code, LEN,
 * LCS, TFI, data, DCS), writes it, waits for the ACK frame
 * (pn53x_recv_ack) and then polls for the response frame.
 *
 * The I2C bus is a scripted mock: each write returns the next scripted
 * result (0 once the script is used up) and each read delivers the next
 * scripted reception (a failed, empty read once the script is used up).
 */
module Pn53x {
  import opened Pdc

  /** PN53X_START_CODE 0xFF00 as it lies in memory (little-endian). */
  const START_CODE: seq<byte> := [0x00, 0xFF]

  /** PN53X_DIR_TO_PN53X: the TFI of a host-to-chip frame. */
  const TFI: byte := 0xD4

  /** PN53X_ACK and PN53X_NACK as 16-bit little-endian words. */
  const ACK: bv16 := 0xFF00
  const NACK: bv16 := 0x00FF

  /** Reads before a poll gives up. */
  const RETRIES: nat := 25

  /** Room for data and DCS in `pn53x_normal_frame_t`. */
  const DATA_ROOM: nat := 64

  /** sizeof(pn53x_i2c_spi_ack_nack_frame_t): data-ready, preamble, start code, ACK/NACK word. */
  const ACK_FRAME_SIZE: nat := 6

  /** sizeof(pn53x_i2c_spi_normal_frame_t): the 2-byte header and a normal frame. */
  const RESPONSE_SIZE: nat := 2 + 5 + DATA_ROOM

  // ---------------------------------------------------------------- framing

  /** The sum of the values of a sequence of bytes. */
  function Total(s: seq<byte>): nat
  {
    if s == [] then 0 else Total(s[..|s| - 1]) + s[|s| - 1] as nat
  }

  lemma {:induction false} TotalAppend(s: seq<byte>, t: seq<byte>)
    ensures Total(s + t) == Total(s) + Total(t)
    decreases |t|
  {
    if t == [] {
      assert s + t == s;
    } else {
      assert (s + t)[..|s + t| - 1] == s + t[..|t| - 1];
      TotalAppend(s, t[..|t| - 1]);
    }
  }

  /** `(uint8_t)(-x)`. */
  function Complement(x: int): byte
  {
    ByteOf((256 - x % 256) % 256)
  }

  /** The complement is the byte that brings `x` to a multiple of 256. */
  lemma {:induction false} ComplementCancels(x: int)
    ensures (x + Complement(x) as int) % 256 == 0
  {
    var y := x % 256;
    var q := x / 256;
    assert x == 256 * q + y;
    if y == 0 {
      assert Complement(x) as int == 0;
    } else {
      assert Complement(x) as int == 256 - y;
      assert x + Complement(x) as int == 256 * (q + 1);
    }
  }

  /** LEN: the data length plus one for the TFI, as a `uint8_t`. */
  function Len(n: nat): (b: byte)
    requires n < DATA_ROOM
    ensures b as nat == n + 1
  {
    ByteOf(n + 1)
  }

  /** Start code, LEN, LCS and TFI: the five bytes before the data. */
  function Header(n: nat): (h: seq<byte>)
    requires n < DATA_ROOM
    ensures |h| == 5 && h[..2] == START_CODE && h[4] == TFI
    ensures h[2] as nat == n + 1 && h[3] == Complement(h[2] as int)
  {
    START_CODE + [Len(n), Complement(Len(n) as int), TFI]
  }

  /** DCS: the complement of TFI plus the data. */
  function DataCheck(data: seq<byte>): byte
  {
    Complement(TFI as int + Total(data))
  }

  /**
   * The bytes pn53x_send_frame writes for `data`: start code, LEN, LCS =
   * -LEN, TFI, the data and DCS = -(TFI + data), `|data| + 6` bytes in all.
   */
  function Frame(data: seq<byte>): (f: seq<byte>)
    requires |data| < DATA_ROOM
    ensures |f| == |data| + 6 && f[..2] == START_CODE && f[4] == TFI && f[5..5 + |data|] == data
    ensures f[2] as nat == |data| + 1
  {
    Header(|data|) + data + [DataCheck(data)]
  }

  /**
   * A receiver's check of a normal information frame: start code, LEN
   * counting TFI and data, LCS the complement of LEN, TFI, and DCS the
   * complement of TFI plus the data.  Gives the data of a good frame.
   */
  function Unframe(f: seq<byte>): (d: Option<seq<byte>>)
    ensures d.Some? ==> |f| >= 6 && |d.value| == |f| - 6 && f[5..|f| - 1] == d.value
    ensures d.Some? ==> f[..2] == START_CODE && f[2] as nat == |d.value| + 1 && f[4] == TFI
  {
    if |f| >= 6 && f[..2] == START_CODE && f[2] as nat == |f| - 5 && f[3] == Complement(f[2] as int)
       && f[4] == TFI && f[|f| - 1] == DataCheck(f[5..|f| - 1])
    then Some(f[5..|f| - 1])
    else None
  }

  /** In a frame that passes the checks, LEN + LCS and TFI + data + DCS are multiples of 256. */
  lemma {:induction false} UnframeChecksums(f: seq<byte>)
    requires Unframe(f).Some?
    ensures (f[2] as int + f[3] as int) % 256 == 0
    ensures (f[4] as int + Total(f[5..|f| - 1]) + f[|f| - 1] as int) % 256 == 0
  {
    ComplementCancels(f[2] as int);
    ComplementCancels(TFI as int + Total(f[5..|f| - 1]));
  }

  /** Every frame pn53x_send_frame builds passes the checks and gives back its data. */
  lemma {:induction false} UnframeFrame(data: seq<byte>)
    requires |data| < DATA_ROOM
    ensures Unframe(Frame(data)) == Some(data)
  {
    var f := Frame(data);
    assert f[5..|f| - 1] == data;
  }

  /** And a frame that passes the checks is the frame of its data. */
  lemma {:induction false} FrameUnframe(f: seq<byte>)
    requires Unframe(f).Some? && |f| - 6 < DATA_ROOM
    ensures Frame(Unframe(f).value) == f
  {
    var data := f[5..|f| - 1];
    var n := |data|;
    assert f[2] == Len(n) by {
      SameValue(f[2], Len(n));
    }
    assert f[..5] == f[..2] + [f[2], f[3], f[4]];
    assert f[5..5 + n] == data;
    FrameOf(f, data);
  }

  /**
   * The frame-building part of pn53x_send_frame: `request` is the
   * `pn53x_normal_frame_t` and `size` the number of its bytes sent.
   */
  method BuildFrame(data: array<byte>, len: nat) returns (request: array<byte>, size: nat)
    requires len <= data.Length && len < DATA_ROOM
    ensures fresh(request) && request.Length == 5 + DATA_ROOM
    ensures size == len + 6 && request[..size] == Frame(data[..len])
  {
    request := new byte[5 + DATA_ROOM];
    WriteHeader(request, len);
    size := len + 6;
    var dcs := DataChecksum(data, len, TFI);
    CopyData(request, data, len);
    var check := Complement(dcs as int);
    request[5 + len] := check;
    FrameOf(request[..size], data[..len]);
  }

  /** The five header stores of pn53x_send_frame. */
  method WriteHeader(request: array<byte>, len: nat)
    requires request.Length == 5 + DATA_ROOM && len < DATA_ROOM
    modifies request
    ensures request[..5] == Header(len)
  {
    var lenByte := Len(len);
    request[0], request[1], request[2], request[3], request[4] :=
      START_CODE[0], START_CODE[1], lenByte, Complement(lenByte as int), TFI;
  }

  /** Header, data and DCS in a row are the frame of the data. */
  lemma {:induction false} FrameOf(s: seq<byte>, data: seq<byte>)
    requires |data| < DATA_ROOM && |s| == |data| + 6
    requires s[..5] == Header(|data|) && s[5..5 + |data|] == data && s[5 + |data|] == DataCheck(data)
    ensures s == Frame(data)
  {
    var n := |data|;
    assert s[..n + 5] == s[..5] + s[5..n + 5];
    assert s == s[..n + 5] + [s[n + 5]];
    assert Frame(data) == Header(n) + data + [DataCheck(data)];
  }

  /**
   * The `dcs` loop: TFI plus the data, reduced to a `uint8_t` (the source
   * wraps at every step, which leaves the same byte).
   */
  method DataChecksum(data: array<byte>, len: nat, tfi: byte) returns (dcs: byte)
    requires len <= data.Length
    ensures Complement(dcs as int) == Complement(tfi as int + Total(data[..len]))
  {
    var sum: int := tfi as int;
    for i := 0 to len
      invariant sum == tfi as int + Total(data[..i])
    {
      assert data[..i + 1][..i] == data[..i];
      sum := sum + data[i] as int;
    }
    dcs := Truncate(sum);
    ComplementMod(sum);
  }

  /** `(uint8_t)x`. */
  function Truncate(x: int): (b: byte)
    ensures b as int == x % 256
  {
    ByteOf(x % 256)
  }

  lemma {:induction false} ComplementMod(x: int)
    ensures Complement(x % 256) == Complement(x)
  {
    var y := x % 256;
    assert y % 256 == y;
    assert Complement(y) == ByteOf((256 - y) % 256);
    assert Complement(x) == ByteOf((256 - y) % 256);
  }

  /** The memcpy of the data behind the header. */
  method CopyData(request: array<byte>, data: array<byte>, len: nat)
    requires len <= data.Length && 5 + len <= request.Length && request != data
    modifies request
    ensures request[5..5 + len] == data[..len]
    ensures request[..5] == old(request[..5]) && request[5 + len..] == old(request[5 + len..])
  {
    for i := 0 to len
      invariant request[5..5 + i] == data[..i]
      invariant request[..5] == old(request[..5]) && request[5 + len..] == old(request[5 + len..])
    {
      request[5 + i] := data[i];
    }
  }

  // ---------------------------------------------------------------- the bus

  /** The result of one I2C read and the bytes it delivers into the buffer. */
  datatype Reception = Reception(result: int, bytes: seq<byte>)

  /** A read from a bus with nothing more to say. */
  const Absent := Reception(-1, [])

  /** What read number `k` (from 0) delivers. */
  function Rx(rs: seq<Reception>, k: nat): Reception
  {
    if k < |rs| then rs[k] else Absent
  }

  /** The buffer after a read delivered `bytes`: as many as fit, from the front. */
  function Delivered(buf: seq<byte>, bytes: seq<byte>): (r: seq<byte>)
    ensures |r| == |buf|
    ensures |bytes| >= |buf| ==> r == bytes[..|buf|]
    ensures |bytes| <= |buf| ==> r[..|bytes|] == bytes && r[|bytes|..] == buf[|bytes|..]
  {
    if |bytes| >= |buf| then bytes[..|buf|] else bytes + buf[|bytes|..]
  }

  /** The transport a PN53x is reached through (`transport_type`). */
  datatype Transport = I2c | OtherTransport

  /**
   * The I2C master: scripted write results, a script of receptions with
   * the number of reads made so far, and a log of writes.
   */
  class Bus {
    var transport: Transport
    var writeResults: seq<int>
    var written: seq<seq<byte>>
    var receptions: seq<Reception>
    var readCount: nat

    constructor (transport: Transport, writeResults: seq<int>, receptions: seq<Reception>)
      ensures this.transport == transport && this.writeResults == writeResults
      ensures this.receptions == receptions && readCount == 0 && written == []
    {
      this.transport := transport;
      this.writeResults := writeResults;
      this.receptions := receptions;
      readCount := 0;
      written := [];
    }

    /** bshal_i2cm_send. */
    method Send(bytes: seq<byte>) returns (result: int)
      modifies this
      ensures written == old(written) + [bytes]
      ensures result == (if old(writeResults) == [] then 0 else old(writeResults)[0])
      ensures writeResults == (if old(writeResults) == [] then [] else old(writeResults)[1..])
      ensures receptions == old(receptions) && readCount == old(readCount) && transport == old(transport)
    {
      written := written + [bytes];
      if writeResults == [] {
        result := 0;
      } else {
        result := writeResults[0];
        writeResults := writeResults[1..];
      }
    }

    /** bshal_i2cm_recv into `buf`. */
    method Recv(buf: array<byte>) returns (result: int)
      modifies this, buf
      ensures buf[..] == Delivered(old(buf[..]), Rx(receptions, old(readCount)).bytes)
      ensures result == Rx(receptions, old(readCount)).result
      ensures readCount == old(readCount) + 1 && receptions == old(receptions)
      ensures written == old(written) && writeResults == old(writeResults) && transport == old(transport)
    {
      var rx := Rx(receptions, readCount);
      readCount := readCount + 1;
      var n := if |rx.bytes| < buf.Length then |rx.bytes| else buf.Length;
      forall i | 0 <= i < buf.Length {
        buf[i] := if i < n then rx.bytes[i] else buf[i];
      }
      result := rx.result;
    }
  }

  // ---------------------------------------------------------------- polling

  /** How a poll ends: its result, the buffer and the reads it made. */
  datatype Poll = Poll(result: int, buf: seq<byte>, count: nat)

  /**
   * The polling loops of pn53x_recv_ack and pn53x_send_frame, started at
   * read `at` of the script, after `retry` reads of their own: read; the
   * 25th read gives up whatever it brought; otherwise stop once a read
   * succeeded with the data-ready byte set.
   */
  function PollFrom(rs: seq<Reception>, at: nat, buf: seq<byte>, retry: nat): (p: Poll)
    requires |buf| > 0 && retry < RETRIES
    ensures |p.buf| == |buf| && retry < p.count <= RETRIES
    ensures p.result == 0 || p.result == -1
    decreases RETRIES - retry, at
  {
    var rx := Rx(rs, at + retry);
    var b := Delivered(buf, rx.bytes);
    if retry + 1 >= RETRIES then Poll(-1, b, retry + 1)
    else if b[0] != 0 && rx.result == 0 then Poll(0, b, retry + 1)
    else PollFrom(rs, at, b, retry + 1)
  }

  /** A poll succeeds only on a successful read that set the data-ready byte. */
  lemma {:induction false} PollSucceedsOnReady(rs: seq<Reception>, at: nat, buf: seq<byte>, retry: nat)
    requires |buf| > 0 && retry < RETRIES
    ensures var p := PollFrom(rs, at, buf, retry);
            p.result == 0 ==> p.buf[0] != 0 && Rx(rs, at + p.count - 1).result == 0
    decreases RETRIES - retry
  {
    var b := Delivered(buf, Rx(rs, at + retry).bytes);
    if retry + 1 < RETRIES && !(b[0] != 0 && Rx(rs, at + retry).result == 0) {
      PollSucceedsOnReady(rs, at, b, retry + 1);
    }
  }

  /** A poll gives -1 exactly when it made its 25th read, even if that read was good. */
  lemma {:induction false} PollGivesUp(rs: seq<Reception>, at: nat, buf: seq<byte>, retry: nat)
    requires |buf| > 0 && retry < RETRIES
    ensures PollFrom(rs, at, buf, retry).result == -1 <==> PollFrom(rs, at, buf, retry).count == RETRIES
    decreases RETRIES - retry
  {
    var b := Delivered(buf, Rx(rs, at + retry).bytes);
    if retry + 1 < RETRIES && !(b[0] != 0 && Rx(rs, at + retry).result == 0) {
      PollGivesUp(rs, at, b, retry + 1);
    }
  }

  /**
   * Reads into `buf`, whose data-ready byte starts cleared, until a read
   * succeeds with that byte set; gives -1 on the 25th read.
   */
  method PollFor(bus: Bus, buf: array<byte>) returns (result: int)
    requires buf.Length > 0 && buf[0] == 0
    modifies bus, buf
    ensures var p := PollFrom(bus.receptions, old(bus.readCount), old(buf[..]), 0);
            result == p.result && buf[..] == p.buf && bus.readCount == old(bus.readCount) + p.count
    ensures bus.receptions == old(bus.receptions) && bus.transport == old(bus.transport)
    ensures bus.written == old(bus.written) && bus.writeResults == old(bus.writeResults)
  {
    ghost var start := bus.readCount;
    ghost var goal := PollFrom(bus.receptions, start, buf[..], 0);
    result := 0;
    var retryCount := 0;
    while buf[0] == 0 || result != 0
      invariant 0 <= retryCount < RETRIES
      invariant retryCount == 0 ==> buf[0] == 0
      invariant bus.readCount == start + retryCount
      invariant goal == if retryCount > 0 && buf[0] != 0 && result == 0 then Poll(0, buf[..], retryCount)
                        else PollFrom(bus.receptions, start, buf[..], retryCount)
      invariant bus.receptions == old(bus.receptions) && bus.transport == old(bus.transport)
      invariant bus.written == old(bus.written) && bus.writeResults == old(bus.writeResults)
      decreases RETRIES - retryCount
    {
      result := bus.Recv(buf);
      retryCount := retryCount + 1;
      if retryCount >= RETRIES {
        return -1;
      }
    }
    // the loop ends only after a successful read, so the source's test of
    // `result` here never fires
    assert result == 0;
  }

  // ---------------------------------------------------------------- the exchange

  function Zeros(n: nat): (z: seq<byte>)
    ensures |z| == n && forall i :: 0 <= i < n ==> z[i] == 0
  {
    seq(n, _ => 0)
  }

  /** `ack_or_nack` of an ACK frame buffer: bytes 4 and 5, little-endian. */
  function AckWord(buf: seq<byte>): bv16
    requires |buf| == ACK_FRAME_SIZE
  {
    ((buf[5] as bv16) << 8) | (buf[4] as bv16)
  }

  /** The poll of pn53x_recv_ack from read `at`, into its zero-initialised frame. */
  function AckPoll(rs: seq<Reception>, at: nat): (a: Poll)
    ensures |a.buf| == ACK_FRAME_SIZE
  {
    PollFrom(rs, at, Zeros(ACK_FRAME_SIZE), 0)
  }

  /** What happens on the bus after the frame was written. */
  datatype Exchange = Exchange(result: int, consumed: nat, response: Option<seq<byte>>)

  /** The response poll of pn53x_send_frame from read `at`, into its zeroed response frame. */
  function ResponsePoll(rs: seq<Reception>, at: nat): (p: Poll)
    ensures |p.buf| == RESPONSE_SIZE
  {
    PollFrom(rs, at, Zeros(RESPONSE_SIZE), 0)
  }

  /**
   * pn53x_send_frame after a successful write, from read `at`, with the
   * result of pn53x_recv_ack honoured: a lost or negative acknowledgement
   * ends the exchange with -1; otherwise the response is polled for.
   */
  function AfterWrite(rs: seq<Reception>, at: nat): (x: Exchange)
    ensures x.result == 0 || x.result == -1
    ensures x.result == 0 ==> AckPoll(rs, at).result == 0 && AckWord(AckPoll(rs, at).buf) == ACK
                              && x.response.Some? && |x.response.value| == RESPONSE_SIZE
    ensures x.consumed <= 2 * RETRIES
  {
    var a := AckPoll(rs, at);
    if a.result != 0 then Exchange(a.result, a.count, None)
    else if AckWord(a.buf) != ACK then Exchange(-1, a.count, None)
    else
      var p := ResponsePoll(rs, at + a.count);
      Exchange(p.result, a.count + p.count, Some(p.buf))
  }

  /** A successful exchange hands over a response whose data-ready byte is set. */
  lemma {:induction false} ResponseReady(rs: seq<Reception>, at: nat)
    requires AfterWrite(rs, at).result == 0
    ensures AfterWrite(rs, at).response.value[0] != 0
  {
    PollSucceedsOnReady(rs, at + AckPoll(rs, at).count, Zeros(RESPONSE_SIZE), 0);
  }

  /**
   * pn53x_send_frame after a successful write as the source has it: the
   * result of pn53x_recv_ack is dropped, and when it gave up, `acknack` was
   * never written and holds whatever the stack held (`stale`).
   */
  function AfterWriteAsWritten(rs: seq<Reception>, at: nat, stale: bool): (x: Exchange)
    ensures x.result == 0 || x.result == -1
  {
    var a := AckPoll(rs, at);
    var acknack := if a.result == 0 then AckWord(a.buf) == ACK else stale;
    if !acknack then Exchange(-1, a.count, None)
    else
      var p := ResponsePoll(rs, at + a.count);
      Exchange(p.result, a.count + p.count, Some(p.buf))
  }

  /** The two agree whenever the acknowledgement arrived. */
  lemma {:induction false} AsWrittenAgreesWhenAckHeard(rs: seq<Reception>, at: nat, stale: bool)
    requires AckPoll(rs, at).result == 0
    ensures AfterWriteAsWritten(rs, at, stale) == AfterWrite(rs, at)
  {
  }

  /**
   * A chip that never acknowledges within 25 reads but then offers a
   * ready response: as written, with a stale `acknack` of true, the
   * exchange succeeds; honouring the result of pn53x_recv_ack, it fails.
   */
  lemma {:induction false} LostAckAccepted()
    ensures var rs := seq(RETRIES, _ => Absent) + [Reception(0, [1])];
            AckPoll(rs, 0).result == -1
            && AfterWriteAsWritten(rs, 0, true).result == 0
            && AfterWrite(rs, 0).result == -1
  {
    var rs := seq(RETRIES, _ => Absent) + [Reception(0, [1])];
    NeverReady(rs, 0, Zeros(ACK_FRAME_SIZE), 0);
    PollGivesUp(rs, 0, Zeros(ACK_FRAME_SIZE), 0);
    assert Rx(rs, RETRIES) == Reception(0, [1]);
  }

  /** A poll over failed reads up to its 25th gives up after all of them. */
  lemma {:induction false} NeverReady(rs: seq<Reception>, at: nat, buf: seq<byte>, retry: nat)
    requires |buf| > 0 && retry < RETRIES
    requires forall k :: at + retry <= k < at + RETRIES ==> Rx(rs, k).result != 0
    ensures PollFrom(rs, at, buf, retry).result == -1 && PollFrom(rs, at, buf, retry).count == RETRIES
    decreases RETRIES - retry
  {
    if retry + 1 < RETRIES {
      assert Rx(rs, at + retry).result != 0;
      NeverReady(rs, at, Delivered(buf, Rx(rs, at + retry).bytes), retry + 1);
    }
  }

  /** pn53x_recv_ack: poll for the ACK frame; `acknack` is written only on success. */
  method RecvAck(bus: Bus) returns (result: int, acknack: Option<bool>)
    modifies bus
    ensures var a := AckPoll(bus.receptions, old(bus.readCount));
            result == a.result && bus.readCount == old(bus.readCount) + a.count
            && acknack == (if a.result == 0 then Some(AckWord(a.buf) == ACK) else None)
    ensures bus.receptions == old(bus.receptions) && bus.transport == old(bus.transport)
    ensures bus.written == old(bus.written) && bus.writeResults == old(bus.writeResults)
  {
    var ackNack := new byte[ACK_FRAME_SIZE](_ => 0);
    assert ackNack[..] == Zeros(ACK_FRAME_SIZE);
    result := PollFor(bus, ackNack);
    if result != 0 {
      return result, None;
    }
    acknack := Some(AckWord(ackNack[..]) == ACK);
  }

  /**
   * The start of pn53x_send_frame: build the frame and, over I2C, write
   * it; any other transport gives -1 before anything is written.
   */
  method WriteFrame(bus: Bus, data: array<byte>, len: nat) returns (result: int)
    requires len <= data.Length && len < DATA_ROOM
    modifies bus
    ensures bus.transport == old(bus.transport) && bus.receptions == old(bus.receptions)
    ensures bus.readCount == old(bus.readCount)
    ensures old(bus.transport) != I2c ==>
              result == -1 && bus.written == old(bus.written) && bus.writeResults == old(bus.writeResults)
    ensures old(bus.transport) == I2c ==>
              bus.written == old(bus.written) + [Frame(data[..len])]
              && result == (if old(bus.writeResults) == [] then 0 else old(bus.writeResults)[0])
              && bus.writeResults == (if old(bus.writeResults) == [] then [] else old(bus.writeResults)[1..])
  {
    var request, size := BuildFrame(data, len);
    match bus.transport
    case I2c =>
      result := bus.Send(request[..size]);
    case OtherTransport =>
      result := -1;
  }

  /** The response poll, into the caller's `response`, which is cleared first. */
  method AwaitResponse(bus: Bus, response: array<byte>) returns (result: int)
    requires response.Length == RESPONSE_SIZE
    modifies bus, response
    ensures var p := ResponsePoll(bus.receptions, old(bus.readCount));
            result == p.result && response[..] == p.buf && bus.readCount == old(bus.readCount) + p.count
    ensures bus.receptions == old(bus.receptions) && bus.transport == old(bus.transport)
    ensures bus.written == old(bus.written) && bus.writeResults == old(bus.writeResults)
  {
    forall i | 0 <= i < response.Length {
      response[i] := 0;
    }
    assert response[..] == Zeros(RESPONSE_SIZE);
    result := PollFor(bus, response);
  }

  /**
   * pn53x_send_frame with the result of pn53x_recv_ack honoured (see
   * AfterWrite); `data[..len]` is the payload, at most 63 bytes so that
   * DCS still fits the 64-byte data field.
   */
  method SendFrame(bus: Bus, data: array<byte>, len: nat, response: array<byte>) returns (result: int)
    requires len <= data.Length && len < DATA_ROOM && response.Length == RESPONSE_SIZE && data != response
    modifies bus, response
    ensures bus.transport == old(bus.transport) && bus.receptions == old(bus.receptions)
    ensures old(bus.transport) != I2c ==>
              result == -1 && bus.written == old(bus.written) && bus.readCount == old(bus.readCount)
              && response[..] == old(response[..])
    ensures old(bus.transport) == I2c ==> bus.written == old(bus.written) + [Frame(data[..len])]
    ensures old(bus.transport) == I2c && old(bus.writeResults) != [] && old(bus.writeResults)[0] != 0 ==>
              result == old(bus.writeResults)[0] && bus.readCount == old(bus.readCount)
              && response[..] == old(response[..])
    ensures old(bus.transport) == I2c && (old(bus.writeResults) == [] || old(bus.writeResults)[0] == 0) ==>
              var x := AfterWrite(bus.receptions, old(bus.readCount));
              result == x.result && bus.readCount == old(bus.readCount) + x.consumed
              && response[..] == (if x.response.Some? then x.response.value else old(response[..]))
  {
    result := WriteFrame(bus, data, len);
    if bus.transport != I2c || result != 0 {
      return;
    }
    result := Converse(bus, response);
  }

  /** What SendFrame does once the frame is written. */
  method Converse(bus: Bus, response: array<byte>) returns (result: int)
    requires response.Length == RESPONSE_SIZE
    modifies bus, response
    ensures var x := AfterWrite(bus.receptions, old(bus.readCount));
            result == x.result && bus.readCount == old(bus.readCount) + x.consumed
            && response[..] == (if x.response.Some? then x.response.value else old(response[..]))
    ensures bus.receptions == old(bus.receptions) && bus.transport == old(bus.transport)
    ensures bus.written == old(bus.written) && bus.writeResults == old(bus.writeResults)
  {
    ghost var at := bus.readCount;
    ghost var a := AckPoll(bus.receptions, at);
    var acknack;
    result, acknack := RecvAck(bus);
    if result != 0 {
      return;
    }
    if !acknack.value {
      return -1;
    }
    result := AwaitResponse(bus, response);
  }

  /**
   * pn53x_send_frame as the source has it: `stale` is the indeterminate
   * value of the uninitialised `acknack` when pn53x_recv_ack gives up.
   */
  method SendFrameAsWritten(bus: Bus, data: array<byte>, len: nat, response: array<byte>, stale: bool)
    returns (result: int)
    requires len <= data.Length && len < DATA_ROOM && response.Length == RESPONSE_SIZE && data != response
    modifies bus, response
    ensures bus.transport == old(bus.transport) && bus.receptions == old(bus.receptions)
    ensures old(bus.transport) != I2c ==>
              result == -1 && bus.written == old(bus.written) && bus.readCount == old(bus.readCount)
              && response[..] == old(response[..])
    ensures old(bus.transport) == I2c ==> bus.written == old(bus.written) + [Frame(data[..len])]
    ensures old(bus.transport) == I2c && old(bus.writeResults) != [] && old(bus.writeResults)[0] != 0 ==>
              result == old(bus.writeResults)[0] && bus.readCount == old(bus.readCount)
              && response[..] == old(response[..])
    ensures old(bus.transport) == I2c && (old(bus.writeResults) == [] || old(bus.writeResults)[0] == 0) ==>
              var x := AfterWriteAsWritten(bus.receptions, old(bus.readCount), stale);
              result == x.result && bus.readCount == old(bus.readCount) + x.consumed
              && response[..] == (if x.response.Some? then x.response.value else old(response[..]))
  {
    result := WriteFrame(bus, data, len);
    if bus.transport != I2c || result != 0 {
      return;
    }
    result := ConverseAsWritten(bus, response, stale);
  }

  /** What SendFrameAsWritten does once the frame is written. */
  method ConverseAsWritten(bus: Bus, response: array<byte>, stale: bool) returns (result: int)
    requires response.Length == RESPONSE_SIZE
    modifies bus, response
    ensures var x := AfterWriteAsWritten(bus.receptions, old(bus.readCount), stale);
            result == x.result && bus.readCount == old(bus.readCount) + x.consumed
            && response[..] == (if x.response.Some? then x.response.value else old(response[..]))
    ensures bus.receptions == old(bus.receptions) && bus.transport == old(bus.transport)
    ensures bus.written == old(bus.written) && bus.writeResults == old(bus.writeResults)
  {
    ghost var at := bus.readCount;
    ghost var a := AckPoll(bus.receptions, at);
    var ack;
    result, ack := RecvAck(bus);
    var acknack := if ack.Some? then ack.value else stale;
    if !acknack {
      return -1;
    }
    result := AwaitResponse(bus, response);
  }
}
