/** One command end to end: the text line the host's `command` builds,
    the way the state machine of top.py takes it apart, the SPI transfers
    it issues and the line it sends back.

    The lemmas here follow one command from START back to START: the
    release and READ STATUS REGISTER transfers of START, the status polls,
    the four decoding states, and then either the write (acknowledged with
    `.`), the write followed by a read (answered with the bytes read), a
    rejected checksum (`c`) or a decode error (`e`). */
module Protocol {
  import opened Bytes
  import opened HexDigits
  import opened SerialHex
  import opened Top
  import Programmer

  // ---------------------------------------------------------------------
  // The command on the wire
  // ---------------------------------------------------------------------

  /** A command frame without its line end: `.` and, as lower-case hex
      pairs, the command length, the response length, the command and a
      checksum byte `c`. */
  function Frame(out: Byte, cmd: seq<Byte>, c: Byte): seq<Byte>
    requires |cmd| < 256
  {
    [Dot] + HexPair(|cmd|, false) + HexPair(out, false) + HexBytes(cmd, false) + HexPair(c, false)
  }

  /** The checksum byte `command` computes. */
  function Check(out: Byte, cmd: seq<Byte>): Byte
  {
    Programmer.Complement(|cmd| + out + Sum(cmd))
  }

  /** What the decoder's checksum register holds after a whole frame: the
      command length, the response length, the command bytes and the
      checksum byte added up modulo 256. */
  function FrameTotal(out: Byte, cmd: seq<Byte>, c: Byte): Byte
  {
    (|cmd| + out + Sum(cmd) + c) % 256
  }

  /** The checksum byte brings the sum of the frame's bytes to 0 modulo 256. */
  lemma CheckCancels(out: Byte, cmd: seq<Byte>)
    ensures FrameTotal(out, cmd, Check(out, cmd)) == 0
  {
    var a := |cmd| + out + Sum(cmd);
    assert Check(out, cmd) == Programmer.Complement(a);
  }

  /** The host's `command` is a frame with that checksum, then `\r\n`. */
  lemma CommandOnWire(out: Byte, cmd: seq<Byte>)
    requires |cmd| < 256
    ensures Programmer.Command(out, cmd) == Frame(out, cmd, Check(out, cmd)) + [CR, LF]
  {
    Programmer.Hex02OfByte(|cmd|);
    Programmer.Hex02OfByte(out);
    Programmer.Hex02OfByte(Check(out, cmd));
  }

  /** Characters that cannot start a frame. */
  predicate NoDot(junk: seq<Byte>)
  {
    forall i :: 0 <= i < |junk| ==> junk[i] != Dot
  }

  // ---------------------------------------------------------------------
  // From START to COUNT_BYTES
  // ---------------------------------------------------------------------

  /** The transfers of START: the release of the flash, then READ STATUS
      REGISTER with `first`. */
  function StartXfers(dout: Byte): seq<Xfer>
  {
    [Xfer(dout, false, true), Xfer(ReadStatus, true, false)]
  }

  predicate AllBusy(statuses: seq<Byte>)
  {
    forall i :: 0 <= i < |statuses| ==> Busy(statuses[i])
  }

  /** POLL_READY on a flash that reports busy for a while and then idle:
      one transfer per busy status, one for the idle status, one more with
      `last`, after which `cs` is low, and the exit transfer, whose byte
      `t` is left in `din`. */
  lemma {:induction false} PollWaits(s: Sys, io: Io, checked: bool, busy: seq<Byte>, p: Byte, q: Byte, t: Byte,
                                     rest: seq<Byte>)
    requires !checked || Busy(s.din)
    requires io.miso == busy + [p, q, t] + rest && AllBusy(busy) && !Busy(p)
    ensures Poll(s, io, checked) ==
      Next(s.(state := CountBytes, din := t, cs := false),
           io.(miso := rest, xfers := io.xfers + PollXfers(s.dout, |busy| + 2) + [ExitXfer(s.dout, q)]))
    decreases |busy|
  {
    var x := Xfer(s.dout, false, false);
    var s1 := s.(din := io.miso[0]);
    var io1 := io.(miso := io.miso[1..], xfers := io.xfers + [x]);
    assert Transfer(s, io, s.dout, false, false) == Next(s1, io1);
    assert Poll(s, io, checked) == Poll(s1, io1, true);
    if |busy| == 0 {
      assert io.miso[0] == p && io1.miso == [q, t] + rest;
      var s2 := s1.(din := q, cs := false);
      var io2 := io1.(miso := [t] + rest, xfers := io1.xfers + [Xfer(s.dout, false, true)]);
      assert Transfer(s1, io1, s.dout, false, true) == Next(s2, io2);
      assert io2.miso[1..] == rest;
      assert io2.xfers == io.xfers + PollXfers(s.dout, 2);
      assert Leave(s2, io2) == Next(s2.(state := CountBytes, din := t),
                                    io2.(miso := rest, xfers := io2.xfers + [ExitXfer(s.dout, q)]));
    } else {
      assert Busy(busy[0]) && io.miso[0] == busy[0];
      assert io1.miso == busy[1..] + [p, q, t] + rest;
      PollWaits(s1, io1, true, busy[1..], p, q, t, rest);
      AppendAssoc(io.xfers, [x], PollXfers(s.dout, |busy| + 1));
    }
  }

  /** START, when the flash answers, moves on to POLL_READY. */
  lemma ServeGot(s: Sys, io: Io, s1: Sys, io1: Io, r: Outcome)
    requires s.state == Start && StartStage(s, io) == Next(s1, io1) && Finish(s1, io1) == r
    ensures Serve(s, io) == r
  {
  }

  /** A command begins with START, the status polls and their exit
      transfer; the decoder's state and the characters left are what
      `Resync` leaves. */
  lemma StartThenPoll(s: Sys, io: Io, rx0: Rx, w: seq<Byte>,
                      busy: seq<Byte>, p: Byte, q: Byte, t: Byte, flash: seq<Byte>, r: Outcome)
    requires s.state == Start
    requires Resync(s.rx, io.wire) == Some((rx0, w))
    requires |io.miso| >= 2 && io.miso[2..] == busy + [p, q, t] + flash
    requires AllBusy(busy) && !Busy(p)
    requires Finish(Polled(s, rx0, t), PolledIo(io, s.dout, |busy|, q, w, flash)) == r
    ensures Serve(s, io) == r
  {
    var s1 := s.(state := PollReady, rx := rx0, cs := true, dout := ReadStatus, din := io.miso[1]);
    var io1 := io.(wire := w, miso := io.miso[2..], xfers := io.xfers + StartXfers(s.dout));
    assert StartStage(s, io) == Next(s1, io1);
    PollWaits(s1, io1, false, busy, p, q, t, flash);
    var s2 := s1.(state := CountBytes, din := t, cs := false);
    var io2 := io1.(miso := flash, xfers := io1.xfers + PollXfers(ReadStatus, |busy| + 2) + [ExitXfer(ReadStatus, q)]);
    assert s2 == Polled(s, rx0, t);
    AppendAssoc(io.xfers, StartXfers(s.dout), PollXfers(ReadStatus, |busy| + 2));
    assert io2 == PolledIo(io, s.dout, |busy|, q, w, flash);
    assert Step(s1, io1) == Next(s2, io2);
    Advance(s1, io1, s2, io2, r);
    ServeGot(s, io, s1, io1, r);
  }

  // ---------------------------------------------------------------------
  // Decoding: COUNT_BYTES, RETURN_BYTES, READ_DATA, CHECKSUM
  // ---------------------------------------------------------------------

  /** The state at RUN after a frame: the two header fields, the command
      at the front of the buffer (the rest of the buffer as it was) and
      the decoder holding the checksum byte and the sum of everything. */
  function AtRun(s: Sys, out: Byte, cmd: seq<Byte>, c: Byte): Sys
    requires |cmd| < 256
  {
    s.(state := Run, byteCount := |cmd|, returnBytes := out,
       rx := Rx(RxHigh, c, FrameTotal(out, cmd, c)),
       buffer := cmd + s.buffer[|cmd|..])
  }

  /** A step that does not end the command leaves the rest to `Finish`. */
  lemma Advance(s: Sys, io: Io, s1: Sys, io1: Io, r: Outcome)
    requires s.state != Start && Step(s, io) == Next(s1, io1) && s1.state != Start
    requires Finish(s1, io1) == r
    ensures Finish(s, io) == r
  {
  }

  /** Two steps that do not end the command. */
  lemma Advance2(s: Sys, io: Io, s1: Sys, io1: Io, s2: Sys, io2: Io, r: Outcome)
    requires s.state != Start && s1.state != Start && s2.state != Start
    requires Step(s, io) == Next(s1, io1) && Step(s1, io1) == Next(s2, io2)
    requires Finish(s2, io2) == r
    ensures Finish(s, io) == r
  {
    Advance(s1, io1, s2, io2, r);
    Advance(s, io, s1, io1, r);
  }

  /** COUNT_BYTES stores the byte it receives as the command length. */
  lemma CountGot(s: Sys, io: Io, b: Byte, rx1: Rx, rest: seq<Byte>)
    requires s.state == CountBytes && Receive(s.rx, io.wire) == Got(b, rx1, rest)
    ensures Step(s, io) == Next(s.(state := ReturnBytes, byteCount := b, rx := rx1), io.(wire := rest))
  {
  }

  /** RETURN_BYTES stores the byte it receives as the response length. */
  lemma ReturnGot(s: Sys, io: Io, b: Byte, rx1: Rx, rest: seq<Byte>)
    requires s.state == ReturnBytes && Receive(s.rx, io.wire) == Got(b, rx1, rest)
    ensures Step(s, io) == Next(s.(state := ReadData, returnBytes := b, rx := rx1), io.(wire := rest))
  {
  }

  /** CHECKSUM only lets the decoder add the byte it receives to its sum. */
  lemma ChecksumGot(s: Sys, io: Io, b: Byte, rx1: Rx, rest: seq<Byte>)
    requires s.state == Checksum && Receive(s.rx, io.wire) == Got(b, rx1, rest)
    ensures Step(s, io) == Next(s.(state := Run, rx := rx1), io.(wire := rest))
  {
  }

  /** What a completed READ_DATA leaves, for whatever batch the decoder
      delivered: the batch's bytes at the front of the buffer. */
  lemma FilledFront(s: Sys, io: Io, m: Batch, f: Outcome, cmd: seq<Byte>, w: seq<Byte>)
    requires s.byteCount == |cmd| && m.Batch? && m.bytes == cmd && m.rest == w
    requires f.Next? && f.sys == s.(state := Checksum, rx := m.rx, buffer := f.sys.buffer)
    requires f.io == io.(wire := m.rest) && BufferFilled(s.buffer, f.sys.buffer, 0, |cmd|, cmd)
    ensures f == Next(s.(state := Checksum, rx := m.rx, buffer := cmd + s.buffer[|cmd|..]), io.(wire := w))
  {
    var b := f.sys.buffer;
    assert b[..|cmd|] == cmd && b[|cmd|..] == s.buffer[|cmd|..];
    assert b == b[..|cmd|] + b[|cmd|..];
  }

  /** READ_DATA stores the command bytes at the front of the buffer and
      leaves the rest of the buffer alone. */
  lemma FillGot(s: Sys, io: Io, cmd: seq<Byte>, w: seq<Byte>)
    requires s.state == ReadData && s.rx.phase == RxHigh && s.byteCount == |cmd|
    requires io.wire == HexBytes(cmd, false) + w
    ensures ReceiveMany(s.rx, io.wire, |cmd|).Batch?
    ensures Step(s, io) == Next(s.(state := Checksum, rx := ReceiveMany(s.rx, io.wire, |cmd|).rx,
                                   buffer := cmd + s.buffer[|cmd|..]), io.(wire := w))
  {
    FillFront(s, io, cmd, w);
    ReadDataFills(s, io);
  }

  /** READ_DATA is `Fill` from the first byte on. */
  lemma ReadDataFills(s: Sys, io: Io)
    requires s.state == ReadData
    ensures Step(s, io) == Fill(s, io, 0)
  {
  }

  /** `Fill` on the hex form of a command. */
  lemma FillFront(s: Sys, io: Io, cmd: seq<Byte>, w: seq<Byte>)
    requires s.rx.phase == RxHigh && s.byteCount == |cmd|
    requires io.wire == HexBytes(cmd, false) + w
    ensures ReceiveMany(s.rx, io.wire, |cmd|).Batch?
    ensures Fill(s, io, 0) == Next(s.(state := Checksum, rx := ReceiveMany(s.rx, io.wire, |cmd|).rx,
                                      buffer := cmd + s.buffer[|cmd|..]), io.(wire := w))
  {
    ReceiveHexBytes(s.rx, cmd, false, w);
    FillIsReceiveMany(s, io, 0);
    FilledFront(s, io, ReceiveMany(s.rx, io.wire, |cmd|), Fill(s, io, 0), cmd, w);
  }

  lemma FirstPair(rx: Rx, junk: seq<Byte>, n: Byte, w1: seq<Byte>, wire: seq<Byte>)
    requires rx.phase == RxStart && NoDot(junk)
    requires wire == junk + [Dot] + (HexPair(n, false) + w1)
    ensures Receive(rx, wire) == Got(n, Rx(RxHigh, n, n), w1)
  {
    ReceiveAfterDot(rx, junk, HexPair(n, false) + w1);
    ReceiveHexPair(Rx(RxHigh, rx.data, 0), n, false, w1);
  }

  /** The checksum register after a frame holds the sum of all its bytes. */
  lemma FrameSum(out: Byte, cmd: seq<Byte>, c: Byte, c0: Byte, a: Byte)
    requires c0 == (|cmd| + out) % 256 && a == Accumulate(c0, cmd)
    ensures (a + c) % 256 == FrameTotal(out, cmd, c)
  {
    AccumulateIsSum(c0, cmd);
    ModAddLeft(|cmd| + out, Sum(cmd));
    ModAddLeft(|cmd| + out + Sum(cmd), c);
  }

  /** Any pair after the first: the decoder adds the byte to its sum. */
  lemma NextPair(d: Byte, sum: Byte, b: Byte, w: seq<Byte>)
    ensures Receive(Rx(RxHigh, d, sum), HexPair(b, false) + w) == Got(b, Rx(RxHigh, b, (sum + b) % 256), w)
  {
    ReceiveHexPair(Rx(RxHigh, d, sum), b, false, w);
  }

  /** The state at RUN, written with the decoder's accumulated sum, is
      `AtRun`. */
  lemma DecodedSum(s: Sys, out: Byte, cmd: seq<Byte>, c: Byte, c0: Byte, a: Byte)
    requires |cmd| < 256 && c0 == (|cmd| + out) % 256 && a == Accumulate(c0, cmd)
    ensures s.(state := Run, byteCount := |cmd|, returnBytes := out, rx := Rx(RxHigh, c, (a + c) % 256),
               buffer := cmd + s.buffer[|cmd|..]) == AtRun(s, out, cmd, c)
  {
    FrameSum(out, cmd, c, c0, a);
  }

  /** COUNT_BYTES and RETURN_BYTES take the two header pairs of a frame,
      whatever came before its `.`. */
  lemma HeaderSteps(s: Sys, io: Io, junk: seq<Byte>, out: Byte, cmd: seq<Byte>, w: seq<Byte>, c0: Byte,
                    s1: Sys, io1: Io, s2: Sys, io2: Io)
    requires s.state == CountBytes && s.rx.phase == RxStart && |cmd| < 256 && NoDot(junk)
    requires io.wire == junk + [Dot] + (HexPair(|cmd|, false) + (HexPair(out, false) + w))
    requires c0 == (|cmd| + out) % 256
    requires s1 == s.(state := ReturnBytes, byteCount := |cmd|, rx := Rx(RxHigh, |cmd|, |cmd|))
    requires io1 == io.(wire := HexPair(out, false) + w)
    requires s2 == s1.(state := ReadData, returnBytes := out, rx := Rx(RxHigh, out, c0)) && io2 == io.(wire := w)
    ensures Step(s, io) == Next(s1, io1) && Step(s1, io1) == Next(s2, io2)
  {
    CountStep(s, io, junk, |cmd|, HexPair(out, false) + w, s1, io1);
    ReturnStep(s1, io1, out, w, c0, s2, io2);
  }

  /** COUNT_BYTES skips to the `.` and takes the length pair. */
  lemma CountStep(s: Sys, io: Io, junk: seq<Byte>, n: Byte, w1: seq<Byte>, s1: Sys, io1: Io)
    requires s.state == CountBytes && s.rx.phase == RxStart && NoDot(junk)
    requires io.wire == junk + [Dot] + (HexPair(n, false) + w1)
    requires s1 == s.(state := ReturnBytes, byteCount := n, rx := Rx(RxHigh, n, n)) && io1 == io.(wire := w1)
    ensures Step(s, io) == Next(s1, io1)
  {
    FirstPair(s.rx, junk, n, w1, io.wire);
    CountGot(s, io, n, Rx(RxHigh, n, n), w1);
  }

  /** RETURN_BYTES takes the response-length pair and adds it to the sum. */
  lemma ReturnStep(s: Sys, io: Io, out: Byte, w: seq<Byte>, c0: Byte, s2: Sys, io2: Io)
    requires s.state == ReturnBytes && s.rx == Rx(RxHigh, s.byteCount, s.byteCount)
    requires io.wire == HexPair(out, false) + w && c0 == (s.byteCount + out) % 256
    requires s2 == s.(state := ReadData, returnBytes := out, rx := Rx(RxHigh, out, c0)) && io2 == io.(wire := w)
    ensures Step(s, io) == Next(s2, io2)
  {
    NextPair(s.byteCount, s.byteCount, out, w);
    ReturnGot(s, io, out, Rx(RxHigh, out, c0), w);
  }

  /** READ_DATA and CHECKSUM take the command and the checksum pair: the
      command goes to the front of the buffer and the decoder's sum takes
      in every byte. */
  lemma BodySteps(s: Sys, io: Io, cmd: seq<Byte>, c: Byte, tail: seq<Byte>, a: Byte, s3: Sys, io3: Io, sR: Sys, ioR: Io)
    requires s.state == ReadData && s.rx.phase == RxHigh && s.byteCount == |cmd|
    requires io.wire == HexBytes(cmd, false) + (HexPair(c, false) + tail)
    requires ReadsBack(ReceiveMany(s.rx, io.wire, |cmd|), cmd, HexPair(c, false) + tail, s.rx.checksum)
    requires a == Accumulate(s.rx.checksum, cmd)
    requires s3 == s.(state := Checksum, rx := ReceiveMany(s.rx, io.wire, |cmd|).rx, buffer := cmd + s.buffer[|cmd|..])
    requires io3 == io.(wire := HexPair(c, false) + tail)
    requires sR == s3.(state := Run, rx := Rx(RxHigh, c, (a + c) % 256)) && ioR == io.(wire := tail)
    ensures Step(s, io) == Next(s3, io3) && Step(s3, io3) == Next(sR, ioR)
  {
    var hc := HexPair(c, false) + tail;
    FillGot(s, io, cmd, hc);
    var rx3 := s3.rx;
    assert rx3 == Rx(RxHigh, rx3.data, a);
    NextPair(rx3.data, a, c, tail);
    ChecksumGot(s3, io3, c, Rx(RxHigh, c, (a + c) % 256), tail);
    assert io3.(wire := tail) == ioR;
  }

  /** READ_DATA and CHECKSUM take the command bytes and the checksum pair
      and stop in RUN. */
  lemma BodyFinish(s: Sys, io: Io, cmd: seq<Byte>, c: Byte, tail: seq<Byte>, a: Byte, sR: Sys, ioR: Io, r: Outcome)
    requires s.state == ReadData && s.rx.phase == RxHigh && s.byteCount == |cmd|
    requires io.wire == HexBytes(cmd, false) + (HexPair(c, false) + tail)
    requires a == Accumulate(s.rx.checksum, cmd)
    requires sR == s.(state := Run, rx := Rx(RxHigh, c, (a + c) % 256), buffer := cmd + s.buffer[|cmd|..])
    requires ioR == io.(wire := tail) && Finish(sR, ioR) == r
    ensures Finish(s, io) == r
  {
    ReceiveHexBytes(s.rx, cmd, false, HexPair(c, false) + tail);
    var s3 := s.(state := Checksum, rx := ReceiveMany(s.rx, io.wire, |cmd|).rx, buffer := cmd + s.buffer[|cmd|..]);
    var io3 := io.(wire := HexPair(c, false) + tail);
    BodySteps(s, io, cmd, c, tail, a, s3, io3, sR, ioR);
    Advance2(s, io, s3, io3, sR, ioR, r);
  }

  /** COUNT_BYTES and RETURN_BYTES take the header and hand READ_DATA the
      command length, the return count and the running sum. */
  lemma HeaderFinish(s: Sys, io: Io, junk: seq<Byte>, out: Byte, cmd: seq<Byte>, w: seq<Byte>, c0: Byte,
                     s2: Sys, io2: Io, r: Outcome)
    requires s.state == CountBytes && s.rx.phase == RxStart && |cmd| < 256 && NoDot(junk)
    requires io.wire == junk + [Dot] + (HexPair(|cmd|, false) + (HexPair(out, false) + w))
    requires c0 == (|cmd| + out) % 256
    requires s2 == s.(state := ReadData, byteCount := |cmd|, returnBytes := out, rx := Rx(RxHigh, out, c0))
    requires io2 == io.(wire := w) && Finish(s2, io2) == r
    ensures Finish(s, io) == r
  {
    var s1 := s.(state := ReturnBytes, byteCount := |cmd|, rx := Rx(RxHigh, |cmd|, |cmd|));
    var io1 := io.(wire := HexPair(out, false) + w);
    HeaderSteps(s, io, junk, out, cmd, w, c0, s1, io1, s2, io2);
    Advance2(s, io, s1, io1, s2, io2, r);
  }

  /** The frame laid out pair by pair, and the state RUN is entered with
      written as READ_DATA's state updated by READ_DATA and CHECKSUM. */
  lemma DecodeShape(s: Sys, io: Io, junk: seq<Byte>, out: Byte, cmd: seq<Byte>, c: Byte, tail: seq<Byte>,
                    c0: Byte, a: Byte, w: seq<Byte>, s2: Sys)
    requires |cmd| < 256 && io.wire == junk + Frame(out, cmd, c) + tail
    requires c0 == (|cmd| + out) % 256 && a == Accumulate(c0, cmd)
    requires w == HexBytes(cmd, false) + (HexPair(c, false) + tail)
    requires s2 == s.(state := ReadData, byteCount := |cmd|, returnBytes := out, rx := Rx(RxHigh, out, c0))
    ensures io.wire == junk + [Dot] + (HexPair(|cmd|, false) + (HexPair(out, false) + w))
    ensures AtRun(s, out, cmd, c) ==
      s2.(state := Run, rx := Rx(RxHigh, c, (a + c) % 256), buffer := cmd + s2.buffer[|cmd|..])
  {
    Spread(junk, [Dot], HexPair(|cmd|, false), HexPair(out, false), HexBytes(cmd, false), HexPair(c, false), tail);
    DecodedSum(s, out, cmd, c, c0, a);
  }

  /** A frame that arrives while COUNT_BYTES waits, after junk without a
      dot, leaves the decoder in RUN with the command in the buffer, the
      return count, and the received checksum in the accumulator. */
  lemma DecodeFrame(s: Sys, io: Io, junk: seq<Byte>, out: Byte, cmd: seq<Byte>, c: Byte, tail: seq<Byte>, r: Outcome)
    requires s.state == CountBytes && s.rx.phase == RxStart && |cmd| < 256 && NoDot(junk)
    requires io.wire == junk + Frame(out, cmd, c) + tail
    requires Finish(AtRun(s, out, cmd, c), io.(wire := tail)) == r
    ensures Finish(s, io) == r
  {
    var c0: Byte := (|cmd| + out) % 256;
    var a := Accumulate(c0, cmd);
    var w := HexBytes(cmd, false) + (HexPair(c, false) + tail);
    var s2 := s.(state := ReadData, byteCount := |cmd|, returnBytes := out, rx := Rx(RxHigh, out, c0));
    DecodeShape(s, io, junk, out, cmd, c, tail, c0, a, w, s2);
    BodyFinish(s2, io.(wire := w), cmd, c, tail, a, AtRun(s, out, cmd, c), io.(wire := tail), r);
    HeaderFinish(s, io, junk, out, cmd, w, c0, s2, io.(wire := w), r);
  }

  // ---------------------------------------------------------------------
  // Execution: RUN, SPI_WRITE, SPI_STALL, SPI_READ
  // ---------------------------------------------------------------------

  /** A step that ends the command is where `Finish` stops. */
  lemma Arrive(s: Sys, io: Io, s1: Sys, io1: Io)
    requires s.state != Start && Step(s, io) == Next(s1, io1) && s1.state == Start
    ensures Finish(s, io) == Next(s1, io1)
  {
  }

  /** A frame whose sum is not zero is answered with `c` and the sum, and
      nothing goes to the flash. */
  lemma ExecuteRejected(s: Sys, io: Io, sum: Byte)
    requires s.state == Run && s.rx.checksum == sum && sum != 0
    ensures Finish(s, io) == Next(s.(state := Start, sChr := LetterC, txData := sum), Send(io, ChecksumFrame(sum)))
  {
    Arrive(s, io, s.(state := Start, sChr := LetterC, txData := sum), Send(io, ChecksumFrame(sum)));
  }

  /** RUN with a zero checksum hands over to SPI_WRITE. */
  lemma RunPasses(s: Sys, io: Io)
    requires s.state == Run && s.rx.checksum == 0
    ensures Step(s, io) == Next(s.(state := SpiWrite), io)
  {
  }

  /** A command with nothing to return: the buffer's first `byteCount`
      bytes go to the flash in one transfer each, the last releasing the
      flash, and `.` is sent back. */
  lemma ExecuteWrite(s: Sys, io: Io)
    requires s.state == Run && s.rx.checksum == 0 && s.returnBytes == 0
    ensures Written(s.(state := SpiWrite), io, 0, Finish(s, io))
  {
    var sW := s.(state := SpiWrite);
    var w := Write(sW, io, 0);
    WriteIsReference(sW, io, 0);
    RunPasses(s, io);
    if w.Next? {
      Arrive(sW, io, w.sys, w.io);
      Advance(s, io, sW, io, w);
    } else {
      assert Finish(sW, io) == Stuck;
      Advance(s, io, sW, io, Stuck);
    }
  }

  /** What a command that reads `out > 0` bytes does: it writes the
      command bytes without releasing the flash, clocks one more transfer
      while the flash gets ready, and then sends the next `out` bytes the
      flash shifts out as one frame, marked with `s_chr`, releasing the
      flash on the last transfer. */
  predicate ReadAnswered(s: Sys, io: Io, r: Outcome)
    requires s.returnBytes > 0 && |io.miso| > s.byteCount + s.returnBytes
  {
    var n: nat := s.byteCount;
    var out: nat := s.returnBytes;
    && r.Next?
    && r.sys == s.(state := Start, cs := false, dout := 0, din := io.miso[n + out], txData := io.miso[n + out - 1])
    && r.io.wire == io.wire
    && r.io.miso == io.miso[n + out + 1..]
    && r.io.xfers == io.xfers + WriteXfers(s.buffer[..n], s.cs, false) + [Xfer(0, false, false)] + ReadXfers(1, out)
    && r.io.frames == io.frames + FrameRequests(s.sChr, io.miso[n..n + out])
  }

  /** SPI_STALL and SPI_READ after the command bytes are out. */
  lemma StallThenRead(s: Sys, io: Io, data: seq<Byte>)
    requires s.state == SpiStall && s.returnBytes > 0 && |io.miso| > s.returnBytes
    requires data == io.miso[..s.returnBytes]
    ensures Finish(s, io) ==
      Next(s.(state := Start, cs := false, dout := 0, din := io.miso[s.returnBytes],
              txData := io.miso[s.returnBytes - 1]),
           io.(miso := io.miso[s.returnBytes + 1..],
               xfers := io.xfers + ([Xfer(0, false, false)] + ReadXfers(1, s.returnBytes)),
               frames := io.frames + FrameRequests(s.sChr, data)))
  {
    var out := s.returnBytes;
    var s2 := s.(state := SpiRead, dout := 0, din := io.miso[0], cs := SpiController.CsAfter(s.cs, false, false));
    var io2 := io.(miso := io.miso[1..], xfers := io.xfers + [Xfer(0, false, false)]);
    assert Step(s, io) == Next(s2, io2);
    ReadIsReference(s2, io2, 1);
    var rd := Read(s2, io2, 1);
    assert ReadBytes(s2, io2, 1) == data;
    ReadRequestsAreFrame(s.sChr, data);
    AppendAssoc(io.xfers, [Xfer(0, false, false)], ReadXfers(1, out));
    Arrive(s2, io2, rd.sys, rd.io);
    Advance(s, io, s2, io2, rd);
  }

  /** SPI_WRITE of a command that reads back: the command bytes go out
      and the flash stays selected. */
  lemma WriteKeepsSelected(s: Sys, io: Io, sS: Sys, ioS: Io)
    requires s.state == SpiWrite && s.returnBytes > 0 && |io.miso| >= s.byteCount
    requires sS == s.(state := SpiStall,
                      cs := if s.byteCount == 0 then s.cs else true,
                      din := if s.byteCount == 0 then s.din else io.miso[s.byteCount - 1],
                      dout := if s.byteCount == 0 then s.dout else s.buffer[s.byteCount - 1])
    requires ioS == io.(miso := io.miso[s.byteCount..], xfers := io.xfers + WriteXfers(s.buffer[..s.byteCount], s.cs, false))
    ensures Step(s, io) == Next(sS, ioS)
  {
    WriteIsReference(s, io, 0);
    assert s.buffer[0..s.byteCount] == s.buffer[..s.byteCount];
  }

  /** The registers and outputs `StallThenRead` describes, seen from RUN;
      `cs`, `din` and `dout` as SPI_WRITE left them do not matter, since
      SPI_READ overwrites them. */
  lemma ReadAnsweredFrom(s: Sys, io: Io, cs: bool, din: Byte, dout: Byte, ioS: Io, data: seq<Byte>, r: Outcome)
    requires s.state == Run && s.returnBytes > 0 && |io.miso| > s.byteCount + s.returnBytes
    requires ioS == io.(miso := io.miso[s.byteCount..], xfers := io.xfers + WriteXfers(s.buffer[..s.byteCount], s.cs, false))
    requires data == ioS.miso[..s.returnBytes]
    requires var sS := s.(state := SpiStall, cs := cs, din := din, dout := dout);
      r == Next(sS.(state := Start, cs := false, dout := 0, din := ioS.miso[s.returnBytes],
                    txData := ioS.miso[s.returnBytes - 1]),
                ioS.(miso := ioS.miso[s.returnBytes + 1..],
                     xfers := ioS.xfers + ([Xfer(0, false, false)] + ReadXfers(1, s.returnBytes)),
                     frames := ioS.frames + FrameRequests(s.sChr, data)))
    ensures ReadAnswered(s, io, r)
  {
    var n: nat := s.byteCount;
    var out: nat := s.returnBytes;
    assert data == io.miso[n..n + out];
    assert ioS.miso[out + 1..] == io.miso[n + out + 1..];
    AppendAssoc(io.xfers + WriteXfers(s.buffer[..n], s.cs, false), [Xfer(0, false, false)], ReadXfers(1, out));
  }

  /** A command with `out > 0` bytes to return: see `ReadAnswered`. */
  lemma ExecuteRead(s: Sys, io: Io)
    requires s.state == Run && s.rx.checksum == 0 && s.returnBytes > 0
    requires |io.miso| > s.byteCount + s.returnBytes
    ensures ReadAnswered(s, io, Finish(s, io))
  {
    var n: nat := s.byteCount;
    var sW := s.(state := SpiWrite);
    var sS := s.(state := SpiStall, cs := if n == 0 then s.cs else true,
                 din := if n == 0 then s.din else io.miso[n - 1],
                 dout := if n == 0 then s.dout else s.buffer[n - 1]);
    var ioS := io.(miso := io.miso[n..], xfers := io.xfers + WriteXfers(s.buffer[..n], s.cs, false));
    WriteKeepsSelected(sW, io, sS, ioS);
    var data := ioS.miso[..sS.returnBytes];
    StallThenRead(sS, ioS, data);
    var rd := Finish(sS, ioS);
    ReadAnsweredFrom(s, io, sS.cs, sS.din, sS.dout, ioS, data, rd);
    Advance(sW, io, sS, ioS, rd);
    RunPasses(s, io);
    Advance(s, io, sW, io, rd);
  }

  // ---------------------------------------------------------------------
  // One command, START to START
  // ---------------------------------------------------------------------

  /** The registers when COUNT_BYTES is entered: the decoder as `Resync`
      left it, the flash released and `din` holding the byte of the exit
      transfer. */
  function Polled(s: Sys, rx0: Rx, t: Byte): Sys
  {
    s.(state := CountBytes, rx := rx0, cs := false, dout := ReadStatus, din := t)
  }

  /** The transfers from START to COUNT_BYTES: START's two, the polls, and
      the exit transfer, whose `last` the final status `q` decides. */
  function PollPhase(dout: Byte, polls: nat, q: Byte): seq<Xfer>
  {
    StartXfers(dout) + PollXfers(ReadStatus, polls + 2) + [ExitXfer(ReadStatus, q)]
  }

  /** The inputs and outputs when COUNT_BYTES is entered: the transfers of
      `PollPhase` are recorded and `wire` holds what `Resync` left. */
  function PolledIo(io: Io, dout: Byte, polls: nat, q: Byte, w: seq<Byte>, flash: seq<Byte>): Io
  {
    io.(wire := w, miso := flash, xfers := io.xfers + PollPhase(dout, polls, q))
  }

  /** The situation every command starts from: the machine in START, the
      characters after the decoder's resynchronisation are some junk
      without a `.` and then `line`, and the flash answers the status
      polls busy, busy, ..., idle, then one more status `q` and the byte
      `t` of the exit transfer. */
  predicate Arrives(s: Sys, io: Io, rx0: Rx, junk: seq<Byte>, line: seq<Byte>,
                    busy: seq<Byte>, p: Byte, q: Byte, t: Byte, flash: seq<Byte>)
  {
    && s.state == Start && NoDot(junk)
    && Resync(s.rx, io.wire) == Some((rx0, junk + line))
    && |io.miso| >= 2 && io.miso[2..] == busy + [p, q, t] + flash
    && AllBusy(busy) && !Busy(p)
  }

  /** Any frame: START, the polls and the four decoding states bring the
      machine to RUN in the state `AtRun` describes. */
  lemma ServeFrame(s: Sys, io: Io, rx0: Rx, junk: seq<Byte>, out: Byte, cmd: seq<Byte>, c: Byte, tail: seq<Byte>,
                   busy: seq<Byte>, p: Byte, q: Byte, t: Byte, flash: seq<Byte>)
    requires |cmd| < 256 && Arrives(s, io, rx0, junk, Frame(out, cmd, c) + tail, busy, p, q, t, flash)
    ensures Serve(s, io) == Finish(AtRun(Polled(s, rx0, t), out, cmd, c), PolledIo(io, s.dout, |busy|, q, tail, flash))
  {
    var r := Finish(AtRun(Polled(s, rx0, t), out, cmd, c), PolledIo(io, s.dout, |busy|, q, tail, flash));
    var w := junk + (Frame(out, cmd, c) + tail);
    AppendAssoc(junk, Frame(out, cmd, c), tail);
    var ioC := PolledIo(io, s.dout, |busy|, q, w, flash);
    assert ioC.(wire := tail) == PolledIo(io, s.dout, |busy|, q, tail, flash);
    DecodeFrame(Polled(s, rx0, t), ioC, junk, out, cmd, c, tail, r);
    StartThenPoll(s, io, rx0, w, busy, p, q, t, flash, r);
  }

  /** The host's command, seen by the machine: a frame with the checksum
      `command` computes, whose bytes therefore sum to zero. */
  lemma CommandArrives(out: Byte, cmd: seq<Byte>, more: seq<Byte>)
    requires |cmd| < 256
    ensures Programmer.Command(out, cmd) + more == Frame(out, cmd, Check(out, cmd)) + ([CR, LF] + more)
  {
    CommandOnWire(out, cmd);
    AppendAssoc(Frame(out, cmd, Check(out, cmd)), [CR, LF], more);
  }

  /** The state at RUN after the host's command has a zero sum. */
  lemma CommandSumsToZero(s: Sys, out: Byte, cmd: seq<Byte>)
    requires |cmd| < 256
    ensures AtRun(s, out, cmd, Check(out, cmd)).rx.checksum == 0
  {
    CheckCancels(out, cmd);
  }

  /** What a write command leaves behind: back in START with `.` as the
      marker and the decoder waiting in HIGH, the command at the front of
      the buffer, `\r\n` and what follows still to be read, one flash
      byte consumed per command byte, the transfers of START, of the polls
      (the exit transfer included) and of the write, and `.` and a newline
      sent back. */
  predicate WriteServed(s: Sys, io: Io, cmd: seq<Byte>, more: seq<Byte>, busy: seq<Byte>, q: Byte, flash: seq<Byte>, r: Outcome)
    requires |flash| >= |cmd|
  {
    && r.Next? && r.sys.state == Start && r.sys.sChr == Dot && r.sys.rx.phase == RxHigh
    && |cmd| <= BufferDepth && r.sys.buffer[..|cmd|] == cmd
    && r.io.wire == [CR, LF] + more
    && r.io.miso == flash[|cmd|..]
    && r.io.xfers == io.xfers + PollPhase(s.dout, |busy|, q) + WriteXfers(cmd, false, true)
    && r.io.frames == io.frames + [AckFrame(s.txData)]
  }

  /** `Written`, from the state at RUN, is `WriteServed`. */
  lemma WriteServedFrom(s: Sys, io: Io, rx0: Rx, t: Byte, cmd: seq<Byte>, c: Byte, more: seq<Byte>,
                        busy: seq<Byte>, q: Byte, flash: seq<Byte>, r: Outcome)
    requires |cmd| < 256 && |flash| >= |cmd|
    requires var sR := AtRun(Polled(s, rx0, t), 0, cmd, c);
      Written(sR.(state := SpiWrite), PolledIo(io, s.dout, |busy|, q, [CR, LF] + more, flash), 0, r)
    ensures WriteServed(s, io, cmd, more, busy, q, flash, r)
  {
    var sR := AtRun(Polled(s, rx0, t), 0, cmd, c);
    assert sR.buffer[0..|cmd|] == cmd;
  }

  /** A write command from the host (`command(cmd, 0)`): the machine
      writes the command bytes to the flash in one selection, released after
      the last byte, and answers `.` and a newline; see `WriteServed`. */
  lemma ServeWrite(s: Sys, io: Io, rx0: Rx, junk: seq<Byte>, cmd: seq<Byte>, more: seq<Byte>,
                   busy: seq<Byte>, p: Byte, q: Byte, t: Byte, flash: seq<Byte>)
    requires |cmd| < 256 && Arrives(s, io, rx0, junk, Programmer.Command(0, cmd) + more, busy, p, q, t, flash)
    requires |flash| >= |cmd|
    ensures WriteServed(s, io, cmd, more, busy, q, flash, Serve(s, io))
  {
    var c := Check(0, cmd);
    var tail := [CR, LF] + more;
    CommandArrives(0, cmd, more);
    assert Arrives(s, io, rx0, junk, Frame(0, cmd, c) + tail, busy, p, q, t, flash);
    ServeFrame(s, io, rx0, junk, 0, cmd, c, tail, busy, p, q, t, flash);
    var sR := AtRun(Polled(s, rx0, t), 0, cmd, c);
    var ioR := PolledIo(io, s.dout, |busy|, q, tail, flash);
    CommandSumsToZero(Polled(s, rx0, t), 0, cmd);
    ExecuteWrite(sR, ioR);
    WriteServedFrom(s, io, rx0, t, cmd, c, more, busy, q, flash, Finish(sR, ioR));
  }

  /** The line a write command is answered with. */
  lemma WriteAnswer(s: Sys, io: Io, cmd: seq<Byte>, more: seq<Byte>, busy: seq<Byte>, q: Byte, flash: seq<Byte>, r: Outcome)
    requires |flash| >= |cmd| && WriteServed(s, io, cmd, more, busy, q, flash, r)
    ensures Transmit(r.io.frames[|io.frames|..]) == [Dot, LF]
  {
    assert r.io.frames[|io.frames|..] == [AckFrame(s.txData)];
    TransmitOne(AckFrame(s.txData));
  }

  /** What a read command leaves behind: back in START with the marker
      unchanged and the decoder waiting in HIGH, the command at the front
      of the buffer, `\r\n` and what follows still to be read, the
      transfers of START, of the polls (the exit transfer included), of the
      command (the flash kept selected), of the stall and of the read, and the `out` flash bytes
      after the command's sent back as one frame marked with `s_chr`. */
  predicate ReadServed(s: Sys, io: Io, cmd: seq<Byte>, out: nat, more: seq<Byte>, busy: seq<Byte>, q: Byte, flash: seq<Byte>,
                       r: Outcome)
    requires |flash| > |cmd| + out
  {
    && r.Next? && r.sys.state == Start && r.sys.sChr == s.sChr && r.sys.rx.phase == RxHigh
    && |cmd| <= BufferDepth && r.sys.buffer[..|cmd|] == cmd
    && r.io.wire == [CR, LF] + more
    && r.io.miso == flash[|cmd| + out + 1..]
    && r.io.xfers == io.xfers + PollPhase(s.dout, |busy|, q)
                       + WriteXfers(cmd, false, false) + [Xfer(0, false, false)] + ReadXfers(1, out)
    && r.io.frames == io.frames + FrameRequests(s.sChr, flash[|cmd|..|cmd| + out])
  }

  /** `ReadAnswered`, from the state at RUN, is `ReadServed`. */
  lemma ReadServedFrom(s: Sys, io: Io, rx0: Rx, t: Byte, cmd: seq<Byte>, out: Byte, c: Byte, more: seq<Byte>,
                       busy: seq<Byte>, q: Byte, flash: seq<Byte>, r: Outcome)
    requires |cmd| < 256 && out > 0 && |flash| > |cmd| + out
    requires ReadAnswered(AtRun(Polled(s, rx0, t), out, cmd, c), PolledIo(io, s.dout, |busy|, q, [CR, LF] + more, flash), r)
    ensures ReadServed(s, io, cmd, out, more, busy, q, flash, r)
  {
    var sR := AtRun(Polled(s, rx0, t), out, cmd, c);
    assert sR.buffer[..|cmd|] == cmd;
  }

  /** A read command from the host (`command(cmd, out)` with `out > 0`):
      see `ReadServed`. */
  lemma ServeRead(s: Sys, io: Io, rx0: Rx, junk: seq<Byte>, cmd: seq<Byte>, out: Byte, more: seq<Byte>,
                  busy: seq<Byte>, p: Byte, q: Byte, t: Byte, flash: seq<Byte>)
    requires |cmd| < 256 && out > 0 && Arrives(s, io, rx0, junk, Programmer.Command(out, cmd) + more, busy, p, q, t, flash)
    requires |flash| > |cmd| + out
    ensures ReadServed(s, io, cmd, out, more, busy, q, flash, Serve(s, io))
  {
    var c := Check(out, cmd);
    var tail := [CR, LF] + more;
    CommandArrives(out, cmd, more);
    assert Arrives(s, io, rx0, junk, Frame(out, cmd, c) + tail, busy, p, q, t, flash);
    ServeFrame(s, io, rx0, junk, out, cmd, c, tail, busy, p, q, t, flash);
    var sR := AtRun(Polled(s, rx0, t), out, cmd, c);
    var ioR := PolledIo(io, s.dout, |busy|, q, tail, flash);
    CommandSumsToZero(Polled(s, rx0, t), out, cmd);
    ExecuteRead(sR, ioR);
    ReadServedFrom(s, io, rx0, t, cmd, out, c, more, busy, q, flash, Finish(sR, ioR));
  }

  /** The line a read command is answered with: `s_chr`, the bytes read in
      upper-case hex, and a newline. */
  lemma ReadAnswer(s: Sys, io: Io, cmd: seq<Byte>, out: nat, more: seq<Byte>, busy: seq<Byte>, q: Byte, flash: seq<Byte>,
                   r: Outcome)
    requires out > 0 && |flash| > |cmd| + out && ReadServed(s, io, cmd, out, more, busy, q, flash, r)
    ensures Transmit(r.io.frames[|io.frames|..]) == Programmer.ReadLine(s.sChr, flash[|cmd|..|cmd| + out])
  {
    var data := flash[|cmd|..|cmd| + out];
    assert r.io.frames[|io.frames|..] == FrameRequests(s.sChr, data);
    FrameOnWire(s.sChr, data);
  }

  /** Reading a page back after a write: the line starts with `.`, and the
      corrected check reports the page exactly when the flash returned
      different bytes; so does the check as written, for a read-back of
      the page's length. */
  lemma ReadBackChecked(s: Sys, io: Io, cmd: seq<Byte>, more: seq<Byte>, busy: seq<Byte>, q: Byte, flash: seq<Byte>,
                        r: Outcome, page: seq<Byte>, line: seq<Byte>)
    requires s.sChr == Dot && |page| > 0 && |flash| > |cmd| + |page|
    requires ReadServed(s, io, cmd, |page|, more, busy, q, flash, r)
    requires line == Transmit(r.io.frames[|io.frames|..])
    ensures Programmer.ReportedStrict(page, line) <==> flash[|cmd|..|cmd| + |page|] != page
    ensures Programmer.Reported(page, line) <==> flash[|cmd|..|cmd| + |page|] != page
  {
    ReadAnswer(s, io, cmd, |page|, more, busy, q, flash, r);
    var data := flash[|cmd|..|cmd| + |page|];
    assert line == Programmer.ReadLine(Dot, data);
    Programmer.ReportedStrictIffDiffers(page, data);
    Programmer.ReportedIffDiffers(page, data);
  }

  lemma AtRunSum(s: Sys, out: Byte, cmd: seq<Byte>, c: Byte, sum: Byte)
    requires |cmd| < 256 && sum == FrameTotal(out, cmd, c)
    ensures AtRun(s, out, cmd, c).rx.checksum == sum
  {
  }

  /** A frame whose bytes and checksum do not sum to zero modulo 256: the
      machine answers `c` and the sum, and sends nothing to the flash after
      the status polls and their exit transfer. */
  lemma ServeRejected(s: Sys, io: Io, rx0: Rx, junk: seq<Byte>, out: Byte, cmd: seq<Byte>, c: Byte, tail: seq<Byte>,
                      busy: seq<Byte>, p: Byte, q: Byte, t: Byte, flash: seq<Byte>, sum: Byte, sR: Sys, ioR: Io)
    requires |cmd| < 256 && Arrives(s, io, rx0, junk, Frame(out, cmd, c) + tail, busy, p, q, t, flash)
    requires sum == FrameTotal(out, cmd, c) && sum != 0
    requires sR == AtRun(Polled(s, rx0, t), out, cmd, c) && ioR == PolledIo(io, s.dout, |busy|, q, tail, flash)
    ensures Serve(s, io) == Next(sR.(state := Start, sChr := LetterC, txData := sum), Send(ioR, ChecksumFrame(sum)))
  {
    ServeFrame(s, io, rx0, junk, out, cmd, c, tail, busy, p, q, t, flash);
    AtRunSum(Polled(s, rx0, t), out, cmd, c, sum);
    ExecuteRejected(sR, ioR, sum);
  }

  /** The line a rejected frame is answered with. */
  lemma RejectedAnswer(io: Io, sum: Byte)
    ensures Transmit(Send(io, ChecksumFrame(sum)).frames[|io.frames|..]) == [LetterC] + HexPair(sum, true) + [LF]
  {
    assert Send(io, ChecksumFrame(sum)).frames[|io.frames|..] == [ChecksumFrame(sum)];
    TransmitOne(ChecksumFrame(sum));
  }

  /** COUNT_BYTES on a decode error goes to ERR. */
  lemma CountFailed(s: Sys, io: Io, rx1: Rx, rest: seq<Byte>)
    requires s.state == CountBytes && Receive(s.rx, io.wire) == Failed(rx1, rest)
    ensures Step(s, io) == Next(s.(state := Err, rx := rx1), io.(wire := rest))
  {
  }

  /** COUNT_BYTES meeting a non-hex character right after the `.`: ERR
      answers `e` and a newline. */
  lemma BadHexFinish(s: Sys, io: Io, junk: seq<Byte>, x: Byte, rest: seq<Byte>, rx1: Rx)
    requires s.state == CountBytes && s.rx.phase == RxStart && NoDot(junk) && !IsHexChar(x)
    requires io.wire == junk + ([Dot, x] + rest) && rx1 == Rx(RxError, Lo(s.rx.data), 0)
    ensures Finish(s, io) == Next(s.(state := Start, rx := rx1, sChr := LetterE, txData := 0xFF),
                                  Send(io.(wire := rest), ErrFrame))
  {
    AppendAssoc(junk, [Dot], [x] + rest);
    assert [Dot] + ([x] + rest) == [Dot, x] + rest;
    ReceiveAfterDot(s.rx, junk, [x] + rest);
    ReceiveBadChar(Rx(RxHigh, s.rx.data, 0), x, rest);
    CountFailed(s, io, rx1, rest);
    var sE := s.(state := Err, rx := rx1);
    var ioE := io.(wire := rest);
    var r := Next(s.(state := Start, rx := rx1, sChr := LetterE, txData := 0xFF), Send(ioE, ErrFrame));
    Arrive(sE, ioE, r.sys, r.io);
    Advance(s, io, sE, ioE, r);
  }

  /** A frame whose first character after the `.` is not a hex digit: the
      decoder flags the error, the machine answers `e` and a newline
      without touching the flash again, and the decoder is left in ERROR
      for the next START to clear. */
  lemma ServeBadHex(s: Sys, io: Io, rx0: Rx, junk: seq<Byte>, x: Byte, rest: seq<Byte>,
                    busy: seq<Byte>, p: Byte, q: Byte, t: Byte, flash: seq<Byte>)
    requires !IsHexChar(x) && Arrives(s, io, rx0, junk, [Dot, x] + rest, busy, p, q, t, flash)
    ensures Serve(s, io) ==
      Next(Polled(s, rx0, t).(state := Start, rx := Rx(RxError, Lo(rx0.data), 0), sChr := LetterE, txData := 0xFF),
           Send(PolledIo(io, s.dout, |busy|, q, rest, flash), ErrFrame))
  {
    var w := junk + ([Dot, x] + rest);
    var sC := Polled(s, rx0, t);
    var ioC := PolledIo(io, s.dout, |busy|, q, w, flash);
    BadHexFinish(sC, ioC, junk, x, rest, Rx(RxError, Lo(rx0.data), 0));
    assert ioC.(wire := rest) == PolledIo(io, s.dout, |busy|, q, rest, flash);
    StartThenPoll(s, io, rx0, w, busy, p, q, t, flash, Finish(sC, ioC));
  }

  /** The line a decode error is answered with. */
  lemma ErrorAnswer(io: Io)
    ensures Transmit(Send(io, ErrFrame).frames[|io.frames|..]) == [LetterE, LF]
  {
    assert Send(io, ErrFrame).frames[|io.frames|..] == [ErrFrame];
    TransmitOne(ErrFrame);
  }
}
