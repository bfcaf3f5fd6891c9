/** The orchestrating state machine of top.py, one transition per event.

    The machine reads a command frame from the hex decoder (byte count,
    number of bytes to return, the bytes, a checksum), stores the bytes in
    a 255-byte buffer, waits for the flash to finish its previous
    operation, sends the bytes over SPI and answers on the hex encoder:
    `.` and a newline for a write, the read bytes as one frame for a read,
    `c` and the checksum for a bad checksum, `e` and a newline for a decode
    error.

    SPI transfers and encoder requests are recorded as they are issued; the
    flash is not modelled, so the byte it shifts out during each transfer
    is taken from the input `miso`. The characters from the host are the
    input `wire`. A state that waits for input that never comes is
    `Stuck`. */
module Top {
  import opened Bytes
  import opened HexDigits
  import opened SerialHex
  import SpiController

  /** Depth of the input buffer (`Memory(width=8, depth=255)`). */
  const BufferDepth: nat := 255

  /** The flash's READ STATUS REGISTER command. */
  const ReadStatus: Byte := 0x05

  type Buffer = b: seq<Byte> | |b| == BufferDepth witness seq(BufferDepth, _ => 0)

  datatype State =
    | Start | PollReady | CountBytes | ReturnBytes | ReadData | Checksum
    | Run | SpiWrite | SpiStall | SpiRead | Err

  /** One SPI transfer as the machine requests it: the byte to send and
      the `first`/`last` flags. */
  datatype Xfer = Xfer(dout: Byte, first: bool, last: bool)

  /** The registers that outlive a state: the FSM state, the decoder, the
      SPI controller's `cs`, `dout` and `din`, the two header fields, the
      buffer, and the encoder's `s_chr` and `data` inputs, which are only
      written when a frame is sent and otherwise keep their old value. */
  datatype Sys = Sys(
    state: State,
    rx: Rx,
    cs: bool,
    dout: Byte,
    din: Byte,
    byteCount: Byte,
    returnBytes: Byte,
    buffer: Buffer,
    sChr: Byte,
    txData: Byte)

  /** The state after reset. */
  const Reset: Sys :=
    Sys(Start, RxReset, false, 0, 0, 0, 0, seq(BufferDepth, _ => 0), 0, 0)

  /** The inputs still to come and the outputs so far. */
  datatype Io = Io(wire: seq<Byte>, miso: seq<Byte>, xfers: seq<Xfer>, frames: seq<TxRequest>)

  datatype Outcome = Next(sys: Sys, io: Io) | Stuck

  // ---------------------------------------------------------------------
  // Events
  // ---------------------------------------------------------------------

  /** One SPI transfer: `dout` goes out, the flash's byte comes into `din`,
      and `cs` follows the controller's rule. */
  function Transfer(s: Sys, io: Io, dout: Byte, first: bool, last: bool): (r: Outcome)
    ensures r.Next? <==> |io.miso| > 0
    ensures r.Next? ==>
      && r.sys == s.(dout := dout, din := io.miso[0], cs := SpiController.CsAfter(s.cs, first, last))
      && r.io == io.(miso := io.miso[1..], xfers := io.xfers + [Xfer(dout, first, last)])
  {
    if |io.miso| == 0 then Stuck
    else Next(s.(dout := dout, din := io.miso[0], cs := SpiController.CsAfter(s.cs, first, last)),
              io.(miso := io.miso[1..], xfers := io.xfers + [Xfer(dout, first, last)]))
  }

  /** The event `Transfer` is what the cycle-level controller does. Started
      idle, with `cs` as the machine holds it and the flash's next byte on
      `cipo`, the controller shifts out exactly `dout`, and it ends with the
      flash's byte and the `cs` level that `Transfer` records. */
  method TransferRefines(s: Sys, io: Io, c: SpiController.Ctl, dout: Byte, first: bool, last: bool)
    returns (ctl: SpiController.Ctl, copi: seq<bool>)
    requires SpiController.Idle(c) && c.cs == s.cs && |io.miso| > 0
    ensures SpiController.Idle(ctl) && copi == SpiController.ByteBits(dout)
    ensures Transfer(s, io, dout, first, last) ==
      Next(s.(dout := dout, din := ctl.din, cs := ctl.cs),
           io.(miso := io.miso[1..], xfers := io.xfers + [Xfer(dout, first, last)]))
  {
    var csTrace, cycles;
    ctl, copi, csTrace, cycles := SpiController.Transfer(c, dout, first, last, SpiController.ByteBits(io.miso[0]));
    SpiController.ByteBitsRoundTrip(io.miso[0]);
  }

  /** An encoder request. */
  function Send(io: Io, req: TxRequest): Io
  {
    io.(frames := io.frames + [req])
  }

  // ---------------------------------------------------------------------
  // START
  // ---------------------------------------------------------------------

  function ResyncRank(p: RxPhase): nat
  {
    match p
    case RxStart => 0
    case RxError => 1
    case RxHigh => 2
    case RxLow => 2
    case RxDone => 3
  }

  /** START strobes the decoder's `start` while the decoder is not in its
      own START: a byte in DONE is acknowledged, an ERROR is cleared, and in
      HIGH or LOW the decoder goes on taking characters. `None` when the
      characters run out first. */
  function Resync(rx: Rx, wire: seq<Byte>): (r: Option<(Rx, seq<Byte>)>)
    ensures r.Some? ==> r.value.0.phase == RxStart
    ensures r.Some? ==> |r.value.1| <= |wire| && r.value.1 == wire[|wire| - |r.value.1|..]
    ensures rx.phase == RxStart ==> r == Some((rx, wire))
    decreases |wire|, ResyncRank(rx.phase)
  {
    match rx.phase
    case RxStart => Some((rx, wire))
    case RxDone => Resync(Ack(rx), wire)
    case RxError => Resync(Ack(rx), wire)
    case _ => if |wire| == 0 then None else Resync(OnChar(rx, wire[0]), wire[1..])
  }

  /** After a command the decoder waits in HIGH, and the request's `\r`
      is what brings it back: CR is not a hex digit, so HIGH goes to
      ERROR, and the strobe clears that. */
  lemma ResyncAfterCommand(rx: Rx, wire: seq<Byte>)
    requires rx.phase == RxHigh
    ensures Resync(rx, [CR] + wire) == Some((Rx(RxStart, Lo(rx.data), rx.checksum), wire))
  {
    var w := [CR] + wire;
    assert w[0] == CR && w[1..] == wire;
    var e := OnChar(rx, CR);
    assert e == Rx(RxError, Lo(rx.data), rx.checksum);
    assert Resync(rx, w) == Resync(e, wire);
    assert Resync(e, wire) == Resync(Ack(e), wire);
  }

  /** START: one transfer with `last` that releases the flash, the decoder
      brought back to its START phase, then READ STATUS REGISTER with
      `first`. It needs two flash bytes and a decoder that gets back to
      START before the characters run out; `din` ends up holding the
      byte shifted in during the command byte. */
  function StartStage(s: Sys, io: Io): (r: Outcome)
    ensures r.Next? <==> |io.miso| >= 2 && Resync(s.rx, io.wire).Some?
    ensures r.Next? ==>
      var p := Resync(s.rx, io.wire).value;
      && r.sys == s.(state := PollReady, rx := p.0, cs := true, dout := ReadStatus, din := io.miso[1])
      && r.io == io.(wire := p.1, miso := io.miso[2..],
                     xfers := io.xfers + [Xfer(s.dout, false, true), Xfer(ReadStatus, true, false)])
  {
    match Transfer(s, io, s.dout, false, true)
    case Stuck => Stuck
    case Next(s1, io1) =>
      match Resync(s1.rx, io1.wire)
      case None => Stuck
      case Some(p) =>
        match Transfer(s1.(rx := p.0), io1.(wire := p.1), ReadStatus, true, false)
        case Stuck => Stuck
        case Next(s2, io2) =>
          StartTransfers(s, io, s1, io1, p, s2, io2);
          Next(s2.(state := PollReady), io2)
  }

  /** START's two transfers around the resynchronisation, stated on the
      states between them. */
  lemma StartTransfers(s: Sys, io: Io, s1: Sys, io1: Io, p: (Rx, seq<Byte>), s2: Sys, io2: Io)
    requires Transfer(s, io, s.dout, false, true) == Next(s1, io1)
    requires Resync(s1.rx, io1.wire) == Some(p)
    requires Transfer(s1.(rx := p.0), io1.(wire := p.1), ReadStatus, true, false) == Next(s2, io2)
    ensures |io.miso| >= 2 && Resync(s.rx, io.wire) == Some(p)
    ensures s2.(state := PollReady) == s.(state := PollReady, rx := p.0, cs := true, dout := ReadStatus, din := io.miso[1])
    ensures io2 == io.(wire := p.1, miso := io.miso[2..],
                       xfers := io.xfers + [Xfer(s.dout, false, true), Xfer(ReadStatus, true, false)])
  {
    assert io1.miso == io.miso[1..];
    assert io2.xfers == io.xfers + [Xfer(s.dout, false, true)] + [Xfer(ReadStatus, true, false)];
    AppendAssoc(io.xfers, [Xfer(s.dout, false, true)], [Xfer(ReadStatus, true, false)]);
  }

  // ---------------------------------------------------------------------
  // POLL_READY
  // ---------------------------------------------------------------------

  /** The transfers of a poll that ends after `n` of them: all but the
      last leave `cs` asserted. */
  function PollXfers(dout: Byte, n: nat): (xs: seq<Xfer>)
    requires n >= 1
    ensures |xs| == n
    ensures forall j :: 0 <= j < n ==> xs[j] == Xfer(dout, false, j == n - 1)
  {
    if n == 1 then [Xfer(dout, false, true)] else [Xfer(dout, false, false)] + PollXfers(dout, n - 1)
  }

  /** Bit 0 of the status register: write in progress. */
  predicate Busy(status: Byte)
  {
    status % 2 == 1
  }

  /** POLL_READY: keep reading the status register; the first status read
      in this state is not looked at (`poll_first`), and once a status
      shows the flash idle the next transfer is sent with `last`, after
      which `cs` is low and the machine leaves for COUNT_BYTES. `checked`
      says whether `din` already holds a status read in this state. */
  function Poll(s: Sys, io: Io, checked: bool): (r: Outcome)
    ensures r.Next? ==> r.sys.state == CountBytes && !r.sys.cs
    ensures r.Next? ==> r.io.wire == io.wire && r.io.frames == io.frames
    decreases |io.miso|
  {
    var last := checked && !Busy(s.din);
    match Transfer(s, io, s.dout, false, last)
    case Stuck => Stuck
    case Next(s1, io1) =>
      if last then Leave(s1, io1) else Poll(s1, io1, true)
  }

  /** The transfer POLL_READY starts in the cycle it leaves: `spi.ready`
      still strobes `start` with `dout` unchanged and `first` clear, and
      `last` is set when the status in `din` shows the flash idle. */
  function ExitXfer(dout: Byte, status: Byte): Xfer
  {
    Xfer(dout, false, !Busy(status))
  }

  /** Leaving POLL_READY once `cs` is low: the exit transfer, which keeps
      `cs` low and brings one more flash byte into `din`. */
  function Leave(s: Sys, io: Io): (r: Outcome)
    requires !s.cs
    ensures r.Next? <==> |io.miso| > 0
    ensures r.Next? ==> !r.sys.cs && r.sys.din == io.miso[0] && [r.sys.din] + r.io.miso == io.miso
  {
    match Transfer(s, io, s.dout, false, !Busy(s.din))
    case Stuck => Stuck
    case Next(s1, io1) => Next(s1.(state := CountBytes), io1)
  }

  /** What a finished poll did: `n` status transfers, the statuses it saw
      (the `din` before each transfer) busy up to the one that let it stop,
      the last of them releasing `cs`, then the exit transfer, and nothing
      else changed. */
  predicate Polled(s: Sys, io: Io, checked: bool, r: Outcome, n: nat)
  {
    && r.Next? && 1 <= n < |io.miso|
    && var status := [s.din] + io.miso[..n - 1];
    && (checked || n >= 2)
    && !Busy(status[n - 1])
    && (forall j :: (if checked then 0 else 1) <= j < n - 1 ==> Busy(status[j]))
    && r.sys == s.(state := CountBytes, din := io.miso[n], cs := false)
    && r.io == io.(miso := io.miso[n + 1..],
                   xfers := io.xfers + PollXfers(s.dout, n) + [ExitXfer(s.dout, io.miso[n - 1])])
  }

  /** The inductive step of `PollStops`: one busy status, then the rest. */
  lemma PollStep(s: Sys, io: Io, checked: bool, s1: Sys, io1: Io, n: nat)
    requires |io.miso| > 0 && !(checked && !Busy(s.din))
    requires s1 == s.(din := io.miso[0], cs := SpiController.CsAfter(s.cs, false, false))
    requires io1 == io.(miso := io.miso[1..], xfers := io.xfers + [Xfer(s.dout, false, false)])
    requires Polled(s1, io1, true, Poll(s1, io1, true), n)
    ensures Polled(s, io, checked, Poll(s1, io1, true), n + 1)
  {
    var r := Poll(s1, io1, true);
    var status1 := [s1.din] + io1.miso[..n - 1];
    var status := [s.din] + io.miso[..n];
    assert status[1..] == status1;
    assert io1.miso[n + 1..] == io.miso[n + 2..];
    assert io1.miso[n - 1] == io.miso[n];
    assert io1.miso[n] == io.miso[n + 1];
    assert io1.xfers + PollXfers(s.dout, n) == io.xfers + PollXfers(s.dout, n + 1);
    forall j | (if checked then 0 else 1) <= j < n
      ensures Busy(status[j])
    {
      if j > 0 {
        assert status[j] == status1[j - 1];
      }
    }
  }

  /** POLL_READY stops at the first idle status it looks at, having sent one
      more transfer with `last` and then the exit transfer; a poll that
      does not stop runs out of flash input and is `Stuck`. */
  lemma {:induction false} PollStops(s: Sys, io: Io, checked: bool)
    ensures Poll(s, io, checked).Next? ==>
      exists n :: Polled(s, io, checked, Poll(s, io, checked), n)
    decreases |io.miso|
  {
    var r := Poll(s, io, checked);
    if r.Next? {
      var last := checked && !Busy(s.din);
      var s1 := s.(din := io.miso[0], cs := SpiController.CsAfter(s.cs, false, last));
      var io1 := io.(miso := io.miso[1..], xfers := io.xfers + [Xfer(s.dout, false, last)]);
      if last {
        assert io.miso[..0] == [];
        assert io1.miso[1..] == io.miso[2..];
        assert Polled(s, io, checked, r, 1);
      } else {
        PollStops(s1, io1, true);
        var n :| Polled(s1, io1, true, Poll(s1, io1, true), n);
        PollStep(s, io, checked, s1, io1, n);
      }
    }
  }

  // ---------------------------------------------------------------------
  // COUNT_BYTES, RETURN_BYTES, READ_DATA, CHECKSUM
  // ---------------------------------------------------------------------

  /** READ_DATA: the remaining bytes of the frame, from buffer index `k` on,
      stored as the decoder delivers them; a decode error goes to ERR. */
  function Fill(s: Sys, io: Io, k: nat): (r: Outcome)
    requires k <= s.byteCount
    ensures r.Next? ==> r.sys.state == Checksum || (r.sys.state == Err && r.sys.rx.phase == RxError)
    ensures r.Next? ==> r.io == io.(wire := r.io.wire)
    decreases s.byteCount - k
  {
    if k == s.byteCount then Next(s.(state := Checksum), io)
    else match Receive(s.rx, io.wire)
      case Got(b, rx1, rest) => Fill(s.(rx := rx1, buffer := s.buffer[k := b]), io.(wire := rest), k + 1)
      case Failed(rx1, rest) => Next(s.(state := Err, rx := rx1), io.(wire := rest))
      case Starved => Stuck
  }

  /** READ_DATA stores exactly what the decoder delivers for the remaining
      `byteCount - k` bytes, leaving the rest of the buffer alone, and
      reaches CHECKSUM whenever the decoder delivers them all. */
  predicate Filled(s: Sys, io: Io, k: nat, r: Outcome)
    requires k <= s.byteCount
  {
    var m := ReceiveMany(s.rx, io.wire, s.byteCount - k);
    m.Batch? ==>
      && r.Next?
      && r.sys == s.(state := Checksum, rx := m.rx, buffer := r.sys.buffer)
      && r.io == io.(wire := m.rest)
      && BufferFilled(s.buffer, r.sys.buffer, k, s.byteCount, m.bytes)
  }

  /** `after` is `before` with `bytes` written at `k..n`. */
  predicate BufferFilled(before: Buffer, after: Buffer, k: nat, n: nat, bytes: seq<Byte>)
    requires k <= n <= BufferDepth
  {
    && after[..k] == before[..k]
    && after[k..n] == bytes
    && after[n..] == before[n..]
  }

  lemma BufferStep(before: Buffer, after: Buffer, k: nat, n: nat, b: Byte, bytes: seq<Byte>)
    requires k < n <= BufferDepth
    requires BufferFilled(before[k := b], after, k + 1, n, bytes)
    ensures BufferFilled(before, after, k, n, [b] + bytes)
  {
    assert after[..k] == after[..k + 1][..k];
    assert after[k] == after[..k + 1][k];
    assert after[k..n] == [after[k]] + after[k + 1..n];
  }

  /** The inductive step of `FillIsReceiveMany`, for any outcome `r` that
      the rest of READ_DATA leads to. */
  lemma FillStep(s: Sys, io: Io, k: nat, b: Byte, rx1: Rx, rest: seq<Byte>, r: Outcome)
    requires k < s.byteCount && Receive(s.rx, io.wire) == Got(b, rx1, rest)
    requires Filled(s.(rx := rx1, buffer := s.buffer[k := b]), io.(wire := rest), k + 1, r)
    ensures Filled(s, io, k, r)
  {
    var n := s.byteCount;
    var m := ReceiveMany(s.rx, io.wire, n - k);
    if m.Batch? {
      var m1 := ReceiveMany(rx1, rest, n - k - 1);
      ReceiveManyStep(s.rx, io.wire, n - k, b, rx1, rest);
      BufferStep(s.buffer, r.sys.buffer, k, n, b, m1.bytes);
    }
  }

  lemma {:induction false} FillIsReceiveMany(s: Sys, io: Io, k: nat)
    requires k <= s.byteCount
    ensures Filled(s, io, k, Fill(s, io, k))
    decreases s.byteCount - k
  {
    if k < s.byteCount {
      var g := Receive(s.rx, io.wire);
      if g.Got? {
        var s1 := s.(rx := g.rx, buffer := s.buffer[k := g.b]);
        var io1 := io.(wire := g.rest);
        FillIsReceiveMany(s1, io1, k + 1);
        FillRecurse(s, io, k, g.b, g.rx, g.rest);
      } else {
        FillFails(s, io, k);
      }
    }
  }

  /** A decode error or a dry link before the last byte: no batch. */
  lemma FillFails(s: Sys, io: Io, k: nat)
    requires k < s.byteCount && !Receive(s.rx, io.wire).Got?
    ensures Filled(s, io, k, Fill(s, io, k))
  {
    NoBatch(s.rx, io.wire, s.byteCount - k);
  }

  /** `FillStep` for the byte READ_DATA actually receives at index `k`. */
  lemma FillRecurse(s: Sys, io: Io, k: nat, b: Byte, rx1: Rx, rest: seq<Byte>)
    requires k < s.byteCount && Receive(s.rx, io.wire) == Got(b, rx1, rest)
    requires var s1 := s.(rx := rx1, buffer := s.buffer[k := b]);
      Filled(s1, io.(wire := rest), k + 1, Fill(s1, io.(wire := rest), k + 1))
    ensures Filled(s, io, k, Fill(s, io, k))
  {
    var s1 := s.(rx := rx1, buffer := s.buffer[k := b]);
    var io1 := io.(wire := rest);
    assert Fill(s, io, k) == Fill(s1, io1, k + 1);
    FillStep(s, io, k, b, rx1, rest, Fill(s1, io1, k + 1));
  }

  /** Where a header state puts the byte it receives. */
  datatype Field = ToByteCount | ToReturnBytes | Discard

  function Store(s: Sys, f: Field, b: Byte): Sys
  {
    match f
    case ToByteCount => s.(byteCount := b)
    case ToReturnBytes => s.(returnBytes := b)
    case Discard => s
  }

  /** COUNT_BYTES, RETURN_BYTES and CHECKSUM: wait for one byte, store it
      and go on to `next`; a decode error goes to ERR. */
  function Header(s: Sys, io: Io, f: Field, next: State): (r: Outcome)
    ensures r.Stuck? <==> Receive(s.rx, io.wire).Starved?
    ensures r.Next? ==> r.sys.state == next || (r.sys.state == Err && r.sys.rx.phase == RxError)
    ensures r.Next? ==> r.io == io.(wire := r.io.wire)
  {
    match Receive(s.rx, io.wire)
    case Got(b, rx1, rest) => Next(Store(s, f, b).(state := next, rx := rx1), io.(wire := rest))
    case Failed(rx1, rest) => Next(s.(state := Err, rx := rx1), io.(wire := rest))
    case Starved => Stuck
  }

  // ---------------------------------------------------------------------
  // RUN, SPI_WRITE, SPI_STALL, SPI_READ, ERR
  // ---------------------------------------------------------------------

  /** The frame RUN sends for a non-zero checksum: `c`, the checksum in
      hex, a newline. */
  function ChecksumFrame(checksum: Byte): (f: TxRequest)
    ensures Encode(f) == [LetterC] + HexPair(checksum, true) + [LF]
  {
    TxRequest(true, true, false, LetterC, checksum)
  }

  /** The frame that acknowledges a command with nothing to return: `.`
      and a newline, whatever the data register holds. */
  function AckFrame(data: Byte): (f: TxRequest)
    ensures Encode(f) == [Dot, LF]
  {
    TxRequest(true, true, true, Dot, data)
  }

  /** The frame ERR sends, `e` and a newline. */
  const ErrFrame: TxRequest := TxRequest(true, true, true, LetterE, 0xFF)

  /** RUN: a frame whose bytes, checksum included, do not sum to zero
      modulo 256 is answered with `c` and the sum and not executed; one
      that does goes on to SPI_WRITE without a word. RUN touches neither
      the flash nor the characters still to be read, and of the registers
      it changes only the state and the encoder's marker and data. */
  function RunStage(s: Sys, io: Io): (r: Outcome)
    ensures r.Next? && r.io.wire == io.wire && r.io.miso == io.miso && r.io.xfers == io.xfers
    ensures r.sys.(state := s.state, sChr := s.sChr, txData := s.txData) == s
    ensures |r.io.frames| >= |io.frames| && r.io.frames[..|io.frames|] == io.frames
    ensures r.sys.state == (if s.rx.checksum == 0 then SpiWrite else Start)
    ensures s.rx.checksum != 0 ==>
      Transmit(r.io.frames[|io.frames|..]) == [LetterC] + HexPair(s.rx.checksum, true) + [LF]
    ensures s.rx.checksum == 0 ==> r.io.frames == io.frames
  {
    if s.rx.checksum != 0 then
      var io1 := Send(io, ChecksumFrame(s.rx.checksum));
      assert io1.frames[|io.frames|..] == [ChecksumFrame(s.rx.checksum)];
      TransmitOne(ChecksumFrame(s.rx.checksum));
      Next(s.(state := Start, sChr := LetterC, txData := s.rx.checksum), io1)
    else Next(s.(state := SpiWrite), io)
  }

  /** The transfers SPI_WRITE issues for `data` when `cs` is `cs` at the
      start: `first` exactly on the first byte if `cs` is low, `last` on the
      final byte exactly when nothing is to be read back. */
  function WriteXfers(data: seq<Byte>, cs: bool, ack: bool): (xs: seq<Xfer>)
    ensures |xs| == |data|
    decreases |data|
  {
    if |data| == 0 then []
    else [Xfer(data[0], !cs, ack && |data| == 1)] + WriteXfers(data[1..], true, ack)
  }

  /** The transfers of SPI_WRITE one by one: byte `j` of the buffer goes
      out, `first` only on the first when `cs` was low, `last` only on the
      final one of a command that reads nothing back. */
  lemma {:induction false} WriteXfersAt(data: seq<Byte>, cs: bool, ack: bool, j: nat)
    requires j < |data|
    ensures WriteXfers(data, cs, ack)[j] == Xfer(data[j], j == 0 && !cs, ack && j == |data| - 1)
    decreases j
  {
    if j > 0 {
      WriteXfersAt(data[1..], true, ack, j - 1);
    }
  }

  /** SPI_WRITE from buffer index `k` on: one transfer per remaining byte,
      then the acknowledgement and START when nothing is to be read back,
      SPI_STALL otherwise. */
  function Write(s: Sys, io: Io, k: nat): (r: Outcome)
    requires k <= s.byteCount
    ensures r.Next? ==> r.sys.state == (if s.returnBytes == 0 then Start else SpiStall)
    ensures r.Next? ==> r.sys.sChr == (if s.returnBytes == 0 then Dot else s.sChr)
    ensures r.Next? ==> r.io.frames == io.frames + (if s.returnBytes == 0 then [AckFrame(s.txData)] else [])
    decreases s.byteCount - k
  {
    if k == s.byteCount then
      if s.returnBytes == 0 then Next(s.(state := Start, sChr := Dot), Send(io, AckFrame(s.txData)))
      else Next(s.(state := SpiStall), io)
    else
      match Transfer(s, io, s.buffer[k], !s.cs, s.returnBytes == 0 && k + 1 >= s.byteCount)
      case Stuck => Stuck
      case Next(s1, io1) => Write(s1, io1, k + 1)
  }

  /** What SPI_WRITE does from index `k`: the buffer bytes `k..byteCount`
      as `WriteXfers`, one flash byte consumed per transfer, `cs` released
      after them exactly when nothing is to be read back, and the
      acknowledgement frame in that case. */
  predicate Written(s: Sys, io: Io, k: nat, r: Outcome)
    requires k <= s.byteCount
  {
    var n := s.byteCount;
    var ack := s.returnBytes == 0;
    |io.miso| >= n - k ==>
      && r.Next?
      && r.io.miso == io.miso[n - k..]
      && r.io.xfers == io.xfers + WriteXfers(s.buffer[k..n], s.cs, ack)
      && r.io.wire == io.wire
      && r.io.frames == io.frames + (if ack then [AckFrame(s.txData)] else [])
      && r.sys == s.(state := if ack then Start else SpiStall,
                     sChr := if ack then Dot else s.sChr,
                     cs := if k == n then s.cs else !ack,
                     din := if k == n then s.din else io.miso[n - k - 1],
                     dout := if k == n then s.dout else s.buffer[n - 1])
  }

  /** One transfer of SPI_WRITE, stated on the states before and after it,
      for whatever outcome `r` the rest of SPI_WRITE leads to. */
  lemma WrittenStep(s: Sys, io: Io, k: nat, s1: Sys, io1: Io, r: Outcome)
    requires k < s.byteCount && |io.miso| > 0
    requires var last := s.returnBytes == 0 && k + 1 >= s.byteCount;
      && s1 == s.(dout := s.buffer[k], din := io.miso[0], cs := SpiController.CsAfter(s.cs, !s.cs, last))
      && io1 == io.(miso := io.miso[1..], xfers := io.xfers + [Xfer(s.buffer[k], !s.cs, last)])
    requires Written(s1, io1, k + 1, r)
    ensures Written(s, io, k, r)
  {
    var n := s.byteCount;
    var ack := s.returnBytes == 0;
    var last := ack && k + 1 >= n;
    if |io.miso| >= n - k {
      var x := Xfer(s.buffer[k], !s.cs, last);
      assert s.buffer[k..n] == [s.buffer[k]] + s.buffer[k + 1..n];
      assert s1.cs == !last;
      if k + 1 < n {
        assert s1.cs;
      }
      var rest := WriteXfers(s.buffer[k + 1..n], s1.cs, ack);
      assert WriteXfers(s.buffer[k..n], s.cs, ack) == [x] + rest;
      assert io1.miso[n - k - 1..] == io.miso[n - k..];
      assert io1.xfers == io.xfers + [x];
      AppendAssoc(io.xfers, [x], rest);
      if k + 1 < n {
        assert io1.miso[n - (k + 1) - 1] == io.miso[n - k - 1];
      }
    }
  }

  lemma WriteStep(s: Sys, io: Io, k: nat)
    requires k < s.byteCount && |io.miso| > 0
    requires var last := s.returnBytes == 0 && k + 1 >= s.byteCount;
      var t := Transfer(s, io, s.buffer[k], !s.cs, last);
      Written(t.sys, t.io, k + 1, Write(t.sys, t.io, k + 1))
    ensures Written(s, io, k, Write(s, io, k))
  {
    var last := s.returnBytes == 0 && k + 1 >= s.byteCount;
    var t := Transfer(s, io, s.buffer[k], !s.cs, last);
    assert Write(s, io, k) == Write(t.sys, t.io, k + 1);
    WrittenStep(s, io, k, t.sys, t.io, Write(t.sys, t.io, k + 1));
  }

  lemma {:induction false} WriteIsReference(s: Sys, io: Io, k: nat)
    requires k <= s.byteCount
    ensures Written(s, io, k, Write(s, io, k))
    decreases s.byteCount - k
  {
    if k < s.byteCount && |io.miso| > 0 {
      var last := s.returnBytes == 0 && k + 1 >= s.byteCount;
      var t := Transfer(s, io, s.buffer[k], !s.cs, last);
      WriteIsReference(t.sys, t.io, k + 1);
      WriteStep(s, io, k);
    }
  }

  /** SPI_STALL: one transfer of 0 that brings in the first byte read. */
  function StallStage(s: Sys, io: Io): (r: Outcome)
    ensures r.Next? <==> |io.miso| > 0
    ensures r.Next? ==> r.sys.state == SpiRead && r.sys.din == io.miso[0]
    ensures r.Next? ==> r.sys.returnBytes == s.returnBytes && r.sys.sChr == s.sChr
    ensures r.Next? ==> r.io.frames == io.frames && r.io.xfers == io.xfers + [Xfer(0, false, false)]
  {
    match Transfer(s, io, 0, false, false)
    case Stuck => Stuck
    case Next(s1, io1) => Next(s1.(state := SpiRead), io1)
  }

  /** The encoder requests of SPI_READ from count `i` of `n` on, for the
      bytes `data`: `first` on count 1, `last` from count `n` on. */
  function ReadRequests(marker: Byte, data: seq<Byte>, i: nat, n: nat): (reqs: seq<TxRequest>)
    ensures |reqs| == |data|
    decreases |data|
  {
    if |data| == 0 then []
    else [TxRequest(i == 1, i >= n, false, marker, data[0])] + ReadRequests(marker, data[1..], i + 1, n)
  }

  /** The transfers of SPI_READ from count `i` of `n` on: zeros, `last`
      from count `n - 1` on. */
  function ReadXfers(i: nat, n: nat): (xs: seq<Xfer>)
    decreases if i <= n then n - i else 0
  {
    if i >= n then [Xfer(0, false, true)]
    else [Xfer(0, false, i + 1 >= n)] + ReadXfers(i + 1, n)
  }

  /** SPI_READ from count `i` on: each count sends the byte in `din` to the
      encoder (with the stale `s_chr` as marker) and starts the next
      transfer, until count `returnBytes`. */
  function Read(s: Sys, io: Io, i: nat): (r: Outcome)
    requires 1 <= i && (i <= s.returnBytes || i == 1)
    ensures r.Next? <==> |io.miso| > Remaining(s, i)
    ensures r.Next? ==> r.sys.state == Start && r.sys.sChr == s.sChr
    decreases s.returnBytes - i
  {
    var n := s.returnBytes;
    var io1 := Send(io, TxRequest(i == 1, i >= n, false, s.sChr, s.din));
    match Transfer(s.(txData := s.din), io1, 0, false, i + 1 >= n)
    case Stuck => Stuck
    case Next(s2, io2) => if i >= n then Next(s2.(state := Start), io2) else Read(s2, io2, i + 1)
  }

  /** How many transfers of SPI_READ remain after the one at count `i`. */
  function Remaining(s: Sys, i: nat): nat
  {
    if i <= s.returnBytes then s.returnBytes - i else 0
  }

  /** The bytes SPI_READ sends to the encoder from count `i` on: the byte
      already in `din`, then the flash bytes of the following transfers. */
  function ReadBytes(s: Sys, io: Io, i: nat): seq<Byte>
    requires |io.miso| > Remaining(s, i)
  {
    [s.din] + io.miso[..Remaining(s, i)]
  }

  predicate ReadFramesOk(s: Sys, io: Io, i: nat, r: Outcome)
    requires |io.miso| > Remaining(s, i) && r.Next?
  {
    r.io.frames == io.frames + ReadRequests(s.sChr, ReadBytes(s, io, i), i, s.returnBytes)
  }

  predicate ReadXfersOk(s: Sys, io: Io, i: nat, r: Outcome)
    requires |io.miso| > Remaining(s, i) && r.Next?
  {
    && r.io.xfers == io.xfers + ReadXfers(i, s.returnBytes)
    && r.io.miso == io.miso[Remaining(s, i) + 1..]
    && r.io.wire == io.wire
  }

  predicate ReadRegsOk(s: Sys, io: Io, i: nat, r: Outcome)
    requires |io.miso| > Remaining(s, i) && r.Next?
  {
    r.sys == s.(state := Start, dout := 0, din := io.miso[Remaining(s, i)], cs := false,
                txData := ReadBytes(s, io, i)[Remaining(s, i)])
  }

  /** What SPI_READ does from count `i` of `n`: it sends `din` and the
      flash bytes of the next `n - i` transfers as one frame, issues
      `n - i + 1` transfers and leaves `cs` low. */
  predicate ReadOut(s: Sys, io: Io, i: nat, r: Outcome)
  {
    |io.miso| > Remaining(s, i) ==>
      r.Next? && ReadFramesOk(s, io, i, r) && ReadXfersOk(s, io, i, r) && ReadRegsOk(s, io, i, r)
  }

  /** The registers and outputs after one count of SPI_READ. */
  predicate ReadStepped(s: Sys, io: Io, i: nat, s2: Sys, io2: Io)
  {
    && 1 <= i < s.returnBytes && |io.miso| > 0
    && s2 == s.(txData := s.din, dout := 0, din := io.miso[0],
                cs := SpiController.CsAfter(s.cs, false, i + 1 >= s.returnBytes))
    && io2 == io.(miso := io.miso[1..],
                  xfers := io.xfers + [Xfer(0, false, i + 1 >= s.returnBytes)],
                  frames := io.frames + [TxRequest(i == 1, i >= s.returnBytes, false, s.sChr, s.din)])
  }

  lemma ReadStepData(s: Sys, io: Io, i: nat, s2: Sys, io2: Io)
    requires ReadStepped(s, io, i, s2, io2) && |io.miso| > Remaining(s, i)
    ensures |io2.miso| > Remaining(s2, i + 1) && Remaining(s2, i + 1) + 1 == Remaining(s, i)
    ensures ReadBytes(s2, io2, i + 1) == ReadBytes(s, io, i)[1..]
  {
  }

  /** The inductive step of `ReadIsReference`, for any outcome `r` that
      the rest of SPI_READ leads to. */
  lemma ReadStep(s: Sys, io: Io, i: nat, s2: Sys, io2: Io, r: Outcome)
    requires ReadStepped(s, io, i, s2, io2)
    requires ReadOut(s2, io2, i + 1, r)
    ensures ReadOut(s, io, i, r)
  {
    if |io.miso| > Remaining(s, i) {
      ReadStepData(s, io, i, s2, io2);
      var n := s.returnBytes;
      var data := ReadBytes(s, io, i);
      var req := TxRequest(i == 1, i >= n, false, s.sChr, s.din);
      assert ReadFramesOk(s, io, i, r) by {
        var reqs1 := ReadRequests(s.sChr, data[1..], i + 1, n);
        assert ReadRequests(s.sChr, data, i, n) == [req] + reqs1;
        AppendAssoc(io.frames, [req], reqs1);
      }
      assert ReadXfersOk(s, io, i, r) by {
        var x := Xfer(0, false, i + 1 >= n);
        assert ReadXfers(i, n) == [x] + ReadXfers(i + 1, n);
        AppendAssoc(io.xfers, [x], ReadXfers(i + 1, n));
      }
      assert ReadRegsOk(s, io, i, r);
    }
  }

  /** `ReadStep` for the transfer SPI_READ actually issues at count `i`. */
  lemma ReadRecurse(s: Sys, io: Io, i: nat)
    requires 1 <= i < s.returnBytes && |io.miso| > 0
    requires var io1 := Send(io, TxRequest(i == 1, false, false, s.sChr, s.din));
      var t := Transfer(s.(txData := s.din), io1, 0, false, i + 1 >= s.returnBytes);
      ReadOut(t.sys, t.io, i + 1, Read(t.sys, t.io, i + 1))
    ensures ReadOut(s, io, i, Read(s, io, i))
  {
    var io1 := Send(io, TxRequest(i == 1, false, false, s.sChr, s.din));
    var t := Transfer(s.(txData := s.din), io1, 0, false, i + 1 >= s.returnBytes);
    assert Read(s, io, i) == Read(t.sys, t.io, i + 1);
    assert ReadStepped(s, io, i, t.sys, t.io);
    ReadStep(s, io, i, t.sys, t.io, Read(t.sys, t.io, i + 1));
  }

  /** The last count of SPI_READ: one transfer, then back to START. */
  lemma ReadLast(s: Sys, io: Io, i: nat)
    requires 1 <= i && (i == s.returnBytes || (i == 1 && s.returnBytes < 1)) && |io.miso| > 0
    ensures ReadOut(s, io, i, Read(s, io, i))
  {
    var req := TxRequest(i == 1, true, false, s.sChr, s.din);
    var x := Xfer(0, false, true);
    var s2 := s.(txData := s.din, dout := 0, din := io.miso[0], cs := false);
    var io2 := io.(frames := io.frames + [req], miso := io.miso[1..], xfers := io.xfers + [x]);
    assert Read(s, io, i) == Next(s2.(state := Start), io2);
    assert Remaining(s, i) == 0;
    assert ReadBytes(s, io, i) == [s.din];
    assert ReadRequests(s.sChr, [s.din], i, s.returnBytes) == [req];
    assert ReadXfers(i, s.returnBytes) == [x];
  }

  lemma {:induction false} ReadIsReference(s: Sys, io: Io, i: nat)
    requires 1 <= i && (i <= s.returnBytes || i == 1)
    ensures ReadOut(s, io, i, Read(s, io, i))
    decreases s.returnBytes - i
  {
    var n := s.returnBytes;
    if |io.miso| > 0 {
      if i < n {
        var io1 := Send(io, TxRequest(i == 1, false, false, s.sChr, s.din));
        var t := Transfer(s.(txData := s.din), io1, 0, false, i + 1 >= n);
        ReadIsReference(t.sys, t.io, i + 1);
        ReadRecurse(s, io, i);
      } else {
        ReadLast(s, io, i);
      }
    }
  }

  /** Request `j` of SPI_READ from count `i` of `n`. */
  lemma {:induction false} ReadRequestsAt(marker: Byte, data: seq<Byte>, i: nat, n: nat, j: nat)
    requires j < |data|
    ensures ReadRequests(marker, data, i, n)[j] == TxRequest(i + j == 1, i + j >= n, false, marker, data[j])
    decreases j
  {
    if j > 0 {
      ReadRequestsAt(marker, data[1..], i + 1, n, j - 1);
    }
  }

  /** The encoder requests of a whole SPI_READ of `n` bytes are exactly the
      requests that send those bytes as one frame. */
  lemma ReadRequestsAreFrame(marker: Byte, data: seq<Byte>)
    requires |data| > 0
    ensures ReadRequests(marker, data, 1, |data|) == FrameRequests(marker, data)
  {
    var a := ReadRequests(marker, data, 1, |data|);
    var b := FrameRequests(marker, data);
    forall j | 0 <= j < |data|
      ensures a[j] == b[j]
    {
      ReadRequestsAt(marker, data, 1, |data|, j);
    }
  }

  /** ERR: `e` and a newline, then START. */
  function ErrStage(s: Sys, io: Io): Outcome
  {
    Next(s.(state := Start, sChr := LetterE, txData := 0xFF), Send(io, ErrFrame))
  }

  // ---------------------------------------------------------------------
  // The machine
  // ---------------------------------------------------------------------

  /** The order in which a command visits the states after START. */
  function Index(st: State): (k: nat)
    ensures k <= 10
  {
    match st
    case Start => 0
    case PollReady => 1
    case CountBytes => 2
    case ReturnBytes => 3
    case ReadData => 4
    case Checksum => 5
    case Run => 6
    case SpiWrite => 7
    case SpiStall => 8
    case SpiRead => 9
    case Err => 10
  }

  /** One visit of a state, up to the transition out of it. Every state
      after START either moves further along the command or returns to
      START; ERR is entered only with the decoder in ERROR. */
  function Step(s: Sys, io: Io): (r: Outcome)
    ensures r.Next? && s.state == Start ==> r.sys.state == PollReady
    ensures r.Next? && s.state != Start ==>
      r.sys.state == Start || Index(r.sys.state) > Index(s.state)
    ensures r.Next? && r.sys.state == Err ==> r.sys.rx.phase == RxError
  {
    match s.state
    case Start => StartStage(s, io)
    case PollReady => Poll(s, io, false)
    case CountBytes => Header(s, io, ToByteCount, ReturnBytes)
    case ReturnBytes => Header(s, io, ToReturnBytes, ReadData)
    case ReadData => Fill(s, io, 0)
    case Checksum => Header(s, io, Discard, Run)
    case Run => RunStage(s, io)
    case SpiWrite => Write(s, io, 0)
    case SpiStall => StallStage(s, io)
    case SpiRead => Read(s, io, 1)
    case Err => ErrStage(s, io)
  }

  /** The rest of a command: steps until the machine is back in START. */
  function Finish(s: Sys, io: Io): (r: Outcome)
    requires s.state != Start
    ensures r.Next? ==> r.sys.state == Start
    decreases 10 - Index(s.state)
  {
    match Step(s, io)
    case Stuck => Stuck
    case Next(s1, io1) => if s1.state == Start then Next(s1, io1) else Finish(s1, io1)
  }

  /** One whole command, from START back to START. */
  function Serve(s: Sys, io: Io): (r: Outcome)
    requires s.state == Start
    ensures r.Next? ==> r.sys.state == Start
  {
    match StartStage(s, io)
    case Stuck => Stuck
    case Next(s1, io1) => Finish(s1, io1)
  }
}
