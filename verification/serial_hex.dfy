/** The frame codec of serial.py, one transition per handshake event.

    `SerialIHexInput` (the decoder) waits for a `.`, then turns each pair
    of ASCII hex characters into a byte, holds it in DONE until its
    consumer strobes `start`, and keeps a running modulo-256 checksum of
    the acknowledged bytes.  `SerialIHexOutput` (the encoder) sends one
    byte as two upper-case hex digits, optionally preceded by a marker
    character and followed by `\n`. */
module SerialHex {
  import opened Bytes
  import opened HexDigits

  // ---------------------------------------------------------------------
  // Decoder
  // ---------------------------------------------------------------------

  datatype RxPhase = RxStart | RxHigh | RxLow | RxDone | RxError

  /** The decoder's registers: FSM state, the byte being assembled
      (`data`) and the running checksum. */
  datatype Rx = Rx(phase: RxPhase, data: Byte, checksum: Byte)

  const RxReset: Rx := Rx(RxStart, 0, 0)

  /** The decoder raises `rx.ready` and takes a character from the link only
      in START, HIGH and LOW; in DONE and ERROR the character waits. */
  predicate Consumes(rx: Rx)
  {
    rx.phase == RxStart || rx.phase == RxHigh || rx.phase == RxLow
  }

  /** One character taken from the link. */
  function OnChar(rx: Rx, c: Byte): (r: Rx)
    requires Consumes(rx)
    ensures r.phase == RxError <==> rx.phase != RxStart && !IsHexChar(c)
    ensures rx.phase == RxStart ==> (r.phase == RxHigh <==> c == Dot)
    ensures r.phase == RxStart ==> r == rx
    ensures r.phase != RxStart && rx.phase == RxStart ==> r.checksum == 0
    ensures rx.phase != RxStart ==> r.checksum == rx.checksum
  {
    match rx.phase
    case RxStart =>
      if c == Dot then rx.(phase := RxHigh, checksum := 0) else rx
    case RxHigh =>
      var d := A2I(c);
      rx.(phase := if d.err then RxError else RxLow, data := 16 * d.dout + Lo(rx.data))
    case RxLow =>
      var d := A2I(c);
      rx.(phase := if d.err then RxError else RxDone, data := 16 * Hi(rx.data) + d.dout)
  }

  /** The `start` strobe from the consumer: DONE adds the byte to the
      checksum and goes back to HIGH; ERROR returns to START; in the
      other states the strobe has no effect. */
  function Ack(rx: Rx): (r: Rx)
    ensures rx.phase == RxDone ==> r.phase == RxHigh && r.checksum == (rx.checksum + rx.data) % 256
    ensures rx.phase == RxError ==> r.phase == RxStart && r.checksum == rx.checksum
    ensures rx.phase != RxDone && rx.phase != RxError ==> r == rx
  {
    match rx.phase
    case RxDone => rx.(phase := RxHigh, checksum := (rx.checksum + rx.data) % 256)
    case RxError => rx.(phase := RxStart)
    case _ => rx
  }

  /** Feeds characters from `wire` while the decoder takes them: it stops in
      DONE, in ERROR, or when no character is left. */
  function Pump(rx: Rx, wire: seq<Byte>): (r: (Rx, seq<Byte>))
    ensures |r.1| <= |wire|
    ensures |r.1| > 0 ==> !Consumes(r.0)
    ensures !Consumes(rx) ==> r == (rx, wire)
    decreases |wire|
  {
    if !Consumes(rx) || |wire| == 0 then (rx, wire)
    else Pump(OnChar(rx, wire[0]), wire[1..])
  }

  /** What a consumer gets when it waits for the next byte. */
  datatype Reception =
    | Got(b: Byte, rx: Rx, rest: seq<Byte>)   // a byte, already acknowledged
    | Failed(rx: Rx, rest: seq<Byte>)         // a decode error; the decoder sits in ERROR
    | Starved                                 // the link ran dry first

  /** Waits for the decoder to reach DONE or ERROR; on DONE, reads the byte
      and strobes `start` once, as every state of the orchestrator does. */
  function Receive(rx: Rx, wire: seq<Byte>): (r: Reception)
    ensures r.Got? ==> r.rx.phase == RxHigh && |r.rest| <= |wire|
    ensures r.Failed? ==> r.rx.phase == RxError && |r.rest| <= |wire|
  {
    var p := Pump(rx, wire);
    if p.0.phase == RxDone then Got(p.0.data, Ack(p.0), p.1)
    else if p.0.phase == RxError then Failed(p.0, p.1)
    else Starved
  }

  // ----- properties of the decoder ---------------------------------------

  /** In START every character other than `.` is consumed and discarded. */
  lemma {:induction false} StartDiscards(rx: Rx, junk: seq<Byte>, wire: seq<Byte>)
    requires rx.phase == RxStart
    requires forall i :: 0 <= i < |junk| ==> junk[i] != Dot
    ensures Pump(rx, junk + wire) == Pump(rx, wire)
  {
    if |junk| > 0 {
      assert (junk + wire)[0] == junk[0];
      assert (junk + wire)[1..] == junk[1..] + wire;
      StartDiscards(rx, junk[1..], wire);
    } else {
      assert junk + wire == wire;
    }
  }

  /** A frame starts right after the first `.`: whatever came before it is
      gone, and the decoder waits in HIGH with a cleared checksum. */
  lemma ReceiveAfterDot(rx: Rx, junk: seq<Byte>, x: seq<Byte>)
    requires rx.phase == RxStart
    requires forall i :: 0 <= i < |junk| ==> junk[i] != Dot
    ensures Receive(rx, junk + [Dot] + x) == Receive(Rx(RxHigh, rx.data, 0), x)
  {
    assert junk + [Dot] + x == junk + ([Dot] + x);
    StartDiscards(rx, junk, [Dot] + x);
    PumpStep(rx, [Dot] + x);
    assert ([Dot] + x)[1..] == x;
  }

  /** A character that is not a hex digit, met in HIGH, is a decode error. */
  lemma ReceiveBadChar(rx: Rx, c: Byte, x: seq<Byte>)
    requires rx.phase == RxHigh && !IsHexChar(c)
    ensures Receive(rx, [c] + x) == Failed(rx.(phase := RxError, data := 16 * A2I(c).dout + Lo(rx.data)), x)
  {
    PumpStep(rx, [c] + x);
    assert ([c] + x)[1..] == x;
  }

  /** One step of `Pump` on a character the decoder takes. */
  lemma PumpStep(rx: Rx, w: seq<Byte>)
    requires Consumes(rx) && |w| > 0
    ensures Pump(rx, w) == Pump(OnChar(rx, w[0]), w[1..])
  {
  }

  /** A delivered byte is `16 * A2I(first) + A2I(second)`, and it is
      delivered exactly when both characters are hex digits. */
  lemma DecodePair(rx: Rx, c1: Byte, c2: Byte, rest: seq<Byte>)
    requires rx.phase == RxHigh
    ensures IsHexChar(c1) && IsHexChar(c2) ==>
      Receive(rx, [c1, c2] + rest) ==
        Got(16 * A2I(c1).dout + A2I(c2).dout,
            Rx(RxHigh, 16 * A2I(c1).dout + A2I(c2).dout, (rx.checksum + 16 * A2I(c1).dout + A2I(c2).dout) % 256),
            rest)
    ensures !IsHexChar(c1) ==> Receive(rx, [c1, c2] + rest).Failed? && Receive(rx, [c1, c2] + rest).rest == [c2] + rest
    ensures IsHexChar(c1) && !IsHexChar(c2) ==> Receive(rx, [c1, c2] + rest).Failed? && Receive(rx, [c1, c2] + rest).rest == rest
  {
    PumpPair(rx, c1, c2, rest);
    if IsHexChar(c1) && IsHexChar(c2) {
      TwoDigits(rx, c1, c2);
    }
  }

  /** Where the decoder stops on a pair of characters in HIGH. */
  lemma PumpPair(rx: Rx, c1: Byte, c2: Byte, rest: seq<Byte>)
    requires rx.phase == RxHigh
    ensures Pump(rx, [c1, c2] + rest) ==
      if IsHexChar(c1) then (OnChar(OnChar(rx, c1), c2), rest) else (OnChar(rx, c1), [c2] + rest)
  {
    var w := [c1, c2] + rest;
    var w1 := [c2] + rest;
    assert w[0] == c1 && w[1..] == w1;
    PumpStep(rx, w);
    if IsHexChar(c1) {
      PumpSecond(OnChar(rx, c1), c2, rest);
    }
  }

  /** The second digit of a pair ends the character's decoding. */
  lemma PumpSecond(rx1: Rx, c2: Byte, rest: seq<Byte>)
    requires rx1.phase == RxLow
    ensures Pump(rx1, [c2] + rest) == (OnChar(rx1, c2), rest)
  {
    var w1 := [c2] + rest;
    assert w1[0] == c2 && w1[1..] == rest;
    PumpStep(rx1, w1);
    var rx2 := OnChar(rx1, c2);
    assert rx2.phase == RxDone || rx2.phase == RxError;
  }

  /** Two hex digits in HIGH and LOW assemble a byte, high nibble first. */
  lemma TwoDigits(rx: Rx, c1: Byte, c2: Byte)
    requires rx.phase == RxHigh && IsHexChar(c1) && IsHexChar(c2)
    ensures OnChar(OnChar(rx, c1), c2) == Rx(RxDone, 16 * A2I(c1).dout + A2I(c2).dout, rx.checksum)
  {
    var d1: Nibble := A2I(c1).dout;
    var rx1 := OnChar(rx, c1);
    assert rx1 == Rx(RxLow, 16 * d1 + Lo(rx.data), rx.checksum);
    HighNibble(d1, Lo(rx.data));
  }

  lemma HighNibble(h: Nibble, l: Nibble)
    ensures Hi(16 * h + l) == h
  {
  }

  /** An error holds the decoder: no character is consumed until `start`,
      and `start` only brings it back to START, so a new `.` is needed. */
  lemma ErrorNeedsStart(rx: Rx, wire: seq<Byte>)
    requires rx.phase == RxError
    ensures Pump(rx, wire) == (rx, wire)
    ensures Ack(rx).phase == RxStart
    ensures Pump(Ack(rx), wire).0.phase == RxHigh ==> Dot in wire
  {
    if Dot !in wire {
      NoDotStaysInStart(Ack(rx), wire);
    }
  }

  lemma {:induction false} NoDotStaysInStart(rx: Rx, wire: seq<Byte>)
    requires rx.phase == RxStart
    requires Dot !in wire
    ensures Pump(rx, wire) == (rx, [])
    decreases |wire|
  {
    if |wire| > 0 {
      assert wire[0] in wire;
      assert forall x :: x in wire[1..] ==> x in wire;
      NoDotStaysInStart(rx, wire[1..]);
    }
  }

  /** One hex pair in either case decodes to its byte and adds it to the
      checksum. */
  lemma ReceiveHexPair(rx: Rx, b: Byte, upper: bool, rest: seq<Byte>)
    requires rx.phase == RxHigh
    ensures Receive(rx, HexPair(b, upper) + rest) == Got(b, Rx(RxHigh, b, (rx.checksum + b) % 256), rest)
  {
    DigitRoundTrip(Hi(b), upper);
    DigitRoundTrip(Lo(b), upper);
    NibblesJoin(b);
    DecodePair(rx, Digit(Hi(b), upper), Digit(Lo(b), upper), rest);
  }

  /** What a consumer gets when it waits for `n` bytes in a row. */
  datatype Batch = Batch(bytes: seq<Byte>, rx: Rx, rest: seq<Byte>) | BatchFailed

  /** Receives and acknowledges `n` bytes in a row. */
  function ReceiveMany(rx: Rx, wire: seq<Byte>, n: nat): (r: Batch)
    ensures r.Batch? ==> |r.bytes| == n
    decreases n
  {
    if n == 0 then Batch([], rx, wire)
    else match Receive(rx, wire)
      case Got(b, rx', rest) =>
        (match ReceiveMany(rx', rest, n - 1)
         case Batch(bs, rx'', rest') => Batch([b] + bs, rx'', rest')
         case BatchFailed => BatchFailed)
      case _ => BatchFailed
  }

  /** Without a first byte there is no batch. */
  lemma NoBatch(rx: Rx, wire: seq<Byte>, n: nat)
    requires n > 0 && !Receive(rx, wire).Got?
    ensures ReceiveMany(rx, wire, n) == BatchFailed
  {
  }

  /** One byte received, then the remaining `n - 1`. */
  lemma ReceiveManyStep(rx: Rx, wire: seq<Byte>, n: nat, b: Byte, rx': Rx, rest: seq<Byte>)
    requires n > 0 && Receive(rx, wire) == Got(b, rx', rest)
    requires ReceiveMany(rx', rest, n - 1).Batch?
    ensures var tail := ReceiveMany(rx', rest, n - 1);
      ReceiveMany(rx, wire, n) == Batch([b] + tail.bytes, tail.rx, tail.rest)
  {
  }

  /** A hex pair at the head of the wire is the first of `m` bytes. */
  lemma ReceiveManyPair(rx: Rx, b: Byte, upper: bool, wire: seq<Byte>, tail: seq<Byte>, rx': Rx, m: nat)
    requires rx.phase == RxHigh && m > 0
    requires wire == HexPair(b, upper) + tail
    requires rx' == Rx(RxHigh, b, (rx.checksum + b) % 256)
    requires ReceiveMany(rx', tail, m - 1).Batch?
    ensures var t := ReceiveMany(rx', tail, m - 1);
      ReceiveMany(rx, wire, m) == Batch([b] + t.bytes, t.rx, t.rest)
  {
    ReceiveHexPair(rx, b, upper, tail);
    ReceiveManyStep(rx, wire, m, b, rx', tail);
  }

  /** What `ReceiveMany` yields on the hex form of `bs`: the bytes back,
      the rest of the wire untouched, and the checksum accumulated from `c`. */
  predicate ReadsBack(r: Batch, bs: seq<Byte>, rest: seq<Byte>, c: Byte)
  {
    r.Batch? && r.bytes == bs && r.rest == rest && r.rx.phase == RxHigh &&
    r.rx.checksum == Accumulate(c, bs)
  }

  /** The first pair and the remaining ones: checksum bookkeeping. */
  lemma PairThenRest(rx: Rx, bs: seq<Byte>, rest: seq<Byte>, rx': Rx, t: Batch, r: Batch)
    requires |bs| > 0 && rx' == Rx(RxHigh, bs[0], (rx.checksum + bs[0]) % 256)
    requires ReadsBack(t, bs[1..], rest, rx'.checksum)
    requires r == Batch([bs[0]] + t.bytes, t.rx, t.rest)
    ensures ReadsBack(r, bs, rest, rx.checksum)
  {
    AccumulateCons(rx.checksum, bs[0], bs[1..], rx'.checksum);
    assert [bs[0]] + bs[1..] == bs;
  }

  /** The hex form of a non-empty sequence starts with its first pair. */
  lemma HexBytesCons(bs: seq<Byte>, upper: bool, rest: seq<Byte>)
    requires |bs| > 0
    ensures HexBytes(bs, upper) + rest == HexPair(bs[0], upper) + (HexBytes(bs[1..], upper) + rest)
  {
    AppendAssoc(HexPair(bs[0], upper), HexBytes(bs[1..], upper), rest);
  }

  /** The hex form of `bs` yields its first byte, then what the rest yields. */
  lemma FirstHexPair(rx: Rx, bs: seq<Byte>, upper: bool, rest: seq<Byte>, rx': Rx)
    requires rx.phase == RxHigh && |bs| > 0 && rx' == Rx(RxHigh, bs[0], (rx.checksum + bs[0]) % 256)
    requires ReceiveMany(rx', HexBytes(bs[1..], upper) + rest, |bs| - 1).Batch?
    ensures var t := ReceiveMany(rx', HexBytes(bs[1..], upper) + rest, |bs| - 1);
      ReceiveMany(rx, HexBytes(bs, upper) + rest, |bs|) == Batch([bs[0]] + t.bytes, t.rx, t.rest)
  {
    HexBytesCons(bs, upper, rest);
    ReceiveManyPair(rx, bs[0], upper, HexBytes(bs, upper) + rest, HexBytes(bs[1..], upper) + rest, rx', |bs|);
  }

  /** The inductive step of `ReceiveHexBytes`: the first hex pair, then the
      remaining pairs as the induction hypothesis gives them. */
  lemma ReceiveHexBytesStep(rx: Rx, bs: seq<Byte>, upper: bool, rest: seq<Byte>, rx': Rx)
    requires rx.phase == RxHigh && |bs| > 0 && rx' == Rx(RxHigh, bs[0], (rx.checksum + bs[0]) % 256)
    requires ReadsBack(ReceiveMany(rx', HexBytes(bs[1..], upper) + rest, |bs| - 1), bs[1..], rest, rx'.checksum)
    ensures ReadsBack(ReceiveMany(rx, HexBytes(bs, upper) + rest, |bs|), bs, rest, rx.checksum)
  {
    var tail := HexBytes(bs[1..], upper) + rest;
    var wire := HexBytes(bs, upper) + rest;
    FirstHexPair(rx, bs, upper, rest, rx');
    PairThenRest(rx, bs, rest, rx', ReceiveMany(rx', tail, |bs| - 1), ReceiveMany(rx, wire, |bs|));
  }

  /** Checksum law of the decoder: after a run of hex pairs, the bytes come
      back unchanged and the checksum register has accumulated each of them. */
  lemma {:induction false} ReceiveHexBytes(rx: Rx, bs: seq<Byte>, upper: bool, rest: seq<Byte>)
    requires rx.phase == RxHigh
    ensures ReadsBack(ReceiveMany(rx, HexBytes(bs, upper) + rest, |bs|), bs, rest, rx.checksum)
    decreases |bs|
  {
    if |bs| > 0 {
      var rx' := Rx(RxHigh, bs[0], (rx.checksum + bs[0]) % 256);
      ReceiveHexBytes(rx', bs[1..], upper, rest);
      ReceiveHexBytesStep(rx, bs, upper, rest, rx');
    } else {
      assert HexBytes(bs, upper) + rest == rest;
    }
  }

  /** A frame `.` + hex pairs, met by a decoder in START, yields its bytes
      and a checksum equal to their sum modulo 256. */
  lemma DecodeFrameBody(rx: Rx, bs: seq<Byte>, upper: bool, rest: seq<Byte>)
    requires rx.phase == RxStart && |bs| > 0
    ensures var r := ReceiveMany(rx, [Dot] + HexBytes(bs, upper) + rest, |bs|);
      && r.Batch? && r.bytes == bs && r.rest == rest
      && r.rx.phase == RxHigh && r.rx.checksum == Sum(bs) % 256
  {
    var x := HexBytes(bs, upper) + rest;
    var rx0 := Rx(RxHigh, rx.data, 0);
    AppendAssoc([Dot], HexBytes(bs, upper), rest);
    assert [Dot] + x == [] + [Dot] + x;
    ReceiveAfterDot(rx, [], x);
    ReceiveManyDependsOnReceive(rx, rx0, [Dot] + HexBytes(bs, upper) + rest, x, |bs|);
    ReceiveHexBytes(rx0, bs, upper, rest);
    ReadsBackSum(ReceiveMany(rx0, x, |bs|), bs, rest);
  }

  /** Read back from a zero checksum, the register holds the sum. */
  lemma ReadsBackSum(r: Batch, bs: seq<Byte>, rest: seq<Byte>)
    requires ReadsBack(r, bs, rest, 0)
    ensures r.Batch? && r.bytes == bs && r.rest == rest
    ensures r.rx.phase == RxHigh && r.rx.checksum == Sum(bs) % 256
  {
    AccumulateIsSum(0, bs);
  }

  lemma ReceiveManyDependsOnReceive(rx1: Rx, rx2: Rx, w1: seq<Byte>, w2: seq<Byte>, n: nat)
    requires n > 0 && Receive(rx1, w1) == Receive(rx2, w2)
    ensures ReceiveMany(rx1, w1, n) == ReceiveMany(rx2, w2, n)
  {
  }

  // ---------------------------------------------------------------------
  // Encoder
  // ---------------------------------------------------------------------

  datatype TxPhase = TxStart | TxSol | TxHigh | TxLow | TxEol

  /** The inputs the consumer drives when it strobes `start`. */
  datatype TxRequest = TxRequest(first: bool, last: bool, empty: bool, sChr: Byte, data: Byte)

  /** The encoder's registers: FSM state and the latched `last`/`empty`. */
  datatype Tx = Tx(phase: TxPhase, last: bool, empty: bool)

  /** START on `start`: latch `last` and `empty`, then SOL with `first`,
      HIGH without. */
  function TxBegin(req: TxRequest): Tx
  {
    Tx(if req.first then TxSol else TxHigh, req.last, req.empty)
  }

  /** The byte the encoder presents on `tx.payload` in a sending state. */
  function Payload(tx: Tx, req: TxRequest): Byte
    requires tx.phase != TxStart
  {
    match tx.phase
    case TxSol => req.sChr
    case TxHigh => I2A(Hi(req.data))
    case TxLow => I2A(Lo(req.data))
    case TxEol => LF
  }

  /** The state after the link accepts the presented byte. */
  function Accepted(tx: Tx): Tx
    requires tx.phase != TxStart
  {
    match tx.phase
    case TxSol => tx.(phase := if tx.empty then TxEol else TxHigh)
    case TxHigh => tx.(phase := TxLow)
    case TxLow => tx.(phase := if tx.last then TxEol else TxStart)
    case TxEol => tx.(phase := TxStart)
  }

  /** How many more bytes the encoder can send before it is back in START. */
  function TxRank(p: TxPhase): nat
  {
    match p
    case TxStart => 0
    case TxEol => 1
    case TxLow => 2
    case TxHigh => 3
    case TxSol => 4
  }

  /** Runs the encoder until it is back in START, collecting the bytes the
      link accepts. */
  function Drain(tx: Tx, req: TxRequest): seq<Byte>
    decreases TxRank(tx.phase)
  {
    if tx.phase == TxStart then []
    else [Payload(tx, req)] + Drain(Accepted(tx), req)
  }

  /** From HIGH the encoder sends the two digits, then `\n` iff `last` was latched. */
  lemma DrainFromHigh(tx: Tx, req: TxRequest)
    requires tx.phase == TxHigh
    ensures Drain(tx, req) == HexPair(req.data, true) + (if tx.last then [LF] else [])
  {
    var low := Accepted(tx);
    var after := Accepted(low);
    assert Drain(tx, req) == [I2A(Hi(req.data))] + Drain(low, req);
    assert Drain(low, req) == [I2A(Lo(req.data))] + Drain(after, req);
    if tx.last {
      assert Drain(after, req) == [LF] + Drain(Accepted(after), req);
    }
  }

  /** The bytes the encoder sends for one request: the marker with `first`,
      then either `\n` alone (`first` and `empty`) or two upper-case hex
      digits followed by `\n` exactly when `last`.  Without `first`,
      `empty` is ignored. */
  function Encode(req: TxRequest): (out: seq<Byte>)
    ensures req.first && req.empty ==> out == [req.sChr, LF]
    ensures req.first && !req.empty ==>
      out == [req.sChr] + HexPair(req.data, true) + (if req.last then [LF] else [])
    ensures !req.first ==> out == HexPair(req.data, true) + (if req.last then [LF] else [])
  {
    var tx := TxBegin(req);
    var high := Tx(TxHigh, req.last, req.empty);
    DrainFromHigh(high, req);
    assert req.first && req.empty ==> Drain(tx, req) == [req.sChr] + Drain(Tx(TxEol, req.last, req.empty), req);
    assert req.first && !req.empty ==> Drain(tx, req) == [req.sChr] + Drain(high, req);
    Drain(tx, req)
  }

  /** Concatenated output of a series of requests. */
  function Transmit(reqs: seq<TxRequest>): seq<Byte>
  {
    if |reqs| == 0 then [] else Encode(reqs[0]) + Transmit(reqs[1..])
  }

  /** One request is sent as that request's characters. */
  lemma TransmitOne(f: TxRequest)
    ensures Transmit([f]) == Encode(f)
  {
    assert [f][1..] == [];
  }

  lemma {:induction false} TransmitAppend(a: seq<TxRequest>, b: seq<TxRequest>)
    ensures Transmit(a + b) == Transmit(a) + Transmit(b)
  {
    if |a| == 0 {
      assert a + b == b;
    } else {
      assert (a + b)[0] == a[0];
      assert (a + b)[1..] == a[1..] + b;
      TransmitAppend(a[1..], b);
    }
  }

  /** The requests a consumer issues to send `bs` as one frame: `first` on
      the first byte, `last` on the final one. */
  function FrameRequests(marker: Byte, bs: seq<Byte>): (reqs: seq<TxRequest>)
    ensures |reqs| == |bs|
  {
    seq(|bs|, i requires 0 <= i < |bs| => TxRequest(i == 0, i == |bs| - 1, false, marker, bs[i]))
  }

  lemma {:induction false} TransmitTail(marker: Byte, bs: seq<Byte>, k: nat)
    requires 1 <= k < |bs|
    ensures Transmit(FrameRequests(marker, bs)[k..]) == HexBytes(bs[k..], true) + [LF]
    decreases |bs| - k
  {
    var reqs := FrameRequests(marker, bs);
    TransmitFrom(reqs, k);
    HexBytesFrom(bs, k, true);
    EncodeInFrame(marker, bs, k);
    var pair := HexPair(bs[k], true);
    if k == |bs| - 1 {
      assert reqs[k + 1..] == [] && bs[k + 1..] == [];
      LastPair(Transmit(reqs[k..]), Encode(reqs[k]), Transmit(reqs[k + 1..]),
               HexBytes(bs[k..], true), pair, HexBytes(bs[k + 1..], true));
    } else {
      TransmitTail(marker, bs, k + 1);
      InnerPair(Transmit(reqs[k..]), Encode(reqs[k]), Transmit(reqs[k + 1..]),
                HexBytes(bs[k..], true), pair, HexBytes(bs[k + 1..], true));
    }
  }

  /** The sequence algebra of `TransmitTail`'s last step. */
  lemma LastPair(all: seq<Byte>, head: seq<Byte>, tail: seq<Byte>, hex: seq<Byte>, pair: seq<Byte>, more: seq<Byte>)
    requires all == head + tail && hex == pair + more
    requires head == pair + [LF] && tail == [] && more == []
    ensures all == hex + [LF]
  {
  }

  /** The sequence algebra of `TransmitTail`'s inductive step. */
  lemma InnerPair(all: seq<Byte>, head: seq<Byte>, tail: seq<Byte>, hex: seq<Byte>, pair: seq<Byte>, more: seq<Byte>)
    requires all == head + tail && hex == pair + more
    requires head == pair + [] && tail == more + [LF]
    ensures all == hex + [LF]
  {
    AppendAssoc(pair, more, [LF]);
  }

  /** The output from request `k` on: request `k`'s, then the rest. */
  lemma TransmitFrom(reqs: seq<TxRequest>, k: nat)
    requires k < |reqs|
    ensures Transmit(reqs[k..]) == Encode(reqs[k]) + Transmit(reqs[k + 1..])
  {
    assert reqs[k..][0] == reqs[k] && reqs[k..][1..] == reqs[k + 1..];
  }

  /** A request after the first of a frame carries just its pair, and the
      frame's `\n` if it is the last. */
  lemma EncodeInFrame(marker: Byte, bs: seq<Byte>, k: nat)
    requires 1 <= k < |bs|
    ensures Encode(FrameRequests(marker, bs)[k]) == HexPair(bs[k], true) + (if k == |bs| - 1 then [LF] else [])
  {
    assert FrameRequests(marker, bs)[k] == TxRequest(false, k == |bs| - 1, false, marker, bs[k]);
  }

  /** A whole frame on the wire: the marker, upper-case hex pairs, `\n`. */
  lemma FrameOnWire(marker: Byte, bs: seq<Byte>)
    requires |bs| > 0
    ensures Transmit(FrameRequests(marker, bs)) == [marker] + HexBytes(bs, true) + [LF]
  {
    var reqs := FrameRequests(marker, bs);
    var head := TxRequest(true, |bs| == 1, false, marker, bs[0]);
    assert reqs[0] == head;
    var pair := HexPair(bs[0], true);
    var rest := HexBytes(bs[1..], true);
    assert HexBytes(bs, true) == pair + rest;
    assert Transmit(reqs) == Encode(head) + Transmit(reqs[1..]);
    if |bs| == 1 {
      assert reqs[1..] == [];
      assert rest == [];
      assert Encode(head) == [marker] + pair + [LF];
      assert Transmit(reqs[1..]) == [];
      assert Transmit(reqs) == Encode(head);
      assert HexBytes(bs, true) == pair;
    } else {
      TransmitTail(marker, bs, 1);
      assert Encode(head) == [marker] + pair;
      assert Transmit(reqs[1..]) == rest + [LF];
      assert Transmit(reqs) == [marker] + pair + (rest + [LF]);
      Regroup([marker], pair, rest, [LF]);
      assert Transmit(reqs) == [marker] + (pair + rest) + [LF];
    }
  }

  /** Encoder round trip: a frame sent with marker `.` and decoded by a
      decoder in START gives back the same bytes, with `\n` left over. */
  lemma EncoderRoundTrip(bs: seq<Byte>, rx: Rx)
    requires |bs| > 0 && rx.phase == RxStart
    ensures var r := ReceiveMany(rx, Transmit(FrameRequests(Dot, bs)), |bs|);
      r.Batch? && r.bytes == bs && r.rest == [LF]
  {
    FrameOnWire(Dot, bs);
    DecodeFrameBody(rx, bs, true, [LF]);
  }
}
