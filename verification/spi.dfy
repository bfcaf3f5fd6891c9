/** The SPI controller of spi.py (`SpiController`), clock cycle by clock
    cycle: a START/RUN/DONE state machine that shifts one byte out on
    `copi` and one byte in from `cipo`, most significant bit first, while
    driving the serial clock and bracketing bursts of transfers with
    chip-select. Registers are bit lists, index 0 being bit 7. */
module SpiController {
  import opened Bytes

  /** 2 to the power `n`. */
  function Pow2(n: nat): (p: nat)
    ensures p >= 1
  {
    if n == 0 then 1 else 2 * Pow2(n - 1)
  }

  /** The `n`-bit binary form of `v`, most significant bit first. */
  function ToBits(v: nat, n: nat): (bits: seq<bool>)
    ensures |bits| == n
  {
    if n == 0 then [] else ToBits(v / 2, n - 1) + [v % 2 == 1]
  }

  /** The value of a bit list, most significant bit first: each new bit
      enters at the bottom and pushes the earlier ones up, as
      `Cat(cipo, din_latch)` does. */
  function FromBits(bits: seq<bool>): (v: nat)
    ensures v < Pow2(|bits|)
  {
    if |bits| == 0 then 0
    else 2 * FromBits(bits[..|bits| - 1]) + (if bits[|bits| - 1] then 1 else 0)
  }

  lemma {:induction false} FromToBits(v: nat, n: nat)
    requires v < Pow2(n)
    ensures FromBits(ToBits(v, n)) == v
  {
    if n > 0 {
      var h := v / 2;
      var init := ToBits(h, n - 1);
      var bits := init + [v % 2 == 1];
      assert bits == ToBits(v, n);
      assert bits[..n - 1] == init;
      assert h < Pow2(n - 1);
      FromToBits(h, n - 1);
      assert FromBits(bits) == 2 * FromBits(init) + v % 2;
    }
  }

  lemma {:induction false} ToFromBits(bits: seq<bool>)
    ensures ToBits(FromBits(bits), |bits|) == bits
  {
    if |bits| > 0 {
      var n := |bits|;
      var init := bits[..n - 1];
      var b := if bits[n - 1] then 1 else 0;
      var v := FromBits(bits);
      assert v == 2 * FromBits(init) + b;
      assert v / 2 == FromBits(init) && (v % 2 == 1) == bits[n - 1];
      ToFromBits(init);
      assert ToBits(v, n) == ToBits(v / 2, n - 1) + [v % 2 == 1];
      assert bits == init + [bits[n - 1]];
    }
  }

  lemma Pow2Eight()
    ensures Pow2(8) == 256
  {
    assert Pow2(4) == 16;
  }

  /** A byte as the eight bits the bus carries, bit 7 first. */
  function ByteBits(b: Byte): (bits: seq<bool>)
    ensures |bits| == 8
  {
    ToBits(b, 8)
  }

  /** Eight bits read back as a byte. */
  function BitsByte(bits: seq<bool>): (b: Byte)
    requires |bits| == 8
    ensures ByteBits(b) == bits
  {
    Pow2Eight();
    ToFromBits(bits);
    FromBits(bits)
  }

  lemma ByteBitsRoundTrip(b: Byte)
    ensures BitsByte(ByteBits(b)) == b
  {
    Pow2Eight();
    FromToBits(b, 8);
  }

  /** An 8-bit shift register. */
  type Reg = r: seq<bool> | |r| == 8 witness [false, false, false, false, false, false, false, false]

  /** The 3-bit `bit_ctr`. */
  type BitCount = c: int | 0 <= c < 8

  datatype Phase = Start | Run | Done

  /** The controller's registers and the outputs it drives: `clk`, `cs`
      and `din`. `copi` is the top bit of `doutLatch`. */
  datatype Ctl = Ctl(phase: Phase, clk: bool, bitCtr: BitCount, dinLatch: Reg,
                     doutLatch: Reg, lastLatch: bool, cs: bool, din: Byte)

  /** The inputs of one clock cycle: the consumer's strobe and operands,
      and the level on `cipo`. */
  datatype Inputs = Inputs(start: bool, first: bool, last: bool, dout: Byte, cipo: bool)

  const Zeros: Reg := [false, false, false, false, false, false, false, false]

  /** The state after reset. */
  const Reset: Ctl := Ctl(Start, false, 0, Zeros, Zeros, false, false, 0)

  /** `ready`. */
  predicate Ready(s: Ctl)
  {
    s.phase == Start
  }

  /** `bus.copi`. */
  function Copi(s: Ctl): bool
  {
    s.doutLatch[0]
  }

  /** Ready with the serial clock low and the bit counter wrapped: where
      every transfer starts and ends. */
  predicate Idle(s: Ctl)
  {
    s.phase == Start && !s.clk && s.bitCtr == 0
  }

  /** One clock cycle. */
  function Tick(s: Ctl, i: Inputs): (r: Ctl)
    ensures Ready(s) && !i.start ==> r == s
    ensures Ready(s) && i.start ==> r.phase == Run && r.doutLatch == ByteBits(i.dout) && r.lastLatch == i.last
    ensures r.cs != s.cs ==> (Ready(s) && i.start && i.first && r.cs) || (s.phase == Done && s.lastLatch && !r.cs)
    ensures r.din != s.din ==> s.phase == Done && r.din == BitsByte(s.dinLatch)
    ensures s.phase == Run && !s.clk ==> r.dinLatch == s.dinLatch[1..] + [i.cipo]
    ensures s.phase == Run && s.clk ==> r.doutLatch == s.doutLatch[1..] + [false]
  {
    match s.phase
    case Start =>
      if i.start then
        s.(phase := Run, doutLatch := ByteBits(i.dout), lastLatch := i.last,
           cs := if i.first then true else s.cs)
      else s
    case Run =>
      if s.clk then
        // falling edge
        s.(clk := false, doutLatch := s.doutLatch[1..] + [false])
      else
        // rising edge
        s.(clk := true, bitCtr := (s.bitCtr + 1) % 8, dinLatch := s.dinLatch[1..] + [i.cipo],
           phase := if s.bitCtr == 7 then Done else Run)
    case Done =>
      s.(din := BitsByte(s.dinLatch), clk := false, phase := Start,
         cs := if s.lastLatch then false else s.cs)
  }

  /** chip-select after one transfer, given chip-select before it. */
  function CsAfter(cs: bool, first: bool, last: bool): bool
  {
    !last && (cs || first)
  }

  /** The levels `bits` followed by `n` zeros. */
  function Padded(bits: seq<bool>, n: nat): (r: seq<bool>)
    ensures |r| == |bits| + n
  {
    bits + seq(n, _ => false)
  }

  /** Where a transfer stands after its first `cycles` clock cycles, having
      sampled `n` bits of `response`: what each register holds in each
      phase. `s` is the idle state the transfer started from. */
  predicate InFlight(s: Ctl, first: bool, last: bool, dout: Byte, response: seq<bool>,
                     r: Ctl, n: nat, cycles: nat)
    requires |response| == 8
  {
    var bits := ByteBits(dout);
    n <= 8 && r.lastLatch == last &&
    r.dinLatch == s.dinLatch[n..] + response[..n] &&
    (r.phase != Start ==> r.cs == (s.cs || first)) &&
    (r.phase == Run && !r.clk ==>
      n < 8 && r.bitCtr == n && cycles == 2 * n + 1 && r.doutLatch == Padded(bits[n..], n)) &&
    (r.phase == Run && r.clk ==>
      1 <= n < 8 && r.bitCtr == n && cycles == 2 * n && r.doutLatch == Padded(bits[n - 1..], n - 1)) &&
    (r.phase == Done ==> n == 8 && r.bitCtr == 0 && r.clk && cycles == 16) &&
    (r.phase == Start ==>
      n == 8 && r.bitCtr == 0 && !r.clk && cycles == 17 && r.din == BitsByte(response) &&
      r.cs == CsAfter(s.cs, first, last))
  }

  /** A rising edge samples the next response bit and shows the next bit
      of `dout` on `copi`; the eighth one moves to DONE. */
  lemma RisingEdge(s: Ctl, first: bool, last: bool, dout: Byte, response: seq<bool>, r: Ctl, n: nat, cycles: nat)
    requires |response| == 8 && InFlight(s, first, last, dout, response, r, n, cycles)
    requires r.phase == Run && !r.clk
    ensures Copi(r) == ByteBits(dout)[n]
    ensures InFlight(s, first, last, dout, response,
                     Tick(r, Inputs(false, first, last, dout, response[n])), n + 1, cycles + 1)
  {
    var bits := ByteBits(dout);
    var r' := Tick(r, Inputs(false, first, last, dout, response[n]));
    assert r.doutLatch[0] == bits[n];
    assert r'.dinLatch == s.dinLatch[n + 1..] + response[..n + 1] by {
      assert r.dinLatch[1..] == s.dinLatch[n + 1..] + response[..n];
      assert response[..n + 1] == response[..n] + [response[n]];
    }
  }

  /** A falling edge shifts the next bit of `dout` up to `copi`. */
  lemma FallingEdge(s: Ctl, first: bool, last: bool, dout: Byte, response: seq<bool>, r: Ctl, n: nat, cycles: nat)
    requires |response| == 8 && InFlight(s, first, last, dout, response, r, n, cycles)
    requires r.phase == Run && r.clk
    ensures InFlight(s, first, last, dout, response,
                     Tick(r, Inputs(false, first, last, dout, false)), n, cycles + 1)
  {
    var bits := ByteBits(dout);
    var r' := Tick(r, Inputs(false, first, last, dout, false));
    assert r'.doutLatch == Padded(bits[n..], n) by {
      assert bits[n - 1..][1..] == bits[n..];
      assert seq(n - 1, _ => false) + [false] == seq(n, _ => false);
    }
  }

  /** DONE hands the sampled byte to `din` and applies `last` to
      chip-select. */
  lemma DoneEdge(s: Ctl, first: bool, last: bool, dout: Byte, response: seq<bool>, r: Ctl, n: nat, cycles: nat)
    requires |response| == 8 && InFlight(s, first, last, dout, response, r, n, cycles)
    requires r.phase == Done
    ensures InFlight(s, first, last, dout, response,
                     Tick(r, Inputs(false, first, last, dout, false)), n, cycles + 1)
  {
    assert r.dinLatch == response;
  }

  /** One clock cycle of a transfer in flight, with the response bit it
      samples and the `copi` level it shows at a rising edge. */
  method Clock(s: Ctl, first: bool, last: bool, dout: Byte, response: seq<bool>,
               r: Ctl, copi: seq<bool>, cycles: nat)
    returns (r': Ctl, copi': seq<bool>)
    requires |response| == 8 && r.phase != Start
    requires InFlight(s, first, last, dout, response, r, |copi|, cycles)
    requires copi == ByteBits(dout)[..|copi|]
    ensures InFlight(s, first, last, dout, response, r', |copi'|, cycles + 1)
    ensures copi' == ByteBits(dout)[..|copi'|]
    ensures r'.phase != Start ==> r'.cs == r.cs
  {
    var n := |copi|;
    if r.phase == Run && !r.clk {
      RisingEdge(s, first, last, dout, response, r, n, cycles);
      copi' := copi + [Copi(r)];
      r' := Tick(r, Inputs(false, first, last, dout, response[n]));
    } else if r.phase == Run {
      FallingEdge(s, first, last, dout, response, r, n, cycles);
      copi' := copi;
      r' := Tick(r, Inputs(false, first, last, dout, false));
    } else {
      DoneEdge(s, first, last, dout, response, r, n, cycles);
      copi' := copi;
      r' := Tick(r, Inputs(false, first, last, dout, false));
    }
  }

  /** Before the controller is ready again a transfer has taken fewer
      than 17 cycles and holds chip-select where `start` put it. */
  lemma StillRunning(s: Ctl, first: bool, last: bool, dout: Byte, response: seq<bool>, r: Ctl, n: nat, cycles: nat)
    requires |response| == 8 && InFlight(s, first, last, dout, response, r, n, cycles)
    requires r.phase != Start
    ensures cycles < 17 && r.cs == (s.cs || first)
  {
  }

  /** The chip-select trace of a transfer after one more cycle. */
  lemma CsTraceStep(trace: seq<bool>, level: bool, next: bool)
    requires |trace| > 0 && trace[|trace| - 1] == level
    requires forall k :: 0 <= k < |trace| - 1 ==> trace[k] == level
    ensures forall k :: 0 <= k < |trace + [next]| - 1 ==> (trace + [next])[k] == level
    ensures (trace + [next])[|trace + [next]| - 1] == next
  {
  }

  /** One byte transfer: the consumer strobes `start` with `dout`, `first`
      and `last` while the controller is idle, and the flash drives `cipo`
      with `response[k]` at the k-th rising edge of the serial clock.
      Returns the state once the controller is ready again, the level of
      `copi` at each rising edge, the level of chip-select after each
      cycle, and the number of cycles taken. */
  method Transfer(s: Ctl, dout: Byte, first: bool, last: bool, response: seq<bool>)
    returns (r: Ctl, copi: seq<bool>, csTrace: seq<bool>, cycles: nat)
    requires Idle(s) && |response| == 8
    ensures Idle(r)
    ensures r.din == BitsByte(response)
    ensures copi == ByteBits(dout)
    ensures cycles == 17 && |csTrace| == cycles
    ensures forall k :: 0 <= k < cycles - 1 ==> csTrace[k] == (s.cs || first)
    ensures csTrace[cycles - 1] == r.cs == CsAfter(s.cs, first, last)
    ensures r.lastLatch == last
  {
    var bits := ByteBits(dout);
    r := Tick(s, Inputs(true, first, last, dout, false));
    copi := [];
    csTrace := [r.cs];
    cycles := 1;
    assert r.doutLatch == Padded(bits[0..], 0);
    while r.phase != Start
      invariant Transferring(s, first, last, dout, response, r, copi, csTrace, cycles)
      decreases 17 - cycles
    {
      r, copi, csTrace, cycles := Cycle(s, first, last, dout, response, r, copi, csTrace, cycles);
    }
  }

  /** What `Transfer` knows after `cycles` clock cycles: the registers as
      `InFlight` describes them, the `copi` levels seen so far, and a
      chip-select trace that has stayed where `start` put it. */
  predicate Transferring(s: Ctl, first: bool, last: bool, dout: Byte, response: seq<bool>,
                         r: Ctl, copi: seq<bool>, csTrace: seq<bool>, cycles: nat)
    requires |response| == 8
  {
    && InFlight(s, first, last, dout, response, r, |copi|, cycles)
    && copi == ByteBits(dout)[..|copi|]
    && 1 <= cycles <= 17 && |csTrace| == cycles && csTrace[cycles - 1] == r.cs
    && forall k :: 0 <= k < cycles - 1 ==> csTrace[k] == (s.cs || first)
  }

  /** One clock cycle of `Transfer`, with its chip-select level recorded. */
  method Cycle(s: Ctl, first: bool, last: bool, dout: Byte, response: seq<bool>,
               r: Ctl, copi: seq<bool>, csTrace: seq<bool>, cycles: nat)
    returns (r': Ctl, copi': seq<bool>, csTrace': seq<bool>, cycles': nat)
    requires |response| == 8 && r.phase != Start
    requires Transferring(s, first, last, dout, response, r, copi, csTrace, cycles)
    ensures Transferring(s, first, last, dout, response, r', copi', csTrace', cycles')
    ensures cycles' == cycles + 1
  {
    r', copi' := Clock(s, first, last, dout, response, r, copi, cycles);
    TransferringStep(s, first, last, dout, response, r, copi, csTrace, cycles, r', copi');
    csTrace' := csTrace + [r'.cs];
    cycles' := cycles + 1;
  }

  /** `Transferring` carries over a clock cycle that keeps `InFlight`. */
  lemma TransferringStep(s: Ctl, first: bool, last: bool, dout: Byte, response: seq<bool>,
                         r: Ctl, copi: seq<bool>, csTrace: seq<bool>, cycles: nat, r': Ctl, copi': seq<bool>)
    requires |response| == 8 && r.phase != Start
    requires Transferring(s, first, last, dout, response, r, copi, csTrace, cycles)
    requires InFlight(s, first, last, dout, response, r', |copi'|, cycles + 1)
    requires copi' == ByteBits(dout)[..|copi'|]
    requires r'.phase != Start ==> r'.cs == r.cs
    ensures Transferring(s, first, last, dout, response, r', copi', csTrace + [r'.cs], cycles + 1)
  {
    StillRunning(s, first, last, dout, response, r, |copi|, cycles);
    CsTraceStep(csTrace, s.cs || first, r'.cs);
  }

  /** The bits of a byte sequence as they leave on `copi`: each byte most
      significant bit first, in order. */
  function Serialize(bs: seq<Byte>): (bits: seq<bool>)
    ensures |bits| == 8 * |bs|
  {
    if |bs| == 0 then [] else Serialize(bs[..|bs| - 1]) + ByteBits(bs[|bs| - 1])
  }

  /** Chip-select over a burst after one more transfer: high throughout
      the transfers so far and this one, except after the final cycle of
      the final transfer. */
  lemma TraceStep(before: seq<bool>, trace: seq<bool>, i: nat, n: nat)
    requires i < n && |before| == 17 * i && |trace| == 17
    requires forall k :: 0 <= k < |before| ==> before[k]
    requires forall k :: 0 <= k < 16 ==> trace[k]
    requires trace[16] == (i < n - 1)
    ensures forall k :: 0 <= k < |before + trace| ==>
      (before + trace)[k] || (i + 1 == n && k == |before + trace| - 1)
  {
    forall k | 0 <= k < |before + trace|
      ensures (before + trace)[k] || (i + 1 == n && k == |before + trace| - 1)
    {
      if k >= |before| {
        assert (before + trace)[k] == trace[k - |before|];
      }
    }
  }

  /** A burst of transfers with `first` on the first and `last` on the
      final one, as the consumer issues them back to back: chip-select
      rises with the first cycle, stays high throughout, and drops exactly
      once, at the very end. Each transfer hands over the byte the flash
      shifted in, and `copi` carries `douts` in order. */
  method Burst(s: Ctl, douts: seq<Byte>, responses: seq<Byte>)
    returns (r: Ctl, dins: seq<Byte>, copi: seq<bool>, csTrace: seq<bool>)
    requires Idle(s) && |douts| == |responses| > 0
    ensures Idle(r) && !r.cs
    ensures dins == responses
    ensures copi == Serialize(douts)
    ensures |csTrace| == 17 * |douts|
    ensures forall k :: 0 <= k < |csTrace| - 1 ==> csTrace[k]
    ensures !csTrace[|csTrace| - 1]
  {
    var n := |douts|;
    r := s;
    dins := [];
    copi := [];
    csTrace := [];
    var i := 0;
    while i < n
      invariant 0 <= i <= n && Idle(r)
      invariant dins == responses[..i]
      invariant copi == Serialize(douts[..i])
      invariant |csTrace| == 17 * i
      invariant forall k :: 0 <= k < |csTrace| ==> csTrace[k] || (i == n && k == |csTrace| - 1)
      invariant i > 0 ==> r.cs == (i < n) && csTrace[|csTrace| - 1] == r.cs
    {
      ghost var before := csTrace;
      ByteBitsRoundTrip(responses[i]);
      var bits, trace, cycles;
      r, bits, trace, cycles := Transfer(r, douts[i], i == 0, i == n - 1, ByteBits(responses[i]));
      dins := dins + [r.din];
      assert douts[..i + 1][..i] == douts[..i];
      copi := copi + bits;
      TraceStep(before, trace, i, n);
      csTrace := csTrace + trace;
      i := i + 1;
    }
    assert douts[..n] == douts;
    assert responses[..n] == responses;
  }
}
