/** The ASCII-hex nibble codec of util.py: `A2I`, a switch that turns an
    ASCII hex character into a nibble plus an error flag, and `I2A`, the
    table that turns a nibble back into an upper-case ASCII digit. */
module HexDigits {
  import opened Bytes

  /** The outputs of `A2I`: `dout` and `err`. */
  datatype Decoded = Decoded(dout: Nibble, err: bool)

  /** The string the source builds both `A2I`'s cases and `I2A` from. */
  const Alphabet: string := "0123456789ABCDEF"

  /** `I2A[n]`: the upper-case ASCII hex digit of `n`. */
  function I2A(n: Nibble): (c: Byte)
    ensures '0' as int <= c <= '9' as int || 'A' as int <= c <= 'F' as int
  {
    if n < 10 then '0' as int + n else 'A' as int + (n - 10)
  }

  /** `I2A` is the table the source builds from its alphabet string. */
  lemma I2AIsTable(n: Nibble)
    ensures I2A(n) == Alphabet[n] as int
  {
  }

  /** The lower-case ASCII hex digit of `n` (`ord(i.lower())` in `A2I`,
      and what Python's `x` format and `bytes.hex()` print). */
  function LowerDigit(n: Nibble): (c: Byte)
    ensures n < 10 ==> c == '0' as int + n
    ensures 10 <= n ==> c == 'a' as int + (n - 10)
  {
    if n < 10 then I2A(n) else I2A(n) + 32
  }

  /** A hex digit in the chosen case. */
  function Digit(n: Nibble, upper: bool): Byte
  {
    if upper then I2A(n) else LowerDigit(n)
  }

  /** Two hex digits for one byte, high nibble first. */
  function HexPair(b: Byte, upper: bool): seq<Byte>
  {
    [Digit(Hi(b), upper), Digit(Lo(b), upper)]
  }

  /** Two hex digits per byte, in order. */
  function HexBytes(bs: seq<Byte>, upper: bool): (w: seq<Byte>)
    ensures |w| == 2 * |bs|
  {
    if |bs| == 0 then [] else HexPair(bs[0], upper) + HexBytes(bs[1..], upper)
  }

  /** The hex text from byte `k` on: byte `k`'s pair, then the rest. */
  lemma HexBytesFrom(bs: seq<Byte>, k: nat, upper: bool)
    requires k < |bs|
    ensures HexBytes(bs[k..], upper) == HexPair(bs[k], upper) + HexBytes(bs[k + 1..], upper)
  {
    assert bs[k..][0] == bs[k] && bs[k..][1..] == bs[k + 1..];
  }

  lemma {:induction false} HexBytesAppend(a: seq<Byte>, b: seq<Byte>, upper: bool)
    ensures HexBytes(a + b, upper) == HexBytes(a, upper) + HexBytes(b, upper)
  {
    if |a| == 0 {
      assert a + b == b;
    } else {
      assert (a + b)[1..] == a[1..] + b;
      HexBytesAppend(a[1..], b, upper);
    }
  }

  /** The characters `A2I` accepts, by range: decimal digits and both
      cases of `A`..`F`. */
  function HexValue(c: Byte): Option<Nibble>
  {
    if '0' as int <= c <= '9' as int then Some(c - '0' as int)
    else if 'A' as int <= c <= 'F' as int then Some(c - 'A' as int + 10)
    else if 'a' as int <= c <= 'f' as int then Some(c - 'a' as int + 10)
    else None
  }

  predicate IsHexChar(c: Byte)
  {
    HexValue(c).Some?
  }

  /** `A2I`: an accepted character decodes without error to the nibble whose
      digit it is, in either case; every other byte gives 0 with `err`
      raised. */
  function A2I(c: Byte): (r: Decoded)
    ensures !r.err ==> c == I2A(r.dout) || c == LowerDigit(r.dout)
    ensures r.err <==> forall n: Nibble :: c != I2A(n) && c != LowerDigit(n)
    ensures r.err ==> r.dout == 0
  {
    match HexValue(c)
    case Some(v) => Decoded(v, false)
    case None => Decoded(0, true)
  }

  /** One `m.Case` of the source's switch: digit `i` itself and, for the
      letters, its lower-case form. */
  predicate Matches(c: Byte, i: Nibble)
  {
    c == I2A(i) || (i >= 10 && c == LowerDigit(i))
  }

  /** The switch, tried case by case from digit `i` on; no case matching
      is the `Default` branch. */
  function Search(c: Byte, i: nat): Decoded
    requires i <= 16
    decreases 16 - i
  {
    if i == 16 then Decoded(0, true)
    else if Matches(c, i) then Decoded(i, false)
    else Search(c, i + 1)
  }

  lemma {:induction false} SearchFinds(c: Byte, i: nat)
    requires i <= 16
    ensures Search(c, i) ==
      (if HexValue(c).Some? && i <= HexValue(c).value then Decoded(HexValue(c).value, false)
       else Decoded(0, true))
    decreases 16 - i
  {
    if i < 16 {
      SearchFinds(c, i + 1);
    }
  }

  /** `A2I` is exactly the source's switch over `"0123456789ABCDEF"`. */
  lemma A2IIsSwitch(c: Byte)
    ensures A2I(c) == Search(c, 0)
  {
    SearchFinds(c, 0);
  }

  /** `A2I` on each class of input: the three ranges of digits and the
      error case. */
  lemma A2IRanges(c: Byte)
    ensures '0' as int <= c <= '9' as int ==> A2I(c) == Decoded(c - '0' as int, false)
    ensures 'A' as int <= c <= 'F' as int ==> A2I(c) == Decoded(c - 'A' as int + 10, false)
    ensures 'a' as int <= c <= 'f' as int ==> A2I(c) == Decoded(c - 'a' as int + 10, false)
    ensures A2I(c).err <==> !IsHexChar(c)
  {
  }

  /** Decoding an `I2A` digit, or its lower-case form, gives the nibble back. */
  lemma DigitRoundTrip(n: Nibble, upper: bool)
    ensures A2I(Digit(n, upper)) == Decoded(n, false)
  {
  }

  /** `A2I` ignores case: a lower-case letter decodes like its upper-case form. */
  lemma CaseInsensitive(n: Nibble)
    requires 10 <= n
    ensures A2I(LowerDigit(n)) == A2I(I2A(n))
  {
  }

  /** The other direction: an accepted character is the `I2A` digit of its
      value, up to case. */
  lemma AcceptedIsDigit(c: Byte)
    requires !A2I(c).err
    ensures c == I2A(A2I(c).dout) || c == LowerDigit(A2I(c).dout)
  {
  }

  /** Every digit the encoders print is accepted by `A2I`. */
  lemma DigitIsHex(n: Nibble, upper: bool)
    ensures IsHexChar(Digit(n, upper))
    ensures Digit(n, upper) != Dot && Digit(n, upper) != LF && Digit(n, upper) != CR
  {
  }

  /** Every character of a hex string is a hex digit, so never a marker,
      a blank or a line end. */
  lemma {:induction false} HexBytesAreHex(bs: seq<Byte>, upper: bool)
    ensures forall i :: 0 <= i < |HexBytes(bs, upper)| ==>
      IsHexChar(HexBytes(bs, upper)[i]) && HexBytes(bs, upper)[i] != LF
    decreases |bs|
  {
    if |bs| > 0 {
      var w := HexBytes(bs, upper);
      HexBytesAreHex(bs[1..], upper);
      DigitIsHex(Hi(bs[0]), upper);
      DigitIsHex(Lo(bs[0]), upper);
      forall i | 2 <= i < |w|
        ensures w[i] == HexBytes(bs[1..], upper)[i - 2]
      {
      }
    }
  }

  /** Hex digit pairs are injective: different bytes print differently. */
  lemma {:induction false} HexBytesInjective(a: seq<Byte>, b: seq<Byte>, upper: bool)
    requires HexBytes(a, upper) == HexBytes(b, upper)
    ensures a == b
  {
    if |a| > 0 {
      var wa := HexBytes(a, upper);
      var wb := HexBytes(b, upper);
      assert wa[0] == wb[0] && wa[1] == wb[1];
      DigitRoundTrip(Hi(a[0]), upper);
      DigitRoundTrip(Lo(a[0]), upper);
      DigitRoundTrip(Hi(b[0]), upper);
      DigitRoundTrip(Lo(b[0]), upper);
      NibblesJoin(a[0]);
      NibblesJoin(b[0]);
      assert wa[2..] == HexBytes(a[1..], upper);
      assert wb[2..] == HexBytes(b[1..], upper);
      HexBytesInjective(a[1..], b[1..], upper);
      assert a == [a[0]] + a[1..];
      assert b == [b[0]] + b[1..];
    }
  }
}
