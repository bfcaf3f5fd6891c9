/** Byte-level vocabulary shared by every part of the bootloader model:
    8-bit and 4-bit quantities, the ASCII characters the protocol uses,
    and the modulo-256 sum that all checksums are built on. */
module Bytes {

  /** An 8-bit value, as carried by the serial link and the SPI bus. */
  type Byte = b: int | 0 <= b < 256

  /** A 4-bit value: one hex digit. */
  type Nibble = n: int | 0 <= n < 16

  datatype Option<+T> = None | Some(value: T)

  const LF: Byte := 0x0A   // '\n'
  const CR: Byte := 0x0D   // '\r'
  const Dot: Byte := 0x2E  // '.', the frame start marker
  const LetterC: Byte := 0x63  // 'c', marker of the checksum-diagnostic frame
  const LetterE: Byte := 0x65  // 'e', marker of the error frame

  /** The high and low nibble of a byte (`data[4:]` and `data[:4]`). */
  function Hi(b: Byte): Nibble { b / 16 }
  function Lo(b: Byte): Nibble { b % 16 }

  lemma NibblesJoin(b: Byte)
    ensures 16 * Hi(b) + Lo(b) == b
  {
  }

  /** Plain (unbounded) sum of a byte sequence. */
  function Sum(bs: seq<Byte>): nat
  {
    if |bs| == 0 then 0 else bs[0] + Sum(bs[1..])
  }

  lemma {:induction false} SumAppend(a: seq<Byte>, b: seq<Byte>)
    ensures Sum(a + b) == Sum(a) + Sum(b)
  {
    if |a| == 0 {
      assert a + b == b;
    } else {
      assert (a + b)[1..] == a[1..] + b;
      SumAppend(a[1..], b);
    }
  }

  /** Reducing early does not change a sum modulo 256. */
  lemma ModAddLeft(x: int, y: int)
    ensures (x % 256 + y) % 256 == (x + y) % 256
  {
    var q := x / 256;
    assert x == 256 * q + x % 256;
    assert x + y == (x % 256 + y) + 256 * q;
  }

  /** An 8-bit accumulator that adds each byte in turn, wrapping at 256:
      the checksum register of the frame decoder. */
  function Accumulate(c: Byte, bs: seq<Byte>): Byte
    decreases |bs|
  {
    if |bs| == 0 then c else Accumulate((c + bs[0]) % 256, bs[1..])
  }

  /** Adding one byte in front, with the register already advanced. */
  lemma AccumulateCons(c: Byte, b: Byte, bs: seq<Byte>, c': Byte)
    requires c' == (c + b) % 256
    ensures Accumulate(c, [b] + bs) == Accumulate(c', bs)
  {
    assert ([b] + bs)[0] == b && ([b] + bs)[1..] == bs;
  }

  /** The accumulator holds the plain sum modulo 256. */
  lemma {:induction false} AccumulateIsSum(c: Byte, bs: seq<Byte>)
    ensures Accumulate(c, bs) == (c + Sum(bs)) % 256
    decreases |bs|
  {
    if |bs| > 0 {
      AccumulateIsSum((c + bs[0]) % 256, bs[1..]);
      var t := Sum(bs[1..]);
      assert Sum(bs) == bs[0] + t;
      ModAddLeft(c + bs[0], t);
    }
  }

  lemma AppendAssoc<T>(a: seq<T>, b: seq<T>, c: seq<T>)
    ensures a + b + c == a + (b + c)
  {
  }

  /** Regrouping a four-part concatenation. */
  lemma Regroup<T>(a: seq<T>, b: seq<T>, c: seq<T>, d: seq<T>)
    ensures a + b + (c + d) == a + (b + c) + d
  {
  }

  /** Regrouping a prefix in front of a four-part concatenation. */
  lemma PrependAssoc<T>(x: seq<T>, a: seq<T>, b: seq<T>, c: seq<T>, d: seq<T>)
    ensures x + (a + b + c + d) == x + a + b + c + d
  {
  }

  /** Regrouping a five-part middle between a prefix and a suffix so that
      the prefix's first part and the rest can be read off one at a time. */
  lemma Spread<T>(j: seq<T>, a: seq<T>, b: seq<T>, c: seq<T>, d: seq<T>, e: seq<T>, t: seq<T>)
    ensures j + (a + b + c + d + e) + t == j + a + (b + (c + (d + (e + t))))
  {
    AppendAssoc(a + b + c + d, e, t);
    AppendAssoc(a + b + c, d, e + t);
    AppendAssoc(a + b, c, d + (e + t));
    AppendAssoc(a, b, c + (d + (e + t)));
    AppendAssoc(j, a + b + c + d + e, t);
    AppendAssoc(j, a, b + (c + (d + (e + t))));
  }

  /** Python-style `startswith`: `p` is a prefix of `s`. */
  predicate IsPrefix<T(==)>(p: seq<T>, s: seq<T>)
  {
    |p| <= |s| && s[..|p|] == p
  }
}
