/** The host-side programmer of programmer.py: the 8-bit checksum helpers,
    the text framing of one command, the chunking of an image, the
    sequence of commands `flash` sends for an image at a base address,
    and the comparison it makes on each page read back. The serial port
    and the image file are not modelled: `flash` becomes a function from
    image bytes and base address to the list of requests it writes. */
module Programmer {
  import opened Bytes
  import opened HexDigits

  // ---------------------------------------------------------------------
  // Checksum helpers
  // ---------------------------------------------------------------------

  /** `byte_add`: the sum masked to 8 bits. */
  function ByteAdd(a: int, b: int): (r: Byte)
    ensures (a + b - r) % 256 == 0
  {
    (a + b) % 256
  }

  /** `complement`: the byte that brings `a` to zero modulo 256. */
  function Complement(a: int): (r: Byte)
    ensures (a + r) % 256 == 0
    ensures a % 256 == 0 <==> r == 0
  {
    (256 - a % 256) % 256
  }

  /** `complement` is the inverse of `byte_add`. */
  lemma ComplementCancels(a: int)
    ensures ByteAdd(a, Complement(a)) == 0
    ensures Complement(Complement(a)) == a % 256
  {
  }

  // ---------------------------------------------------------------------
  // Command framing
  // ---------------------------------------------------------------------

  /** Python's `format(n, "x")`: the lower-case hex numeral of `n`, with no
      leading zeros. */
  function Numeral(n: nat): (w: seq<Byte>)
    ensures |w| >= 1
    ensures n >= 256 ==> |w| > 2
    ensures n < 16 <==> |w| == 1
  {
    if n < 16 then [LowerDigit(n)] else Numeral(n / 16) + [LowerDigit(n % 16)]
  }

  /** Python's `format(n, "02x")`: the numeral padded with `0` to at least
      two digits. */
  function Hex02(n: nat): (w: seq<Byte>)
    ensures |w| >= 2
  {
    var d := Numeral(n);
    if |d| < 2 then ['0' as int] + d else d
  }

  /** For a byte, `{:02x}` is exactly its two lower-case hex digits. */
  lemma Hex02OfByte(b: Byte)
    ensures Hex02(b) == HexPair(b, false)
  {
    NibblesJoin(b);
    if b >= 16 {
      assert Numeral(b) == Numeral(b / 16) + [LowerDigit(b % 16)];
    }
  }

  /** `command(out_bytes, command)`: `.`, the command length, the expected
      response length, the command in lower-case hex, the complement of
      everything before, and `\r\n`. */
  function Command(out: nat, cmd: seq<Byte>): (w: seq<Byte>)
  {
    [Dot] + Hex02(|cmd|) + Hex02(out) + HexBytes(cmd, false)
      + Hex02(Complement(|cmd| + out + Sum(cmd))) + [CR, LF]
  }

  /** The bytes a command frame carries: length, response length, the
      command itself and the checksum. */
  function FrameBytes(out: Byte, cmd: seq<Byte>): (body: seq<Byte>)
    requires |cmd| < 256
  {
    [|cmd|, out] + cmd + [Complement(|cmd| + out + Sum(cmd))]
  }

  /** Checksum law: the bytes of every command frame add up to 0 modulo 256. */
  lemma FrameChecksum(out: Byte, cmd: seq<Byte>)
    requires |cmd| < 256
    ensures Sum(FrameBytes(out, cmd)) % 256 == 0
  {
    var c := Complement(|cmd| + out + Sum(cmd));
    SumAppend([|cmd|, out] + cmd, [c]);
    SumAppend([|cmd|, out], cmd);
    assert Sum([|cmd|, out]) == |cmd| + out;
    assert Sum([c]) == c;
  }

  /** A command with fewer than 256 command bytes and a response length
      below 256 is one decoder frame: `.`, the hex pairs of its bytes in
      lower case, and `\r\n`. */
  lemma CommandIsFrame(out: Byte, cmd: seq<Byte>)
    requires |cmd| < 256
    ensures Command(out, cmd) == [Dot] + HexBytes(FrameBytes(out, cmd), false) + [CR, LF]
  {
    var c := Complement(|cmd| + out + Sum(cmd));
    Hex02OfByte(|cmd|);
    Hex02OfByte(out);
    Hex02OfByte(c);
    HexOfFrame(|cmd|, out, cmd, c);
    PrependAssoc([Dot], HexPair(|cmd|, false), HexPair(out, false), HexBytes(cmd, false), HexPair(c, false));
  }

  /** The hex text of a frame's bytes, field by field. */
  lemma HexOfFrame(n: Byte, out: Byte, cmd: seq<Byte>, c: Byte)
    ensures HexBytes([n, out] + cmd + [c], false)
         == HexPair(n, false) + HexPair(out, false) + HexBytes(cmd, false) + HexPair(c, false)
  {
    assert HexBytes([out], false) == HexPair(out, false) + HexBytes([], false);
    assert HexBytes([n, out], false) == HexPair(n, false) + HexBytes([out], false);
    assert HexBytes([c], false) == HexPair(c, false) + HexBytes([], false);
    HexBytesAppend([n, out], cmd, false);
    HexBytesAppend([n, out] + cmd, [c], false);
  }

  // ---------------------------------------------------------------------
  // Chunking
  // ---------------------------------------------------------------------

  /** Concatenation of a list of chunks. */
  function Concat(cs: seq<seq<Byte>>): (r: seq<Byte>)
  {
    if |cs| == 0 then [] else cs[0] + Concat(cs[1..])
  }

  /** `chunk_iterable(data, size)` (and `chunk_file`, reading an image
      that is held in full): consecutive pieces of `size` bytes, the last
      one possibly shorter, never an empty one. A size of 0 yields
      nothing. */
  function Chunks(data: seq<Byte>, size: nat): (r: seq<seq<Byte>>)
    ensures size > 0 ==> Concat(r) == data
    ensures size == 0 ==> r == []
    ensures forall i :: 0 <= i < |r| ==> 0 < |r[i]| <= size
    ensures forall i :: 0 <= i < |r| - 1 ==> |r[i]| == size
    decreases |data|
  {
    if size == 0 || |data| == 0 then []
    else if |data| <= size then [data]
    else
      var rest := Chunks(data[size..], size);
      assert Concat([data[..size]] + rest) == data[..size] + Concat(rest);
      [data[..size]] + rest
  }

  /** Data of `k` whole chunks' length chunks into exactly `k` pieces. */
  lemma {:induction false} ChunksOfWhole(data: seq<Byte>, size: nat, k: nat)
    requires size > 0 && |data| == size * k
    ensures |Chunks(data, size)| == k
    decreases k
  {
    if k > 1 {
      assert |data[size..]| == size * (k - 1);
      ChunksOfWhole(data[size..], size, k - 1);
    }
  }

  /** Chunking splits at a chunk boundary: data whose first part is a
      whole number of chunks chunks as that part and then the rest. */
  lemma {:induction false} ChunksAppend(a: seq<Byte>, b: seq<Byte>, size: nat, k: nat)
    requires size > 0 && |a| == size * k
    ensures Chunks(a + b, size) == Chunks(a, size) + Chunks(b, size)
    decreases k
  {
    var ab := a + b;
    if |a| == 0 {
      assert ab == b;
    } else if |ab| <= size {
      assert |a| == size && b == [] && ab == a;
      assert Chunks(b, size) == [];
    } else {
      assert |a| >= size;
      var head := a[..size];
      var tail := a[size..];
      assert ab[..size] == head;
      assert ab[size..] == tail + b;
      assert |tail| == size * (k - 1);
      ChunksAppend(tail, b, size, k - 1);
      assert Chunks(ab, size) == [head] + (Chunks(tail, size) + Chunks(b, size));
      if |a| == size {
        assert head == a && tail == [];
        assert Chunks(tail, size) == [];
        assert Chunks(a, size) == [head];
      } else {
        assert Chunks(a, size) == [head] + Chunks(tail, size);
      }
    }
  }

  // ---------------------------------------------------------------------
  // The flash sequence
  // ---------------------------------------------------------------------

  const ChunkSize: nat := 0x1000
  const PageSize: nat := 128
  /** Pages per chunk: the erase comes once every 32 pages. */
  const PagesPerChunk: nat := 32

  const WriteEnable: Byte := 0x06
  const SectorErase: Byte := 0x20
  const PageProgram: Byte := 0x02
  const ReadData: Byte := 0x03

  /** Addresses the flash takes: `int.to_bytes(3, "big")` raises
      `OverflowError` outside this range. */
  predicate Addressable(addr: int)
  {
    0 <= addr < 0x100_0000
  }

  /** `addr.to_bytes(3, "big")`, `None` where Python raises. */
  function ToBytes3(addr: int): (r: Option<seq<Byte>>)
    ensures r.Some? <==> Addressable(addr)
    ensures r.Some? ==> |r.value| == 3
  {
    if Addressable(addr) then Some([addr / 0x1_0000, addr / 0x100 % 0x100, addr % 0x100]) else None
  }

  /** The address three big-endian bytes stand for. */
  function FromBytes3(a: seq<Byte>): (addr: int)
    requires |a| == 3
    ensures Addressable(addr)
  {
    (a[0] as int) * 0x1_0000 + (a[1] as int) * 0x100 + a[2] as int
  }

  lemma Bytes3RoundTrip(addr: int, a: seq<Byte>)
    ensures Addressable(addr) ==> FromBytes3(ToBytes3(addr).value) == addr
    ensures |a| == 3 ==> ToBytes3(FromBytes3(a)) == Some(a)
  {
    if |a| == 3 {
      var low := (a[1] as int) * 0x100 + a[2] as int;
      var v := FromBytes3(a);
      assert v == (a[0] as int) * 0x1_0000 + low && 0 <= low < 0x1_0000;
      assert v / 0x1_0000 == a[0];
      assert v / 0x100 == (a[0] as int) * 0x100 + a[1] as int;
      assert v / 0x100 % 0x100 == a[1];
      assert v % 0x100 == a[2];
      assert a == [a[0], a[1], a[2]];
    }
  }

  /** One `run_command(port, out_bytes, cmd)`. */
  datatype Request = Request(out: nat, cmd: seq<Byte>)

  /** The requests written, and whether `flash` ran to the end rather than
      stopping at an address it could not encode. */
  datatype Plan = Plan(requests: seq<Request>, completed: bool)

  function Address(addr: int): seq<Byte>
    requires Addressable(addr)
  {
    ToBytes3(addr).value
  }

  /** Write enable, page program, and the read that verifies the page. */
  function PageRequests(page: seq<Byte>, a: seq<Byte>): seq<Request>
  {
    [Request(0, [WriteEnable]), Request(0, [PageProgram] + a + page), Request(|page|, [ReadData] + a)]
  }

  /** Write enable and sector erase. */
  function EraseRequests(a: seq<Byte>): seq<Request>
  {
    [Request(0, [WriteEnable]), Request(0, [SectorErase] + a)]
  }

  /** The inner loop of `flash`: the pages of one chunk, from `addr` on. */
  function FlashPages(pages: seq<seq<Byte>>, addr: int): (p: Plan)
    ensures |p.requests| <= 3 * |pages|
  {
    if |pages| == 0 then Plan([], true)
    else match ToBytes3(addr)
      case None => Plan([], false)
      case Some(a) =>
        var rest := FlashPages(pages[1..], addr + PageSize);
        Plan(PageRequests(pages[0], a) + rest.requests, rest.completed)
  }

  /** The outer loop of `flash`: the chunks of the image, from `addr` on. */
  function FlashChunks(chunks: seq<seq<Byte>>, addr: int): Plan
  {
    if |chunks| == 0 then Plan([], true)
    else match ToBytes3(addr)
      case None => Plan([Request(0, [WriteEnable])], false)
      case Some(a) =>
        var pages := FlashPages(Chunks(chunks[0], PageSize), addr);
        if !pages.completed then Plan(EraseRequests(a) + pages.requests, false)
        else
          var rest := FlashChunks(chunks[1..], addr + ChunkSize);
          Plan(EraseRequests(a) + pages.requests + rest.requests, rest.completed)
  }

  /** `flash(port, path, base_addr)` for an image held as bytes. */
  function Flash(image: seq<Byte>, base: int): Plan
  {
    FlashChunks(Chunks(image, ChunkSize), base)
  }

  // ---------------------------------------------------------------------
  // A flat description of the flash sequence
  // ---------------------------------------------------------------------

  /** Every one of `n` pages from `addr` on has an address the flash takes:
      the first is not negative and the last is below 2^24. */
  predicate PagesFit(n: nat, addr: int)
  {
    n == 0 || (addr >= 0 && Addressable(addr + PageSize * (n - 1)))
  }

  /** Pages fit exactly when both parts of a split fit. */
  lemma PagesFitSplit(n: nat, m: nat, addr: int)
    ensures PagesFit(n + m, addr) <==> PagesFit(n, addr) && PagesFit(m, addr + PageSize * n)
  {
  }

  /** The flash sequence page by page over the whole image: page `k` sits
      at `base + 128 k`; every 32nd page begins a new 4 KiB sector, which is
      erased first; each page is then write-enabled, programmed and read
      back. `pages` are the pages from global index `k` on, `addr` the
      address of the first of them. */
  function Reference(pages: seq<seq<Byte>>, k: nat, addr: int): seq<Request>
    requires PagesFit(|pages|, addr)
    decreases |pages|
  {
    if |pages| == 0 then []
    else PageStep(pages[0], k, addr) + Reference(pages[1..], k + 1, addr + PageSize)
  }

  /** Page `k` of the flat description, at `addr`. */
  function PageStep(page: seq<Byte>, k: nat, addr: int): seq<Request>
    requires Addressable(addr)
  {
    (if k % PagesPerChunk == 0 then EraseRequests(Address(addr)) else [])
    + PageRequests(page, Address(addr))
  }

  lemma {:induction false} ReferenceAppend(a: seq<seq<Byte>>, b: seq<seq<Byte>>, k: nat, addr: int)
    requires PagesFit(|a| + |b|, addr)
    ensures PagesFit(|a|, addr) && PagesFit(|b|, addr + PageSize * |a|)
    ensures Reference(a + b, k, addr) ==
      Reference(a, k, addr) + Reference(b, k + |a|, addr + PageSize * |a|)
    decreases |a|
  {
    PagesFitSplit(|a|, |b|, addr);
    if |a| == 0 {
      assert a + b == b;
    } else {
      var next := addr + PageSize;
      PagesFitSplit(1, |a| - 1 + |b|, addr);
      PagesFitSplit(1, |a| - 1, addr);
      ReferenceAppend(a[1..], b, k + 1, next);
      assert next + PageSize * |a[1..]| == addr + PageSize * |a|;
      ReferenceAppendStep(a, b, k, addr);
    }
  }

  /** The inductive step of `ReferenceAppend`: peel the first page. */
  lemma ReferenceAppendStep(a: seq<seq<Byte>>, b: seq<seq<Byte>>, k: nat, addr: int)
    requires |a| > 0 && PagesFit(|a| + |b|, addr)
    requires PagesFit(|a|, addr) && PagesFit(|b|, addr + PageSize * |a|)
    requires PagesFit(|a| - 1 + |b|, addr + PageSize) && PagesFit(|a| - 1, addr + PageSize)
    requires Reference(a[1..] + b, k + 1, addr + PageSize) ==
      Reference(a[1..], k + 1, addr + PageSize) + Reference(b, k + |a|, addr + PageSize * |a|)
    ensures Reference(a + b, k, addr) ==
      Reference(a, k, addr) + Reference(b, k + |a|, addr + PageSize * |a|)
  {
    var ab := a + b;
    assert ab[0] == a[0] && ab[1..] == a[1..] + b;
    var head := PageStep(a[0], k, addr);
    var ra := Reference(a[1..], k + 1, addr + PageSize);
    var rb := Reference(b, k + |a|, addr + PageSize * |a|);
    assert Reference(ab, k, addr) == head + (ra + rb);
    assert Reference(a, k, addr) == head + ra;
    AppendAssoc(head, ra, rb);
  }

  /** Inside a sector (no page index a multiple of 32), the inner loop of
      `flash` is the flat description. */
  lemma {:induction false} FlashPagesIsReference(pages: seq<seq<Byte>>, k: nat, addr: int)
    requires PagesFit(|pages|, addr)
    requires |pages| == 0 || (k % PagesPerChunk != 0 && k % PagesPerChunk + |pages| <= PagesPerChunk)
    ensures FlashPages(pages, addr) == Plan(Reference(pages, k, addr), true)
    decreases |pages|
  {
    if |pages| > 0 {
      FlashPagesIsReference(pages[1..], k + 1, addr + PageSize);
    }
  }

  /** Data of at most `k` chunks' length chunks into at most `k` pieces. */
  lemma {:induction false} ChunksAtMost(data: seq<Byte>, size: nat, k: nat)
    requires size > 0 && |data| <= size * k
    ensures |Chunks(data, size)| <= k
    decreases k
  {
    if |data| > size {
      assert |data[size..]| <= size * (k - 1);
      ChunksAtMost(data[size..], size, k - 1);
    }
  }

  /** One sector: its erase, then its pages as the flat description has
      them from a page index that is a multiple of 32. */
  lemma SectorIsReference(c: seq<Byte>, k: nat, addr: int)
    requires 0 < |c| <= ChunkSize && k % PagesPerChunk == 0
    requires PagesFit(|Chunks(c, PageSize)|, addr)
    ensures var p := FlashPages(Chunks(c, PageSize), addr);
      p.completed && EraseRequests(Address(addr)) + p.requests == Reference(Chunks(c, PageSize), k, addr)
  {
    var pages := Chunks(c, PageSize);
    ChunksAtMost(c, PageSize, PagesPerChunk);
    assert |pages| > 0;
    FlashPagesIsReference(pages[1..], k + 1, addr + PageSize);
    var a := Address(addr);
    assert FlashPages(pages, addr).requests ==
      PageRequests(pages[0], a) + Reference(pages[1..], k + 1, addr + PageSize);
  }

  /** The outer loop on a chunk whose pages all fit. */
  lemma FlashChunksCons(cs: seq<seq<Byte>>, addr: int)
    requires |cs| > 0 && Addressable(addr) && FlashPages(Chunks(cs[0], PageSize), addr).completed
    ensures var rest := FlashChunks(cs[1..], addr + ChunkSize);
      FlashChunks(cs, addr) ==
        Plan(EraseRequests(Address(addr)) + FlashPages(Chunks(cs[0], PageSize), addr).requests + rest.requests,
             rest.completed)
  {
  }

  /** The pages of a sequence of chunks, chunk after chunk. */
  function PagesOf(cs: seq<seq<Byte>>): seq<seq<Byte>>
  {
    if |cs| == 0 then [] else Chunks(cs[0], PageSize) + PagesOf(cs[1..])
  }

  /** Chunks as the outer loop of `flash` gets them: none empty, none
      over a sector, and all but the last a whole sector of 32 pages. */
  predicate Sectors(cs: seq<seq<Byte>>)
  {
    (forall i :: 0 <= i < |cs| ==> 0 < |cs[i]| <= ChunkSize)
    && (forall i :: 0 <= i < |cs| - 1 ==> |Chunks(cs[i], PageSize)| == PagesPerChunk)
  }

  /** Splitting an image after its first chunk splits its pages too. */
  lemma FirstChunk(image: seq<Byte>, c: seq<Byte>, rest: seq<Byte>)
    requires |image| > 0
    requires c == image[..if |image| <= ChunkSize then |image| else ChunkSize]
    requires rest == image[|c|..]
    ensures Chunks(image, ChunkSize) == [c] + Chunks(rest, ChunkSize)
    ensures Chunks(image, PageSize) == Chunks(c, PageSize) + Chunks(rest, PageSize)
    ensures |rest| > 0 ==> |Chunks(c, PageSize)| == PagesPerChunk
  {
    assert image == c + rest;
    if |image| <= ChunkSize {
      assert rest == [] && c == image;
      assert Chunks(rest, PageSize) == [] && Chunks(rest, ChunkSize) == [];
    } else {
      assert Chunks(image, ChunkSize) == [c] + Chunks(rest, ChunkSize);
      ChunksOfWhole(c, PageSize, PagesPerChunk);
      ChunksAppend(c, rest, PageSize, PagesPerChunk);
    }
  }

  /** Cutting an image into 4 KiB chunks and each chunk into pages gives
      the image's 128-byte pages, and the chunks are whole sectors. */
  lemma {:induction false} ChunksOfChunks(image: seq<Byte>)
    ensures Chunks(image, PageSize) == PagesOf(Chunks(image, ChunkSize))
    ensures Sectors(Chunks(image, ChunkSize))
    decreases |image|
  {
    if |image| > 0 {
      var c := image[..if |image| <= ChunkSize then |image| else ChunkSize];
      var rest := image[|c|..];
      FirstChunk(image, c, rest);
      ChunksOfChunks(rest);
      var cs := Chunks(image, ChunkSize);
      assert cs[0] == c && cs[1..] == Chunks(rest, ChunkSize);
      if |rest| == 0 {
        assert cs == [c];
      }
    }
  }

  lemma NextSector(k: nat)
    requires k % PagesPerChunk == 0
    ensures (k + PagesPerChunk) % PagesPerChunk == 0
  {
  }

  /** The two loops of `flash` over whole sectors produce the flat
      description, page for page, when every page address fits. `k`
      counts the pages before `cs` and `addr` is where `cs` starts. */
  lemma {:induction false} FlashChunksIsReference(cs: seq<seq<Byte>>, k: nat, addr: int)
    requires k % PagesPerChunk == 0 && Sectors(cs)
    requires PagesFit(|PagesOf(cs)|, addr)
    ensures FlashChunks(cs, addr) == Plan(Reference(PagesOf(cs), k, addr), true)
    decreases |cs|
  {
    if |cs| > 0 {
      var cPages := Chunks(cs[0], PageSize);
      var restPages := PagesOf(cs[1..]);
      var next := addr + ChunkSize;
      assert PagesFit(|cPages|, addr) && PagesFit(|restPages|, next)
        && Reference(PagesOf(cs), k, addr) == Reference(cPages, k, addr) + Reference(restPages, k + PagesPerChunk, next)
      by {
        ReferenceAppend(cPages, restPages, k, addr);
        if |cs| > 1 {
          assert addr + PageSize * |cPages| == next;
        } else {
          assert restPages == [];
        }
      }
      assert Sectors(cs[1..]);
      NextSector(k);
      SectorIsReference(cs[0], k, addr);
      FlashChunksIsReference(cs[1..], k + PagesPerChunk, next);
      FlashChunksCons(cs, addr);
    }
  }

  /** `flash` writes exactly the flat description when every page address
      fits in three bytes. */
  lemma FlashIsReference(image: seq<Byte>, base: int)
    requires PagesFit(|Chunks(image, PageSize)|, base)
    ensures Flash(image, base) == Plan(Reference(Chunks(image, PageSize), 0, base), true)
  {
    ChunksOfChunks(image);
    FlashChunksIsReference(Chunks(image, ChunkSize), 0, base);
  }

  /** The inner loop runs to the end exactly when all its pages fit. */
  lemma {:induction false} FlashPagesCompletes(pages: seq<seq<Byte>>, addr: int)
    ensures FlashPages(pages, addr).completed <==> PagesFit(|pages|, addr)
    decreases |pages|
  {
    if |pages| > 0 {
      FlashPagesCompletes(pages[1..], addr + PageSize);
      PagesFitSplit(1, |pages| - 1, addr);
    }
  }

  /** The outer loop over whole sectors runs to the end exactly when all
      their pages fit. */
  lemma {:induction false} FlashChunksCompletes(cs: seq<seq<Byte>>, addr: int)
    requires Sectors(cs)
    ensures FlashChunks(cs, addr).completed <==> PagesFit(|PagesOf(cs)|, addr)
    decreases |cs|
  {
    if |cs| > 0 {
      var cPages := Chunks(cs[0], PageSize);
      var restPages := PagesOf(cs[1..]);
      assert |cPages| > 0;
      PagesFitSplit(|cPages|, |restPages|, addr);
      FlashPagesCompletes(cPages, addr);
      assert Sectors(cs[1..]);
      FlashChunksCompletes(cs[1..], addr + ChunkSize);
      if |cs| > 1 {
        assert addr + PageSize * |cPages| == addr + ChunkSize;
      } else {
        assert restPages == [];
      }
    }
  }

  /** `flash` runs to the end exactly when every page address of the image
      fits in three bytes; otherwise it stops at the first address that
      does not (Python's `OverflowError`). */
  lemma FlashCompletes(image: seq<Byte>, base: int)
    ensures Flash(image, base).completed <==> PagesFit(|Chunks(image, PageSize)|, base)
  {
    ChunksOfChunks(image);
    FlashChunksCompletes(Chunks(image, ChunkSize), base);
  }

  // ---------------------------------------------------------------------
  // Verifying a page: the read-back line against the expected line
  // ---------------------------------------------------------------------

  /** The bytes Python's `bytes.strip()` removes: space, tab, LF, VT, FF, CR. */
  predicate IsSpace(c: Byte)
  {
    c == 0x20 || 0x09 <= c <= 0x0D
  }

  /** `s` without its leading whitespace. */
  function TrimStart(s: seq<Byte>): (r: seq<Byte>)
    ensures |r| <= |s| && r == s[|s| - |r|..]
    ensures forall i :: 0 <= i < |s| - |r| ==> IsSpace(s[i])
    ensures |r| > 0 ==> !IsSpace(r[0])
  {
    if |s| > 0 && IsSpace(s[0]) then TrimStart(s[1..]) else s
  }

  /** `s` without its trailing whitespace. */
  function TrimEnd(s: seq<Byte>): (r: seq<Byte>)
    ensures |r| <= |s| && r == s[..|r|]
    ensures forall i :: |r| <= i < |s| ==> IsSpace(s[i])
    ensures |r| > 0 ==> !IsSpace(r[|r| - 1])
  {
    if |s| > 0 && IsSpace(s[|s| - 1]) then TrimEnd(s[..|s| - 1]) else s
  }

  /** `bytes.strip()`. */
  function Strip(s: seq<Byte>): seq<Byte>
  {
    TrimEnd(TrimStart(s))
  }

  /** Stripping a line that starts with a non-blank byte and ends in one
      blank byte removes exactly that byte. */
  lemma StripLine(body: seq<Byte>, end: Byte)
    requires |body| > 0 && !IsSpace(body[0]) && !IsSpace(body[|body| - 1]) && IsSpace(end)
    ensures Strip(body + [end]) == body
  {
    var s := body + [end];
    assert TrimStart(s) == s;
    assert s[..|s| - 1] == body;
    assert TrimEnd(body) == body;
  }

  /** `str.upper()` on one ASCII character. */
  function UpperChar(c: Byte): (u: Byte)
    ensures !('a' as int <= u <= 'z' as int)
    ensures u == c || u + 32 == c
    ensures u != c <==> 'a' as int <= c <= 'z' as int
  {
    if 'a' as int <= c <= 'z' as int then c - 32 else c
  }

  /** `str.upper()` on an ASCII string. */
  function Upper(s: seq<Byte>): (r: seq<Byte>)
    ensures |r| == |s|
  {
    if |s| == 0 then [] else [UpperChar(s[0])] + Upper(s[1..])
  }

  lemma {:induction false} UpperAppend(a: seq<Byte>, b: seq<Byte>)
    ensures Upper(a + b) == Upper(a) + Upper(b)
  {
    if |a| == 0 {
      assert a + b == b;
    } else {
      assert (a + b)[0] == a[0] && (a + b)[1..] == a[1..] + b;
      UpperAppend(a[1..], b);
    }
  }

  /** Upper-casing lower-case hex digits gives the `I2A` digits. */
  lemma {:induction false} UpperOfHex(bs: seq<Byte>)
    ensures Upper(HexBytes(bs, false)) == HexBytes(bs, true)
  {
    if |bs| > 0 {
      UpperAppend(HexPair(bs[0], false), HexBytes(bs[1..], false));
      UpperOfHex(bs[1..]);
    }
  }

  /** The line `flash` expects back for a page: `.`, the page's bytes in
      upper-case hex, and a newline. */
  function Expected(page: seq<Byte>): (e: seq<Byte>)
    ensures e == [Dot] + HexBytes(page, true) + [LF]
  {
    UpperAppend([Dot] + HexBytes(page, false), [LF]);
    UpperAppend([Dot], HexBytes(page, false));
    UpperOfHex(page);
    Upper([Dot] + HexBytes(page, false) + [LF])
  }

  /** The line the device sends for a read of `data`: its marker, the bytes
      in upper-case hex, and a newline. */
  function ReadLine(marker: Byte, data: seq<Byte>): seq<Byte>
  {
    [marker] + HexBytes(data, true) + [LF]
  }

  /** Stripping a read-back line leaves its marker and digits. */
  lemma StripReadLine(marker: Byte, data: seq<Byte>)
    requires !IsSpace(marker)
    ensures Strip(ReadLine(marker, data)) == [marker] + HexBytes(data, true)
  {
    var body := [marker] + HexBytes(data, true);
    if |data| > 0 {
      var last := body[|body| - 1];
      assert last == HexBytes(data, true)[2 * |data| - 1];
      HexBytesLast(data, true);
    }
    StripLine(body, LF);
  }

  /** The last character of a hex string is a digit, never blank. */
  lemma {:induction false} HexBytesLast(bs: seq<Byte>, upper: bool)
    requires |bs| > 0
    ensures !IsSpace(HexBytes(bs, upper)[2 * |bs| - 1])
  {
    DigitIsHex(Lo(bs[|bs| - 1]), upper);
    if |bs| > 1 {
      HexBytesAppend(bs[..|bs| - 1], [bs[|bs| - 1]], upper);
      assert bs == bs[..|bs| - 1] + [bs[|bs| - 1]];
    }
  }

  /** As written: the page is reported when the stripped read-back is not
      a prefix of the expected line (`not expected.startswith(...)`). */
  predicate Reported(page: seq<Byte>, readback: seq<Byte>)
  {
    !IsPrefix(Strip(readback), Expected(page))
  }

  /** A read-back of the page itself passes, and one of different data of
      the same length is reported. */
  lemma ReportedIffDiffers(page: seq<Byte>, data: seq<Byte>)
    requires |data| == |page|
    ensures Reported(page, ReadLine(Dot, data)) <==> data != page
  {
    StripReadLine(Dot, data);
    var got := [Dot] + HexBytes(data, true);
    var want := [Dot] + HexBytes(page, true);
    assert Expected(page)[..|got|] == want;
    if got == want {
      assert got[1..] == HexBytes(data, true) && want[1..] == HexBytes(page, true);
      HexBytesInjective(data, page, true);
    }
  }

  /** The error and checksum lines of the device are reported. */
  lemma ErrorLinesReported(page: seq<Byte>, marker: Byte, data: seq<Byte>)
    requires marker != Dot && !IsSpace(marker)
    ensures Reported(page, ReadLine(marker, data))
  {
    StripReadLine(marker, data);
  }

  /** As written, a line with nothing but whitespace, or nothing but the
      marker, passes verification for every page, although no data was read
      back. The device never sends a blank line, and its answer to the
      read-back itself is judged exactly (`Protocol.ReadBackChecked`); the
      line that slips through is `.` and a newline read out of step with
      the command, such as a write's acknowledgement still waiting in the
      port, which is accepted as a correct read of 128 bytes. */
  lemma BlankReadbackPasses(page: seq<Byte>, readback: seq<Byte>)
    requires (forall i :: 0 <= i < |readback| ==> IsSpace(readback[i])) || readback == [Dot, LF]
    ensures !Reported(page, readback)
  {
    if readback == [Dot, LF] {
      StripLine([Dot], LF);
    } else {
      assert Strip(readback) == [];
    }
  }

  /** Corrected: the page is reported unless the stripped read-back is the
      whole stripped expected line. */
  predicate ReportedStrict(page: seq<Byte>, readback: seq<Byte>)
  {
    Strip(readback) != Strip(Expected(page))
  }

  /** The corrected check accepts exactly the lines that strip to `.` and
      the page's digits: the echo of the page passes, different data,
      blank lines and short lines are all reported. */
  lemma ReportedStrictIff(page: seq<Byte>, readback: seq<Byte>)
    ensures !ReportedStrict(page, readback) <==> Strip(readback) == [Dot] + HexBytes(page, true)
    ensures !ReportedStrict(page, ReadLine(Dot, page))
    ensures (forall i :: 0 <= i < |readback| ==> IsSpace(readback[i])) ==> ReportedStrict(page, readback)
  {
    StripReadLine(Dot, page);
    if forall i :: 0 <= i < |readback| ==> IsSpace(readback[i]) {
      assert Strip(readback) == [];
    }
  }

  /** Under the corrected check, a line of data of the page's length
      passes exactly when the data is the page. */
  lemma ReportedStrictIffDiffers(page: seq<Byte>, data: seq<Byte>)
    ensures ReportedStrict(page, ReadLine(Dot, data)) <==> data != page
  {
    ReportedStrictIff(page, ReadLine(Dot, data));
    StripReadLine(Dot, data);
    var got := [Dot] + HexBytes(data, true);
    var want := [Dot] + HexBytes(page, true);
    if got == want {
      assert got[1..] == HexBytes(data, true) && want[1..] == HexBytes(page, true);
      HexBytesInjective(data, page, true);
    }
  }
}
