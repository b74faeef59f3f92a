/** Video memory of the virtual framebuffers: virtfb_set_par of virtfb_platform.c, which
    reallocates for every mode, and of virtfb.c, which only ever grows.  Addresses are
    numbers, 0 is NULL, and `blocks` holds the vmalloc'd blocks that are live. */
module FbMemory {
  import opened Arith
  import opened FbMode

  const ENOMEM := 12
  const EBUSY := 16

  // ----- Sizes -----------------------------------------------------------------------

  /** Bytes of a line and of the screen, in the 32-bit products of the drivers. */
  function LineLength(xresVirtual: int, depth: int): (r: int)
    requires xresVirtual >= 0 && depth >= 0
    ensures 0 <= r < U32
  {
    Word(xresVirtual * depth) / 8
  }

  function ScreenLength(xresVirtual: int, yresVirtual: int, depth: int): (r: int)
    requires xresVirtual >= 0 && yresVirtual >= 0 && depth >= 0
    ensures 0 <= r < U32
  {
    Word(yresVirtual * LineLength(xresVirtual, depth))
  }

  /** Neither product wraps. */
  ghost predicate Fits(m: Mode) {
    m.xresVirtual * m.bitsPerPixel < U32 && m.yresVirtual * (m.xresVirtual * m.bitsPerPixel / 8) < U32
  }

  // ----- virtfb_platform.c ---------------------------------------------------------------

  class FbInfo {
    var smemStart: int
    var smemLen: int
    var lineLength: int
    var screenBase: int
    var screenSize: int
    var blocks: set<int>

    /** The one live block is the one that smem_start names. */
    ghost predicate Valid()
      reads this
    {
      blocks == if smemStart == 0 then {} else {smemStart}
    }

    /** screen_base names memory that is not live. */
    ghost predicate Dangling()
      reads this
    {
      screenBase != 0 && screenBase !in blocks
    }

    /** As the probe leaves it: a block, or NULL, that screen_base does not name. */
    constructor (block: int)
      ensures Valid() && smemStart == block && screenBase == 0
    {
      smemStart, smemLen, lineLength, screenBase, screenSize := block, 0, 0, 0, 0;
      blocks := if block == 0 then {} else {block};
    }

    /** vfree, which takes NULL. */
    method Vfree(block: int)
      requires block == 0 || block in blocks
      modifies this`blocks
      ensures blocks == old(blocks) - {block}
    {
      blocks := blocks - {block};
    }

    /** `block` is what vmalloc_32_user returns, NULL if it fails. */
    method SetPar(m: Mode, block: int) returns (status: int)
      requires Valid() && Words(m)
      requires block != 0 ==> block !in blocks || block == smemStart
      modifies this
      ensures Valid()
      ensures lineLength == LineLength(m.xresVirtual, m.bitsPerPixel)
      ensures smemLen == ScreenLength(m.xresVirtual, m.yresVirtual, m.bitsPerPixel)
      ensures smemStart == block && blocks == (if block == 0 then {} else {block})
      ensures screenBase == (if block == 0 then old(screenBase) else block)
      ensures screenSize == (if block == 0 then old(screenSize) else smemLen)
      ensures Dangling() <==> block == 0 && old(screenBase) != 0
      ensures status == if block == 0 then -ENOMEM else 0
    {
      Vfree(smemStart);
      lineLength := Word(m.xresVirtual * m.bitsPerPixel) / 8;
      smemLen := Word(lineLength * m.yresVirtual);
      assert lineLength * m.yresVirtual == m.yresVirtual * lineLength;
      smemStart := block;
      if smemStart == 0 {
        return -ENOMEM;
      }
      blocks := blocks + {block};
      screenBase := smemStart;
      screenSize := smemLen;
      status := 0;
    }
  }

  // ----- Addressing ------------------------------------------------------------------------

  /** First bit of the pixel in column x of row y. */
  function PixelBit(x: int, y: int, line: int, depth: int): int {
    8 * (y * line) + x * depth
  }

  ghost predicate OnScreen(m: Mode, x: int, y: int) {
    0 <= x < m.xresVirtual && 0 <= y < m.yresVirtual
  }

  /** A field of a pixel lies within the pixel's own bits. */
  ghost predicate InPixel(f: Field, depth: int) {
    0 <= f.offset && 0 <= f.length && f.offset + f.length <= depth
  }

  ghost predicate FieldsInPixel(m: Mode) {
    InPixel(m.red, m.bitsPerPixel) && InPixel(m.green, m.bitsPerPixel)
    && InPixel(m.blue, m.bitsPerPixel) && InPixel(m.transp, m.bitsPerPixel)
  }

  /** Every checked mode of 8 bits or more keeps its colour fields inside the pixel; a
      mode of one bit never does. */
  lemma CheckedFieldsInPixelIff(m: Mode, current: Mode)
    requires m.bitsPerPixel <= 32
    ensures FieldsInPixel(Checked(m, current).0) <==> m.bitsPerPixel > 1
  {
  }

  /** A line of the virtual screen is a whole number of bytes. */
  ghost predicate WholeLines(m: Mode) {
    m.xresVirtual * m.bitsPerPixel % 8 == 0
  }

  /** The recorded line length never exceeds a line, and is one exactly when neither the
      32-bit product nor the division loses anything. */
  lemma LineKeptIff(m: Mode)
    requires Words(m)
    ensures 8 * LineLength(m.xresVirtual, m.bitsPerPixel) <= m.xresVirtual * m.bitsPerPixel
    ensures 8 * LineLength(m.xresVirtual, m.bitsPerPixel) == m.xresVirtual * m.bitsPerPixel
      <==> m.xresVirtual * m.bitsPerPixel < U32 && WholeLines(m)
  {
    MulMonotone(0, m.xresVirtual, m.bitsPerPixel);
    WordShrinks(m.xresVirtual * m.bitsPerPixel);
  }

  /** Two pixels share no bit. */
  ghost predicate Apart(b: int, b': int, depth: int) {
    b + depth <= b' || b' + depth <= b
  }

  /** Distinct pixels share no bit. */
  ghost predicate Disjoint(m: Mode, line: int) {
    forall x, y, x', y' :: OnScreen(m, x, y) && OnScreen(m, x', y') && (x != x' || y != y') ==>
      Apart(PixelBit(x, y, line, m.bitsPerPixel), PixelBit(x', y', line, m.bitsPerPixel), m.bitsPerPixel)
  }

  /** A pixel ends before any later pixel of its row begins, and if lines are kept whole,
      before any pixel of a later row. */
  lemma PixelsInOrder(m: Mode, x: int, y: int, x': int, y': int)
    requires Words(m) && OnScreen(m, x, y) && OnScreen(m, x', y')
    requires (y == y' && x < x') || (y < y' && m.xresVirtual * m.bitsPerPixel < U32 && WholeLines(m))
    ensures var line := LineLength(m.xresVirtual, m.bitsPerPixel);
      PixelBit(x, y, line, m.bitsPerPixel) + m.bitsPerPixel <= PixelBit(x', y', line, m.bitsPerPixel)
  {
    var line, d := LineLength(m.xresVirtual, m.bitsPerPixel), m.bitsPerPixel;
    assert (x + 1) * d == x * d + d;
    if y < y' {
      LineKeptIff(m);
      MulMonotone(x + 1, m.xresVirtual, d);
      MulMonotone(y + 1, y', line);
      assert (y + 1) * line == y * line + line;
      MulMonotone(0, x', d);
    } else {
      MulMonotone(x + 1, x', d);
    }
  }

  /** The pixel of a row of `w` pixels that holds bit `t`. */
  lemma PixelAt(t: int, w: int, d: int) returns (x: int)
    requires d >= 0 && 0 <= t < w * d
    ensures 0 <= x < w && x * d <= t < x * d + d
  {
    x := t / d;
    assert t == x * d + t % d;
    FloorGalois(t, d, 0);
    FloorGalois(t, d, w);
  }

  /** A line length that falls short puts the second row on top of the first. */
  lemma RowsOverlap(m: Mode) returns (x: int)
    requires Words(m) && 8 * LineLength(m.xresVirtual, m.bitsPerPixel) < m.xresVirtual * m.bitsPerPixel
    ensures 0 <= x < m.xresVirtual
    ensures var line := LineLength(m.xresVirtual, m.bitsPerPixel);
      !Apart(PixelBit(x, 0, line, m.bitsPerPixel), PixelBit(0, 1, line, m.bitsPerPixel), m.bitsPerPixel)
  {
    var line := LineLength(m.xresVirtual, m.bitsPerPixel);
    x := PixelAt(8 * line, m.xresVirtual, m.bitsPerPixel);
    assert PixelBit(x, 0, line, m.bitsPerPixel) == x * m.bitsPerPixel;
    assert PixelBit(0, 1, line, m.bitsPerPixel) == 8 * line;
  }

  /** Pixels share no bit exactly when the line length keeps a whole line, neither
      wrapped nor rounded down, or there is only one row. */
  lemma DisjointIff(m: Mode)
    requires Words(m) && m.xresVirtual > 0 && m.yresVirtual > 0
    ensures Disjoint(m, LineLength(m.xresVirtual, m.bitsPerPixel))
      <==> (m.xresVirtual * m.bitsPerPixel < U32 && WholeLines(m)) || m.yresVirtual == 1
  {
    var line, d := LineLength(m.xresVirtual, m.bitsPerPixel), m.bitsPerPixel;
    if (m.xresVirtual * d < U32 && WholeLines(m)) || m.yresVirtual == 1 {
      forall x, y, x', y' | OnScreen(m, x, y) && OnScreen(m, x', y') && (x != x' || y != y')
        ensures Apart(PixelBit(x, y, line, d), PixelBit(x', y', line, d), d)
      {
        if y < y' || (y == y' && x < x') {
          PixelsInOrder(m, x, y, x', y');
        } else {
          PixelsInOrder(m, x', y', x, y);
        }
      }
    } else {
      LineKeptIff(m);
      var x := RowsOverlap(m);
      assert OnScreen(m, x, 0) && OnScreen(m, 0, 1);
    }
  }

  ghost predicate AllInside(m: Mode, line: int, length: int) {
    forall x, y :: OnScreen(m, x, y) ==>
      0 <= PixelBit(x, y, line, m.bitsPerPixel) && PixelBit(x, y, line, m.bitsPerPixel) + m.bitsPerPixel <= 8 * length
  }

  lemma PixelInside(m: Mode, x: int, y: int)
    requires Words(m) && Fits(m) && WholeLines(m) && OnScreen(m, x, y)
    ensures var line := LineLength(m.xresVirtual, m.bitsPerPixel);
      && 0 <= PixelBit(x, y, line, m.bitsPerPixel)
      && PixelBit(x, y, line, m.bitsPerPixel) + m.bitsPerPixel
        <= 8 * ScreenLength(m.xresVirtual, m.yresVirtual, m.bitsPerPixel)
  {
    var line, d := LineLength(m.xresVirtual, m.bitsPerPixel), m.bitsPerPixel;
    LineKeptIff(m);
    MulMonotone(0, y, line);
    MulMonotone(0, x, d);
    MulMonotone(x + 1, m.xresVirtual, d);
    assert (x + 1) * d == x * d + d;
    MulMonotone(y + 1, m.yresVirtual, line);
    assert (y + 1) * line == y * line + line;
  }

  /** Every pixel lies in the memory set_par asks for exactly when neither 32-bit product
      wraps and a line is a whole number of bytes. */
  lemma AllInsideIff(m: Mode)
    requires Words(m) && m.xresVirtual > 0 && m.yresVirtual > 0
    ensures AllInside(m, LineLength(m.xresVirtual, m.bitsPerPixel),
                      ScreenLength(m.xresVirtual, m.yresVirtual, m.bitsPerPixel))
      <==> Fits(m) && WholeLines(m)
  {
    var line, d := LineLength(m.xresVirtual, m.bitsPerPixel), m.bitsPerPixel;
    var length := ScreenLength(m.xresVirtual, m.yresVirtual, d);
    if Fits(m) && WholeLines(m) {
      forall x, y | OnScreen(m, x, y)
        ensures 0 <= PixelBit(x, y, line, d) && PixelBit(x, y, line, d) + d <= 8 * length
      {
        PixelInside(m, x, y);
      }
    }
    if AllInside(m, line, length) {
      LastPixelInside(m);
    }
  }

  /** If the last pixel lies inside, nothing was lost. */
  lemma LastPixelInside(m: Mode)
    requires Words(m) && m.xresVirtual > 0 && m.yresVirtual > 0
    requires AllInside(m, LineLength(m.xresVirtual, m.bitsPerPixel),
                       ScreenLength(m.xresVirtual, m.yresVirtual, m.bitsPerPixel))
    ensures Fits(m) && WholeLines(m)
  {
    var line, bits := LineLength(m.xresVirtual, m.bitsPerPixel), m.xresVirtual * m.bitsPerPixel;
    var x, y := m.xresVirtual - 1, m.yresVirtual - 1;
    assert OnScreen(m, x, y);
    assert x * m.bitsPerPixel + m.bitsPerPixel == bits;
    assert y * line + line == m.yresVirtual * line;
    MulMonotone(0, m.yresVirtual, line);
    WordShrinks(m.yresVirtual * line);
    LineKeptIff(m);
    assert 8 * line == bits && line == bits / 8;
  }

  lemma WordShrinks(x: int)
    requires x >= 0
    ensures Word(x) <= x && (Word(x) == x <==> x < U32)
  {
  }

  /** The bytes the probe asks for: one division at the end instead of one a line, and
      the product of all three in 32 bits. */
  function ProbeLength(m: Mode): int {
    Word(Word(m.xresVirtual * m.yresVirtual) * m.bitsPerPixel) / 8
  }

  /** A product of words is the same whether it wraps at each step or once. */
  lemma WordProduct(a: int, b: int)
    ensures Word(Word(a) * b) == Word(a * b)
  {
    var q := a / U32;
    assert a == q * U32 + Word(a);
    assert a * b == Word(a) * b + (q * b) * U32;
    ModAddMultiple(Word(a) * b, U32, q * b);
  }

  lemma ProbeBits(m: Mode)
    ensures ProbeLength(m) == Word(m.xresVirtual * m.bitsPerPixel * m.yresVirtual) / 8
  {
    WordProduct(m.xresVirtual * m.yresVirtual, m.bitsPerPixel);
    assert m.xresVirtual * m.yresVirtual * m.bitsPerPixel == m.xresVirtual * m.bitsPerPixel * m.yresVirtual;
  }

  /** The probe and set_par agree on a screen whose sizes set_par gets right exactly when
      the bits that the lines leave over make up, to the byte, for the wraps of the
      probe's product. */
  lemma ProbeSizeAgreesIff(m: Mode)
    requires Words(m) && Fits(m)
    ensures var bits := m.xresVirtual * m.bitsPerPixel;
      ProbeLength(m) == ScreenLength(m.xresVirtual, m.yresVirtual, m.bitsPerPixel)
      <==> 0 <= bits % 8 * m.yresVirtual - bits * m.yresVirtual / U32 * U32 < 8
  {
    var bits, h := m.xresVirtual * m.bitsPerPixel, m.yresVirtual;
    MulMonotone(0, m.xresVirtual, m.bitsPerPixel);
    MulMonotone(0, h, bits / 8);
    ProbeBits(m);
    var screen, wraps := bits / 8 * h, bits * h / U32;
    assert bits * h == 8 * screen + bits % 8 * h;
    assert Word(bits * h) == 8 * screen + (bits % 8 * h - wraps * U32);
    assert ScreenLength(m.xresVirtual, h, m.bitsPerPixel) == screen;
  }

  /** For pixels of whole bytes the probe drops what set_par's size has above 512 MiB, and
      so they agree exactly below that. */
  lemma WholeByteProbeIff(m: Mode)
    requires Words(m) && m.bitsPerPixel % 8 == 0
    ensures var length := ScreenLength(m.xresVirtual, m.yresVirtual, m.bitsPerPixel);
      && ProbeLength(m) == length % 0x2000_0000
      && (ProbeLength(m) == length <==> length < 0x2000_0000)
  {
    var b, h := m.bitsPerPixel / 8, m.yresVirtual;
    var bytes := m.xresVirtual * b;
    assert m.xresVirtual * m.bitsPerPixel == 8 * bytes;
    ProbeBits(m);
    assert m.xresVirtual * m.bitsPerPixel * h == 8 * (bytes * h);
    WordEighth(bytes * h);
    WordEighth(bytes);
    LowBits(bytes, h);
  }

  lemma WordEighth(x: int)
    ensures Word(8 * x) / 8 == x % 0x2000_0000
  {
  }

  lemma LowBits(bytes: int, h: int)
    ensures Word(h * (bytes % 0x2000_0000)) % 0x2000_0000 == bytes * h % 0x2000_0000
  {
    var q := bytes / 0x2000_0000;
    assert bytes == q * 0x2000_0000 + bytes % 0x2000_0000;
    assert bytes * h == h * (bytes % 0x2000_0000) + (q * h) * 0x2000_0000;
    ModAddMultiple(h * (bytes % 0x2000_0000), 0x2000_0000, q * h);
    ModOfMod(h * (bytes % 0x2000_0000), U32, 0x2000_0000);
  }

  /** A mode that set_par gets right and the probe does not. */
  lemma ProbeSizeDiffers(m: Mode)
    requires m.xresVirtual == 16384 && m.yresVirtual == 16384 && m.bitsPerPixel == 24
    ensures Fits(m) && ProbeLength(m) == 0x1000_0000
    ensures ScreenLength(m.xresVirtual, m.yresVirtual, m.bitsPerPixel) == 0x3000_0000
  {
  }

  /** What is so of any screen set_par lays out: every pixel lies in the memory exactly
      when neither 32-bit size wraps and a line is whole bytes, and no two pixels share a
      bit exactly when the line length keeps a whole line or there is only one row. */
  ghost predicate LaidOut(m: Mode)
    requires Words(m)
  {
    var line := LineLength(m.xresVirtual, m.bitsPerPixel);
    && (AllInside(m, line, ScreenLength(m.xresVirtual, m.yresVirtual, m.bitsPerPixel)) <==> Fits(m) && WholeLines(m))
    && (Disjoint(m, line) <==> (m.xresVirtual * m.bitsPerPixel < U32 && WholeLines(m)) || m.yresVirtual == 1)
  }

  lemma LaysOut(m: Mode)
    requires Words(m) && m.xresVirtual > 0 && m.yresVirtual > 0
    ensures LaidOut(m)
  {
    AllInsideIff(m);
    DisjointIff(m);
  }

  /** After every successful check set_par lays the screen out in that way; the colour
      fields lie in their pixel, and lines are whole bytes, above one bit a pixel. */
  lemma CheckedScreenAddressable(m: Mode, current: Mode)
    requires Words(m) && Words(current) && m.bitsPerPixel <= 32
    ensures Words(Checked(m, current).0) && LaidOut(Checked(m, current).0)
    ensures FieldsInPixel(Checked(m, current).0) <==> m.bitsPerPixel > 1
    ensures m.bitsPerPixel > 1 ==> WholeLines(Checked(m, current).0)
  {
    CheckedShape(m, current);
    CheckedFieldsInPixelIff(m, current);
    LaysOut(Checked(m, current).0);
    if m.bitsPerPixel > 1 { WholeByteLines(Checked(m, current).0); }
  }

  lemma WholeByteLines(m: Mode)
    requires m.bitsPerPixel % 8 == 0
    ensures WholeLines(m)
  {
    var bytes := m.xresVirtual * (m.bitsPerPixel / 8);
    MulAssoc(m.xresVirtual, m.bitsPerPixel / 8, 8);
    assert m.xresVirtual * m.bitsPerPixel == bytes * 8;
  }

  lemma CheckedShape(m: Mode, current: Mode)
    requires Words(m) && Words(current) && m.bitsPerPixel <= 32
    ensures var r := Checked(m, current).0;
      Words(r) && r.bitsPerPixel == Depth(m.bitsPerPixel) && r.xresVirtual > 0 && r.yresVirtual > 0
  {
    var f := Fitted(Sized(Panned(m, current)).(bitsPerPixel := Depth(m.bitsPerPixel)));
    assert Words(f) && f.xresVirtual > 0 && f.yresVirtual > 0;
    ColoursKeepShape(f);
  }

  lemma ColoursKeepShape(m: Mode)
    ensures Words(Coloured(m)) <==> Words(m)
    ensures Coloured(m).bitsPerPixel == m.bitsPerPixel
    ensures Coloured(m).xresVirtual == m.xresVirtual && Coloured(m).yresVirtual == m.yresVirtual
  {
  }

  /** A one-bit mode nine pixels wide, accepted as it stands: its lines are one byte, so
      the ninth pixel of the first row is the first of the second, and the last pixel of
      all lies outside. */
  lemma OneBitRowsOverlap(m: Mode, current: Mode)
    requires Words(m) && !m.vmode.conUpdate && m.xoffset == m.yoffset == 0 && m.bitsPerPixel == 1
    requires m.xres == m.xresVirtual == 9 && m.yres == m.yresVirtual == 2
    ensures var r := Checked(m, current).0;
      var line, length := LineLength(9, 1), ScreenLength(9, 2, 1);
      && Checked(m, current).1 == 0 && r.xresVirtual == 9 && r.yresVirtual == 2 && r.bitsPerPixel == 1 && Fits(r)
      && PixelBit(8, 0, line, 1) == PixelBit(0, 1, line, 1) && PixelBit(8, 1, line, 1) >= 8 * length
  {
  }

  // ----- virtfb.c: memory that only grows ------------------------------------------------

  /** A call of set_par: the bytes its mode needs, and whether it succeeded. */
  datatype Call = Call(need: int, ok: bool)

  /** The most any call has needed since the last one that failed. */
  function Peak(calls: seq<Call>): (p: int) {
    if calls == [] then 0
    else
      var last := calls[|calls| - 1];
      if last.ok then Max(Peak(calls[..|calls| - 1]), last.need) else 0
  }

  lemma PeakAppend(calls: seq<Call>, c: Call)
    ensures Peak(calls + [c]) == if c.ok then Max(Peak(calls), c.need) else 0
  {
  }

  /** Peak is the maximum it is said to be: it bounds every need after the last failure
      at `f` and is one of them, or 0. */
  lemma {:induction false} PeakIsMaximum(calls: seq<Call>, f: int)
    requires -1 <= f < |calls| && (f >= 0 ==> !calls[f].ok)
    requires forall i :: f < i < |calls| ==> calls[i].ok
    ensures forall i :: f < i < |calls| ==> calls[i].need <= Peak(calls)
    ensures Peak(calls) == 0 || exists i :: f < i < |calls| && calls[i].need == Peak(calls)
    decreases |calls|
  {
    if f < |calls| - 1 {
      var before := calls[..|calls| - 1];
      PeakIsMaximum(before, f);
      assert Peak(calls) == Max(Peak(before), calls[|calls| - 1].need);
      if Peak(calls) == Peak(before) && Peak(before) != 0 {
        var i :| f < i < |before| && before[i].need == Peak(before);
        assert calls[i].need == Peak(calls);
      }
      assert forall i :: f < i < |before| ==> calls[i].need == before[i].need;
    }
  }

  class GrowingFb {
    var lineLength: int
    var smemStart: int
    var smemLen: int
    var screenBase: int
    var screenSize: int
    var videoMemory: int            // the driver's global
    var blocks: map<int, int>       // live blocks with their sizes

    ghost var calls: seq<Call>

    /** At most one block is live, the one all the pointers name, and it is as large as
        the largest mode since the last failure asked for. */
    ghost predicate Valid()
      reads this
    {
      && blocks == (if smemStart == 0 then map[] else map[smemStart := smemLen])
      && videoMemory == smemStart == screenBase
      && (if smemStart == 0 then smemLen == 0 else screenSize == smemLen)
      && smemLen == Peak(calls)
    }

    constructor ()
      ensures Valid() && calls == []
    {
      lineLength, smemStart, smemLen, screenBase, screenSize, videoMemory := 0, 0, 0, 0, 0, 0;
      blocks, calls := map[], [];
    }

    method UnmapVideoMemory()
      requires videoMemory == 0 || videoMemory in blocks
      modifies this`blocks, this`screenBase, this`smemStart, this`smemLen
      ensures blocks == old(blocks) - {videoMemory}
      ensures screenBase == 0 && smemStart == 0 && smemLen == 0
    {
      blocks := blocks - {videoMemory};
      screenBase, smemStart, smemLen := 0, 0, 0;
    }

    /** `block` is what vmalloc_32_user returns, NULL if it fails. */
    method MapVideoMemory(m: Mode, block: int) returns (status: int)
      requires Words(m) && 0 <= lineLength < U32 && (block != 0 ==> block !in blocks)
      modifies this`blocks, this`screenBase, this`smemStart, this`smemLen, this`screenSize, this`videoMemory
      ensures videoMemory == smemStart == screenBase == block
      ensures smemLen == if block == 0 then 0 else Max(old(smemLen), Word(m.yresVirtual * lineLength))
      ensures screenSize == if block == 0 then old(screenSize) else smemLen
      ensures blocks == if block == 0 then old(blocks) else old(blocks)[block := smemLen]
      ensures status == if block == 0 then -EBUSY else 0
    {
      if smemLen < Word(m.yresVirtual * lineLength) {
        smemLen := Word(m.yresVirtual * lineLength);
      }
      videoMemory := block;
      screenBase := videoMemory;
      smemStart := videoMemory;
      if smemStart == 0 {
        smemLen := 0;
        return -EBUSY;
      }
      blocks := blocks[block := smemLen];
      screenSize := smemLen;
      status := 0;
    }

    method SetPar(m: Mode, block: int) returns (status: int)
      requires Valid() && Words(m)
      requires block != 0 ==> block !in blocks || block == smemStart
      modifies this
      ensures Valid()
      ensures lineLength == LineLength(m.xresVirtual, m.bitsPerPixel)
      ensures calls == old(calls) + [Call(ScreenLength(m.xresVirtual, m.yresVirtual, m.bitsPerPixel), status == 0)]
      ensures status == 0 || status == -ENOMEM
      ensures status == 0 ==> smemLen >= ScreenLength(m.xresVirtual, m.yresVirtual, m.bitsPerPixel)
      ensures status != 0 ==> smemStart == 0
      ensures var need := ScreenLength(m.xresVirtual, m.yresVirtual, m.bitsPerPixel);
        smemStart == if old(smemStart) == 0 || need > old(smemLen) then block else old(smemStart)
    {
      lineLength := Word(m.xresVirtual * m.bitsPerPixel) / 8;
      var memLen := Word(m.yresVirtual * lineLength);
      status := 0;
      if smemStart == 0 || memLen > smemLen {
        if smemStart != 0 {
          UnmapVideoMemory();
        }
        var mapped := MapVideoMemory(m, block);
        if mapped < 0 {
          status := -ENOMEM;
        }
      }
      ghost var was := calls;
      calls := calls + [Call(memLen, status == 0)];
      PeakAppend(was, Call(memLen, status == 0));
    }
  }
}
