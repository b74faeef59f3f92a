/** The data path of spi_driver.c: a message written to the device file is parsed,
    put in the bit order of the bus, sent in chunks, and the answers are read back. */
module SpiData {
  import opened SpiBits

  const BUFSIZE := 4096
  const HEADER := 9
  const ZERO := Byte(0)
  const SPI_CS_HIGH: bv8 := 0x04

  // ----- Bit order over a buffer ---------------------------------------------------

  /** The other byte of the word that byte k is in. */
  function Partner(k: nat): (j: nat)
    ensures j % 2 != k % 2
  {
    if k % 2 == 0 then k + 1 else k - 1
  }

  /** Bytes 0 and 1, 2 and 3, and so on change places. */
  function Swapped(s: Bytes, n: nat): (r: Bytes)
    requires n % 2 == 0 && n <= |s|
    ensures |r| == |s|
    ensures forall k: nat :: k < |s| ==> r[k] == if k < n then s[Partner(k)] else s[k]
  {
    seq(|s|, (k: nat) requires k < |s| => if k < n then s[Partner(k)] else s[k])
  }

  /** An odd number of bytes, swapped in pairs, takes in one byte past its end. */
  function WholeWords(n: nat): (m: nat)
    ensures m % 2 == 0 && n <= m <= n + 1
  {
    n + n % 2
  }

  /** The first n bytes with their bits mirrored. */
  function Mirrored(s: Bytes, n: nat): (r: Bytes)
    requires n <= |s|
    ensures |r| == |s|
    ensures forall k :: 0 <= k < |s| ==> r[k] == if k < n then Reverse(s[k]) else s[k]
  {
    if n == 0 then s else Mirrored(s, n - 1)[n - 1 := Reverse(s[n - 1])]
  }

  predicate InReach(size: int, n: nat, bits: int) {
    (if bits == 16 then WholeWords(n) else n) <= size
  }

  /** What omap3_spi_lsb_first makes of a buffer; other widths leave it alone. */
  function LsbImage(s: Bytes, n: nat, bits: int): (r: Bytes)
    requires InReach(|s|, n, bits)
    ensures |r| == |s|
  {
    if bits == 8 then Mirrored(s, n)
    else if bits == 16 then Mirrored(Swapped(s, WholeWords(n)), n)
    else s
  }

  /** One round of the swapping loop, seen on the whole array. */
  lemma SwapStep(p: Bytes, s: Bytes, i: nat)
    requires i % 2 == 0 && i + 2 <= |s|
    ensures var t, j := p + Swapped(s, i), |p| + i;
      && t[j] == s[i] && t[j + 1] == s[i + 1]
      && t[j := s[i + 1]][j + 1 := s[i]] == p + Swapped(s, i + 2)
  {
  }

  method SwapTwo(a: array<Byte>, j: nat)
    requires j + 1 < a.Length
    modifies a
    ensures a[..] == old(a[..])[j := old(a[..])[j + 1]][j + 1 := old(a[..])[j]]
  {
    a[j], a[j + 1] := a[j + 1], a[j];
  }

  method SwapPairs(a: array<Byte>, offset: nat, length: nat)
    requires offset + WholeWords(length) <= a.Length
    modifies a
    ensures a[..] == old(a[..offset]) + Swapped(old(a[offset..]), WholeWords(length))
  {
    ghost var p, s := a[..offset], a[offset..];
    assert a[..] == p + s;
    var i := 0;
    while i < length
      invariant i % 2 == 0 && 0 <= i <= length + 1 && i <= |s|
      invariant a[..] == p + Swapped(s, i)
      decreases length - i
    {
      SwapStep(p, s, i);
      SwapTwo(a, offset + i);
      i := i + 2;
    }
    assert i == WholeWords(length);
  }

  method MirrorBytes(a: array<Byte>, offset: nat, length: nat)
    requires offset + length <= a.Length
    modifies a
    ensures a[..offset] == old(a[..offset])
    ensures a[offset..] == Mirrored(old(a[offset..]), length)
  {
    ghost var s := a[offset..];
    var i := 0;
    while i < length
      invariant 0 <= i <= length
      invariant a[..offset] == old(a[..offset])
      invariant a[offset..] == Mirrored(s, i)
    {
      ghost var was := a[offset..];
      var r := ReverseBits(a[offset + i].bits);
      a[offset + i] := Byte(r);
      assert was[i] == s[i];
      assert a[offset..] == was[i := Reverse(s[i])];
      i := i + 1;
    }
  }

  /** omap3_spi_lsb_first on the bytes from `offset` on. */
  method LsbFirst(a: array<Byte>, offset: nat, length: nat, bits: int) returns (status: int)
    requires offset <= a.Length && InReach(a.Length - offset, length, bits)
    modifies a
    ensures status == if bits == 8 || bits == 16 then 0 else -1
    ensures a[..offset] == old(a[..offset])
    ensures a[offset..] == LsbImage(old(a[offset..]), length, bits)
  {
    if bits != 8 && bits != 16 {
      return -1;
    }
    if bits == 16 {
      ghost var p, t := a[..offset], Swapped(a[offset..], WholeWords(length));
      SwapPairs(a, offset, length);
      assert a[..offset] == (p + t)[..offset] == p && a[offset..] == (p + t)[offset..] == t;
    }
    MirrorBytes(a, offset, length);
    status := 0;
  }

  /** Byte k of the image for 16-bit words. */
  lemma WordImageAt(s: Bytes, n: nat, k: nat)
    requires WholeWords(n) <= |s| && k < |s|
    ensures k < n ==> Partner(k) < |s| && LsbImage(s, n, 16)[k] == Reverse(s[Partner(k)])
    ensures n <= k < WholeWords(n) ==> LsbImage(s, n, 16)[k] == s[n - 1]
    ensures WholeWords(n) <= k ==> LsbImage(s, n, 16)[k] == s[k]
  {
  }

  /** With whole words, each pair of bytes changes places and comes out bit-reversed,
      which reverses the 16-bit word they make up (WordMirrors), and nothing past the
      length changes. */
  lemma LsbImageReversesWords(s: Bytes, n: nat, k: nat)
    requires n % 2 == 0 && n <= |s|
    ensures k % 2 == 0 && k < n ==>
      LsbImage(s, n, 16)[k] == Reverse(s[k + 1]) && LsbImage(s, n, 16)[k + 1] == Reverse(s[k])
    ensures n <= k < |s| ==> LsbImage(s, n, 16)[k] == s[k]
  {
  }

  /** Doing it twice restores the buffer, unless an odd number of bytes was treated as
      words: then only if the last byte and the one after it read the same mirrored. */
  lemma LsbTwiceIff(s: Bytes, n: nat, bits: int)
    requires InReach(|s|, n, bits)
    ensures LsbImage(LsbImage(s, n, bits), n, bits) == s <==>
      bits != 16 || n % 2 == 0 || (Reverse(s[n - 1]) == s[n - 1] && Reverse(s[n]) == s[n])
  {
    if bits == 8 {
      MirrorTwice(s, n);
    } else if bits == 16 {
      WordsTwice(s, n);
    }
  }

  /** Such a buffer: one byte of payload, treated as a word. */
  lemma LsbTwiceFails()
    ensures var s := [Byte(1), Byte(0)]; LsbImage(LsbImage(s, 1, 16), 1, 16) != s
  {
  }

  lemma MirrorTwice(s: Bytes, n: nat)
    requires n <= |s|
    ensures Mirrored(Mirrored(s, n), n) == s
  {
  }

  lemma WordsTwice(s: Bytes, n: nat)
    requires WholeWords(n) <= |s|
    ensures LsbImage(LsbImage(s, n, 16), n, 16) == s <==>
      n % 2 == 0 || (Reverse(s[n - 1]) == s[n - 1] && Reverse(s[n]) == s[n])
  {
    var r := LsbImage(s, n, 16);
    var t := LsbImage(r, n, 16);
    forall k: nat | k < |s|
      ensures t[k] == if n % 2 == 1 && n - 1 <= k <= n then Reverse(s[k]) else s[k]
    {
      WordTwiceAt(s, n, k);
    }
  }

  lemma WordTwiceAt(s: Bytes, n: nat, k: nat)
    requires WholeWords(n) <= |s| && k < |s|
    ensures LsbImage(LsbImage(s, n, 16), n, 16)[k] == if n % 2 == 1 && n - 1 <= k <= n then Reverse(s[k]) else s[k]
  {
    var r := LsbImage(s, n, 16);
    WordImageAt(r, n, k);
    if n % 2 == 1 && k == n - 1 {
      WordImageAt(s, n, n);
    } else if n % 2 == 1 && k == n {
      WordImageAt(s, n, n - 1);
    } else if k < n {
      PartnerBelow(n, k);
      WordImageAt(s, n, Partner(k));
      ReverseTwice(s[k]);
    } else {
      WordImageAt(s, n, k);
    }
  }

  lemma PartnerBelow(n: nat, k: nat)
    requires k < n && !(n % 2 == 1 && k == n - 1)
    ensures Partner(k) < n && Partner(Partner(k)) == k
  {
  }

  // ----- Parsing ---------------------------------------------------------------------

  datatype Params = Params(
    control: bv8, bpw: int, cs: bv8, mode: bv8, lsbf: bool, csp: bool, speed: int, ndb: int, groupBy: int)

  /** omap3_spi_parse_msg, up to the comparison of the chip select. */
  function Parse(b: Bytes): (p: Params)
    requires |b| == BUFSIZE
    ensures 0 <= p.ndb < 256 && 0 <= p.groupBy < 256
  {
    var control := b[1].bits;
    Params(control, b[2].bits as int, (control & 0x30) >> 4, (control & 0x0C) >> 2,
           (control & 0x02) >> 1 != 0, control & 0x01 != 0,
           b[3].bits as int * 1_000_000 + b[4].bits as int * 100_000 + b[5].bits as int * 1_000,
           b[7].bits as int, b[8].bits as int)
  }

  /** Two bits of a byte as a number, the higher first. */
  function TwoBits(b: bv8, i: bv8): bv8
    requires i < 7
  {
    (Bit(b, i + 1) << 1) | Bit(b, i)
  }

  /** Every field of every header, used bit by used bit: the control byte holds the chip
      select in bits 5 and 4, the mode in 3 and 2, the bit order in 1 and the polarity in
      0; the width, the speed in megahertz, tenths and thousandths, the count and the
      group have bytes of their own. */
  lemma ParseReadsHeader(b: Bytes)
    requires |b| == BUFSIZE
    ensures var p := Parse(b); var control := b[1].bits;
      && p.control == control
      && p.cs == TwoBits(control, 4) && p.mode == TwoBits(control, 2)
      && (p.lsbf <==> Bit(control, 1) == 1) && (p.csp <==> Bit(control, 0) == 1)
      && p.bpw == b[2].bits as int && p.ndb == b[7].bits as int && p.groupBy == b[8].bits as int
      && p.speed == 1_000 * (1_000 * (b[3].bits as int) + 100 * (b[4].bits as int) + (b[5].bits as int))
  {
  }

  /** Nothing else in a buffer counts: not bits 6 and 7 of the control byte, not bytes 0
      and 6, not the payload. */
  lemma ParseIgnoresRest(b: Bytes, b': Bytes)
    requires |b| == |b'| == BUFSIZE
    requires forall i: bv8 :: i < 6 ==> Bit(b[1].bits, i) == Bit(b'[1].bits, i)
    requires b[2..6] == b'[2..6] && b[7] == b'[7] && b[8] == b'[8]
    ensures Parse(b).(control := Parse(b').control) == Parse(b')
  {
    ParseReadsHeader(b);
    ParseReadsHeader(b');
    assert Bit(b[1].bits, 5) == Bit(b'[1].bits, 5) && Bit(b[1].bits, 4) == Bit(b'[1].bits, 4);
    assert Bit(b[1].bits, 3) == Bit(b'[1].bits, 3) && Bit(b[1].bits, 2) == Bit(b'[1].bits, 2);
    assert Bit(b[1].bits, 1) == Bit(b'[1].bits, 1) && Bit(b[1].bits, 0) == Bit(b'[1].bits, 0);
    assert b[3] == b[2..6][1] && b[4] == b[2..6][2] && b[5] == b[2..6][3] && b[2] == b[2..6][0];
    assert b'[3] == b'[2..6][1] && b'[4] == b'[2..6][2] && b'[5] == b'[2..6][3] && b'[2] == b'[2..6][0];
  }

  /** The message as it lies in the driver's buffer: zeros follow it. */
  function Padded(msg: Bytes): (b: Bytes)
    requires |msg| <= BUFSIZE
    ensures |b| == BUFSIZE
  {
    msg + seq(BUFSIZE - |msg|, _ => ZERO)
  }

  /** The bytes behind the header, in the order they go on the bus. */
  function Outgoing(b: Bytes): (s: Bytes)
    requires |b| == BUFSIZE
    ensures |s| == BUFSIZE - HEADER
  {
    var p := Parse(b);
    if p.lsbf then LsbImage(b[HEADER..], p.ndb, p.bpw) else b[HEADER..]
  }

  lemma PaddedAt(msg: Bytes, k: nat)
    requires |msg| <= BUFSIZE && k < BUFSIZE
    ensures Padded(msg)[k] == if k < |msg| then msg[k] else ZERO
  {
  }

  /** A message is for a chip select if bits 5 and 4 of its second byte say so, or, with
      no second byte, for chip select 0. */
  lemma AddressedIff(msg: Bytes, cs: bv8)
    requires |msg| <= BUFSIZE
    ensures Parse(Padded(msg)).cs == cs <==> cs == if |msg| > 1 then TwoBits(msg[1].bits, 4) else 0
  {
    ParseReadsHeader(Padded(msg));
    PaddedAt(msg, 1);
  }

  // ----- Chunks and answers ------------------------------------------------------------

  function Concat(chunks: seq<Bytes>): Bytes {
    if chunks == [] then [] else chunks[0] + Concat(chunks[1..])
  }

  /** Length of one transfer: a group, or all there is when that is less. */
  function XferLen(ndb: int, groupBy: int): int {
    if ndb < groupBy then ndb else groupBy
  }

  /** The transfers from index `i` on. */
  function Transfers(s: Bytes, ndb: nat, groupBy: nat, i: nat): seq<Bytes>
    requires groupBy > 0 && ndb + groupBy <= |s|
    decreases ndb - i
  {
    if i >= ndb then [] else [s[i..i + XferLen(ndb, groupBy)]] + Transfers(s, ndb, groupBy, i + groupBy)
  }

  /** A device answers a transfer from what it has been sent before and is sent now. */
  type Device = (seq<Bytes>, Bytes) -> Bytes

  ghost predicate Duplex(dev: Device) {
    forall sent, tx :: |dev(sent, tx)| == |tx|
  }

  function Replies(dev: Device, sent: seq<Bytes>, txs: seq<Bytes>): (r: seq<Bytes>)
    ensures |r| == |txs|
    decreases |txs|
  {
    if txs == [] then [] else [dev(sent, txs[0])] + Replies(dev, sent + [txs[0]], txs[1..])
  }

  lemma {:induction false} ConcatAppend(chunks: seq<Bytes>, c: Bytes)
    ensures Concat(chunks + [c]) == Concat(chunks) + c
  {
    if chunks == [] {
      assert Concat([c]) == c + Concat([]);
    } else {
      assert (chunks + [c])[1..] == chunks[1..] + [c];
      ConcatAppend(chunks[1..], c);
    }
  }

  lemma {:induction false} RepliesAppend(dev: Device, sent: seq<Bytes>, txs: seq<Bytes>, tx: Bytes)
    ensures Replies(dev, sent, txs + [tx]) == Replies(dev, sent, txs) + [dev(sent + txs, tx)]
    decreases |txs|
  {
    if txs == [] {
      assert sent + [] == sent;
      assert Replies(dev, sent, [tx]) == [dev(sent, tx)] + Replies(dev, sent + [tx], []);
    } else {
      assert (txs + [tx])[1..] == txs[1..] + [tx];
      RepliesAppend(dev, sent + [txs[0]], txs[1..], tx);
      assert sent + [txs[0]] + txs[1..] == sent + txs;
    }
  }

  /** The loop before index `i`: `txs` is sent, `got` are the answers, one after the
      other, and each group has landed where it was taken from. */
  ghost predicate Progress(dev: Device, w0: seq<Bytes>, s: Bytes, ndb: nat, groupBy: nat, i: nat,
                           txs: seq<Bytes>, got: Bytes)
    requires 0 < groupBy && ndb + groupBy <= |s|
  {
    && (ndb < groupBy ==> i == 0 || i >= ndb)
    && Transfers(s, ndb, groupBy, 0) == txs + Transfers(s, ndb, groupBy, i)
    && got == Concat(Replies(dev, w0, txs))
    && (|got| == i || i >= ndb == |got|)
  }

  lemma ProgressStep(dev: Device, w0: seq<Bytes>, s: Bytes, ndb: nat, groupBy: nat, i: nat, txs: seq<Bytes>, got: Bytes)
    requires 0 < groupBy && ndb + groupBy <= |s| && i < ndb && Duplex(dev)
    requires Progress(dev, w0, s, ndb, groupBy, i, txs, got)
    ensures |got| == i
    ensures var tx := s[i..i + XferLen(ndb, groupBy)];
      Progress(dev, w0, s, ndb, groupBy, i + groupBy, txs + [tx], got + dev(w0 + txs, tx))
  {
    var tx := s[i..i + XferLen(ndb, groupBy)];
    AnswersStep(dev, w0, txs, tx);
    assert |dev(w0 + txs, tx)| == |tx|;
    TransfersStep(txs, [tx], Transfers(s, ndb, groupBy, i + groupBy));
  }

  lemma AnswersStep(dev: Device, w0: seq<Bytes>, txs: seq<Bytes>, tx: Bytes)
    ensures Concat(Replies(dev, w0, txs + [tx])) == Concat(Replies(dev, w0, txs)) + dev(w0 + txs, tx)
  {
    RepliesAppend(dev, w0, txs, tx);
    ConcatAppend(Replies(dev, w0, txs), dev(w0 + txs, tx));
  }

  lemma TransfersStep(txs: seq<Bytes>, next: seq<Bytes>, rest: seq<Bytes>)
    ensures txs + next + rest == txs + (next + rest)
  {
  }

  /** Everything the buffered message calls for was sent, and `data` is the beginning of
      the device's answers, one after the other. */
  ghost predicate Answered(dev: Device, before: seq<Bytes>, b: Bytes, after: seq<Bytes>, data: Bytes)
    requires |b| == BUFSIZE
  {
    var p := Parse(b);
    if p.ndb == 0 || p.groupBy == 0 then after == before && data == []
    else
      var txs := Transfers(Outgoing(b), p.ndb, p.groupBy, 0);
      after == before + txs && |data| == p.ndb && data <= Concat(Replies(dev, before, txs))
  }

  // ----- The driver ----------------------------------------------------------------------

  /** read_buffer and last_len, which all devices of the module share. */
  class Globals {
    const readBuffer: array<Byte>
    var lastLen: int

    ghost predicate Valid()
      reads this
    {
      readBuffer.Length == BUFSIZE && 0 <= lastLen < 256
    }

    constructor ()
      ensures Valid() && fresh(readBuffer)
    {
      readBuffer := new Byte[BUFSIZE];
      lastLen := 0;
    }
  }

  class SpiPort {
    const globals: Globals
    const buffer: array<Byte>        // the object's transfer buffer
    const chipSelect: bv8
    var mode: bv8

    var wire: seq<Bytes>            // what the device has been sent so far

    ghost predicate Valid()
      reads this, globals
    {
      && globals.Valid() && globals.readBuffer != buffer && buffer.Length == BUFSIZE
    }

    constructor (globals: Globals, chipSelect: bv8)
      requires globals.Valid()
      ensures Valid() && fresh(buffer)
      ensures this.globals == globals && this.chipSelect == chipSelect && wire == []
    {
      this.globals := globals;
      buffer := new Byte[BUFSIZE];
      this.chipSelect, mode := chipSelect, 0;
      wire := [];
    }

    /** omap3_spi_transmit_msg: clears the answer area, sends and stores the answer. */
    method Transmit(dev: Device, p: Params, tx: array<Byte>, at: nat)
      requires Valid() && Duplex(dev) && tx != globals.readBuffer
      requires tx.Length == p.groupBy && 0 <= p.ndb && at + p.groupBy <= BUFSIZE
      modifies globals.readBuffer, this`wire
      ensures var sent := tx[..XferLen(p.ndb, p.groupBy)];
        && wire == old(wire) + [sent]
        && globals.readBuffer[at..at + |sent|] == dev(old(wire), sent)
      ensures globals.readBuffer[..at] == old(globals.readBuffer[..at])
      ensures globals.readBuffer[at + p.groupBy..] == old(globals.readBuffer[at + p.groupBy..])
    {
      var len := if p.ndb < p.groupBy then p.ndb else p.groupBy;
      var sent := tx[..len];
      forall k | at <= k < at + p.groupBy { globals.readBuffer[k] := ZERO; }
      var answer := dev(wire, sent);
      assert |answer| == len;
      forall k | at <= k < at + len { globals.readBuffer[k] := answer[k - at]; }
      wire := wire + [sent];
      assert globals.readBuffer[at..at + len] == answer;
      assert tx[..len] == sent;
    }

    /** The loop of omap3_spi_write_msg: group by group, each answer landing in the read
        buffer at the index of its group, where no later one reaches. */
    method SendAll(dev: Device, p: Params)
      requires Valid() && Duplex(dev) && 0 < p.ndb < 256 && 0 < p.groupBy < 256
      modifies globals.readBuffer, this`wire
      ensures var txs := Transfers(buffer[HEADER..], p.ndb, p.groupBy, 0);
        && wire == old(wire) + txs
        && p.ndb <= |Concat(Replies(dev, old(wire), txs))|
        && globals.readBuffer[..p.ndb] == Concat(Replies(dev, old(wire), txs))[..p.ndb]
    {
      ghost var s := buffer[HEADER..];
      ghost var w0, txs, got := wire, [], [];
      var temp := new Byte[p.groupBy];
      var i := 0;
      while i < p.ndb
        modifies globals.readBuffer, this`wire, temp
        invariant 0 <= i && wire == w0 + txs
        invariant Progress(dev, w0, s, p.ndb, p.groupBy, i, txs, got)
        invariant Landed(got)
        decreases p.ndb - i
      {
        txs, got := SendGroup(dev, p, temp, i, w0, s, txs, got);
        i := i + p.groupBy;
      }
      assert txs + [] == txs;
      assert got[..p.ndb] == globals.readBuffer[..p.ndb];
    }

    /** The answers lie at the start of the read buffer. */
    ghost predicate Landed(got: Bytes)
      reads globals, globals.readBuffer
    {
      |got| <= globals.readBuffer.Length && globals.readBuffer[..|got|] == got
    }

    method CopyGroup(temp: array<Byte>, i: nat)
      requires temp != buffer && HEADER + i + temp.Length <= buffer.Length
      modifies temp
      ensures temp[..] == buffer[HEADER..][i..i + temp.Length]
    {
      forall k | 0 <= k < temp.Length { temp[k] := buffer[HEADER + i + k]; }
    }

    /** Copies a group out and transmits it. */
    method CopyAndTransmit(dev: Device, p: Params, temp: array<Byte>, i: nat)
      requires Valid() && Duplex(dev) && 0 < p.ndb < 256 && 0 < p.groupBy < 256 && i < p.ndb
      requires temp != globals.readBuffer && temp != buffer && temp.Length == p.groupBy
      modifies globals.readBuffer, this`wire, temp
      ensures var tx := buffer[HEADER..][i..i + XferLen(p.ndb, p.groupBy)];
        && wire == old(wire) + [tx]
        && globals.readBuffer[i..i + |tx|] == dev(old(wire), tx)
      ensures globals.readBuffer[..i] == old(globals.readBuffer[..i])
    {
      CopyGroup(temp, i);
      assert temp[..XferLen(p.ndb, p.groupBy)] == buffer[HEADER..][i..i + XferLen(p.ndb, p.groupBy)] by {
        assert temp[..] == buffer[HEADER..][i..i + p.groupBy];
      }
      Transmit(dev, p, temp, i);
    }

    /** One round of the loop: the next group goes out and its answer extends the earlier
        ones. */
    method SendGroup(dev: Device, p: Params, temp: array<Byte>, i: nat, ghost w0: seq<Bytes>, ghost s: Bytes,
                     ghost txs: seq<Bytes>, ghost got: Bytes)
      returns (ghost txs': seq<Bytes>, ghost got': Bytes)
      requires Valid() && Duplex(dev) && 0 < p.ndb < 256 && 0 < p.groupBy < 256 && i < p.ndb
      requires temp != globals.readBuffer && temp != buffer && temp.Length == p.groupBy
      requires s == buffer[HEADER..] && wire == w0 + txs
      requires Progress(dev, w0, s, p.ndb, p.groupBy, i, txs, got) && Landed(got)
      modifies globals.readBuffer, this`wire, temp
      ensures wire == w0 + txs'
      ensures Progress(dev, w0, s, p.ndb, p.groupBy, i + p.groupBy, txs', got') && Landed(got')
    {
      ghost var tx := s[i..i + XferLen(p.ndb, p.groupBy)];
      ProgressStep(dev, w0, s, p.ndb, p.groupBy, i, txs, got);
      TransfersStep(w0, txs, [tx]);
      CopyAndTransmit(dev, p, temp, i);
      txs', got' := txs + [tx], got + dev(w0 + txs, tx);
      Extended(got, dev(w0 + txs, tx));
    }

    /** An answer right behind the earlier ones extends them. */
    lemma Extended(got: Bytes, answer: Bytes)
      requires |got| + |answer| <= globals.readBuffer.Length && globals.readBuffer[..|got|] == got
      requires globals.readBuffer[|got|..|got| + |answer|] == answer
      ensures Landed(got + answer)
    {
    }

    /** omap3_spi_write_msg once the chip select matches. */
    method WriteMsg(dev: Device, p: Params)
      requires Valid() && Duplex(dev)
      requires p == Parse(buffer[..]) && (p.groupBy > 0 || p.ndb == 0)
      modifies globals.readBuffer, buffer, this`wire, globals`lastLen, this`mode
      ensures Valid() && globals.lastLen == p.ndb
      ensures mode == if p.csp then p.mode | SPI_CS_HIGH else p.mode
      ensures Answered(dev, old(wire), old(buffer[..]), wire, globals.readBuffer[..globals.lastLen])
    {
      ghost var b := buffer[..];
      mode := if p.csp then p.mode | SPI_CS_HIGH else p.mode;
      assert b[HEADER..] == buffer[HEADER..];
      if p.lsbf {
        var _ := LsbFirst(buffer, HEADER, p.ndb, p.bpw);
      }
      assert buffer[HEADER..] == Outgoing(b);
      globals.lastLen := p.ndb;
      if p.ndb > 0 {
        SendAll(dev, p);
      }
    }

    /** copy_from_user into a cleared buffer. */
    method Fill(msg: Bytes)
      requires Valid() && |msg| <= BUFSIZE
      modifies buffer
      ensures buffer[..] == Padded(msg)
    {
      forall k | 0 <= k < BUFSIZE { buffer[k] := ZERO; }
      forall k | 0 <= k < |msg| { buffer[k] := msg[k]; }
    }

    /** omap3_spi_write.  An oversized message is ignored but reported as written; one for
        another chip select fails and sends nothing.  A message that asks for data in
        groups of zero would loop for ever, so it is excluded. */
    method Write(dev: Device, msg: Bytes) returns (written: int)
      requires Valid() && Duplex(dev)
      requires |msg| <= BUFSIZE && Parse(Padded(msg)).cs == chipSelect ==>
        Parse(Padded(msg)).groupBy > 0 || Parse(Padded(msg)).ndb == 0
      modifies this, globals, globals.readBuffer, buffer
      ensures Valid()
      ensures |msg| > BUFSIZE || Parse(Padded(msg)).cs != chipSelect ==>
        && written == (if |msg| > BUFSIZE then |msg| else -1)
        && wire == old(wire) && globals.lastLen == old(globals.lastLen)
        && globals.readBuffer[..] == old(globals.readBuffer[..]) && mode == old(mode)
      ensures |msg| <= BUFSIZE && Parse(Padded(msg)).cs == chipSelect ==>
        && written == |msg| && globals.lastLen == Parse(Padded(msg)).ndb
        && mode == Parse(Padded(msg)).mode | (if Parse(Padded(msg)).csp then SPI_CS_HIGH else 0)
        && Answered(dev, old(wire), Padded(msg), wire, globals.readBuffer[..globals.lastLen])
    {
      if BUFSIZE < |msg| {
        return |msg|;
      }
      Fill(msg);
      var p := Parse(buffer[..]);
      if p.cs != chipSelect {
        return -1;
      }
      WriteMsg(dev, p);
      written := |msg|;
    }

    /** omap3_spi_read: hands out as many bytes as the last write asked for. */
    method Read(count: int) returns (read: int, data: Bytes)
      requires Valid()
      ensures read == count && data == globals.readBuffer[..globals.lastLen]
    {
      data := globals.readBuffer[..globals.lastLen];
      read := count;
    }
  }
}
