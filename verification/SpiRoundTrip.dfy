/** What the SPI data path amounts to: how a payload is cut into transfers, what of the
    answers comes back, and that a loopback returns the payload. */
module SpiRoundTrip {
  import opened Arith
  import opened SpiBits
  import opened SpiData

  // ----- Cutting into transfers -------------------------------------------------------

  /** Bytes that go over the bus for a payload of ndb bytes. */
  function OnTheBus(ndb: nat, groupBy: nat): int
    requires groupBy > 0
  {
    if ndb < groupBy then ndb else CeilDiv(ndb, groupBy) * groupBy
  }

  lemma {:induction false} TransfersFrom(s: Bytes, ndb: nat, groupBy: nat, j: nat)
    requires 0 < groupBy <= ndb && ndb + groupBy <= |s| && j <= CeilDiv(ndb, groupBy)
    ensures j * groupBy <= CeilDiv(ndb, groupBy) * groupBy < ndb + groupBy
    ensures |Transfers(s, ndb, groupBy, j * groupBy)| == CeilDiv(ndb, groupBy) - j
    ensures Concat(Transfers(s, ndb, groupBy, j * groupBy)) == s[j * groupBy..CeilDiv(ndb, groupBy) * groupBy]
    decreases CeilDiv(ndb, groupBy) - j
  {
    var n := CeilDiv(ndb, groupBy);
    CeilBounds(ndb, groupBy);
    CeilGalois(ndb, groupBy, j);
    MulMonotone(j, n, groupBy);
    if j < n {
      assert (j + 1) * groupBy == j * groupBy + groupBy;
      TransfersFrom(s, ndb, groupBy, j + 1);
      var i := j * groupBy;
      var rest := Transfers(s, ndb, groupBy, i + groupBy);
      assert Transfers(s, ndb, groupBy, i) == [s[i..i + groupBy]] + rest;
      assert s[i..n * groupBy] == s[i..i + groupBy] + s[i + groupBy..n * groupBy];
    }
  }

  /** Every transfer is a whole group, or all of the payload when that is less. */
  lemma {:induction false} TransferLengths(s: Bytes, ndb: nat, groupBy: nat, i: nat)
    requires 0 < groupBy && ndb + groupBy <= |s|
    ensures forall tx :: tx in Transfers(s, ndb, groupBy, i) ==> |tx| == if ndb < groupBy then ndb else groupBy
    decreases ndb - i
  {
    if i < ndb { TransferLengths(s, ndb, groupBy, i + groupBy); }
  }

  /** A payload of ndb bytes takes ceil(ndb / groupBy) transfers that carry it in order
      and without a gap, with less than a group behind it. */
  lemma TransfersCarryPayload(s: Bytes, ndb: nat, groupBy: nat)
    requires 0 < groupBy && 0 < ndb && ndb + groupBy <= |s|
    ensures |Transfers(s, ndb, groupBy, 0)| == CeilDiv(ndb, groupBy)
    ensures ndb <= OnTheBus(ndb, groupBy) < ndb + groupBy
    ensures Concat(Transfers(s, ndb, groupBy, 0)) == s[..OnTheBus(ndb, groupBy)]
  {
    CeilBounds(ndb, groupBy);
    if groupBy <= ndb {
      assert 0 * groupBy == 0;
      CeilGalois(ndb, groupBy, 0);
      TransfersFrom(s, ndb, groupBy, 0);
    } else {
      DivUnique(ndb + groupBy - 1, groupBy, 1);
      assert Transfers(s, ndb, groupBy, 0) == [s[0..ndb]] + Transfers(s, ndb, groupBy, groupBy);
      assert Concat([s[0..ndb]]) == s[0..ndb] + Concat([]);
    }
  }

  /** The transfers are the payload and nothing else exactly when it is a whole number of
      groups or less than one. */
  lemma NoOvershootIff(s: Bytes, ndb: nat, groupBy: nat)
    requires 0 < groupBy && 0 < ndb && ndb + groupBy <= |s|
    ensures Concat(Transfers(s, ndb, groupBy, 0)) == s[..ndb] <==> ndb % groupBy == 0 || ndb < groupBy
  {
    TransfersCarryPayload(s, ndb, groupBy);
    CeilOrFloor(ndb, groupBy);
    var q := ndb / groupBy;
    assert ndb == q * groupBy + ndb % groupBy;
    assert (q + 1) * groupBy == q * groupBy + groupBy;
    assert |Concat(Transfers(s, ndb, groupBy, 0))| == OnTheBus(ndb, groupBy);
  }

  /** What follows the payload on the bus is zeros, unless the message was longer than
      its count or an odd payload was turned around in words. */
  lemma OvershootIsZero(msg: Bytes, k: nat)
    requires |msg| <= BUFSIZE
    requires var p := Parse(Padded(msg));
      |msg| <= HEADER + p.ndb && p.ndb <= k < BUFSIZE - HEADER && !(p.lsbf && p.bpw == 16 && p.ndb % 2 == 1)
    ensures Outgoing(Padded(msg))[k] == ZERO
  {
  }

  // ----- Answers ------------------------------------------------------------------------

  /** A device that echoes every transfer. */
  function Loopback(): Device {
    (sent, tx) => tx
  }

  lemma {:induction false} LoopbackReplies(sent: seq<Bytes>, txs: seq<Bytes>)
    ensures Replies(Loopback(), sent, txs) == txs
    decreases |txs|
  {
    if txs != [] {
      LoopbackReplies(sent + [txs[0]], txs[1..]);
    }
  }

  /** What the user gave, in the bit order the header asked for. */
  function Payload(b: Bytes): Bytes
    requires |b| == BUFSIZE
  {
    Outgoing(b)[..Parse(b).ndb]
  }

  lemma LoopbackEchoes(before: seq<Bytes>, s: Bytes, ndb: nat, groupBy: nat, data: Bytes)
    requires 0 < groupBy && 0 < ndb && ndb + groupBy <= |s| && |data| == ndb
    requires data <= Concat(Replies(Loopback(), before, Transfers(s, ndb, groupBy, 0)))
    ensures data == s[..ndb]
  {
    LoopbackReplies(before, Transfers(s, ndb, groupBy, 0));
    TransfersCarryPayload(s, ndb, groupBy);
  }

  /** Written to a loopback, a message reads back as its own payload. */
  lemma LoopbackReturnsPayload(before: seq<Bytes>, b: Bytes, after: seq<Bytes>, data: Bytes)
    requires |b| == BUFSIZE && (Parse(b).groupBy > 0 || Parse(b).ndb == 0)
    requires Answered(Loopback(), before, b, after, data)
    ensures data == Payload(b)
  {
    var p := Parse(b);
    if p.ndb > 0 {
      LoopbackEchoes(before, Outgoing(b), p.ndb, p.groupBy, data);
    }
  }

  /** The payload byte for byte: as given when the device is most-significant-bit first
      or the width is neither 8 nor 16, each byte reversed for 8 bits, each pair turned
      round for 16, the last odd byte then coming from behind the payload. */
  lemma PayloadAt(b: Bytes, k: nat)
    requires |b| == BUFSIZE && k < Parse(b).ndb
    ensures var p := Parse(b); var given := b[HEADER..];
      Payload(b)[k] == if !p.lsbf || (p.bpw != 8 && p.bpw != 16) then given[k]
                       else if p.bpw == 8 then Reverse(given[k])
                       else Reverse(given[Partner(k)])
  {
  }

  /** End to end: after a write the read hands out, whatever count it is asked for, the
      first ndb bytes of everything the device answered; from a loopback, the payload. */
  method WriteThenRead(port: SpiPort, dev: Device, msg: Bytes, count: int)
    returns (written: int, read: int, data: Bytes)
    requires port.Valid() && Duplex(dev) && |msg| <= BUFSIZE
    requires Parse(Padded(msg)).cs == port.chipSelect
    requires Parse(Padded(msg)).groupBy > 0 || Parse(Padded(msg)).ndb == 0
    modifies port, port.globals, port.globals.readBuffer, port.buffer
    ensures written == |msg| && read == count
    ensures |data| == Parse(Padded(msg)).ndb
    ensures Answered(dev, old(port.wire), Padded(msg), port.wire, data)
    ensures dev == Loopback() ==> data == Payload(Padded(msg))
  {
    written := port.Write(dev, msg);
    read, data := port.Read(count);
    if dev == Loopback() {
      LoopbackReturnsPayload(old(port.wire), Padded(msg), port.wire, data);
    }
  }

  // ----- The whole way round ---------------------------------------------------------

  /** A message as a user composes it: nine header bytes, then the payload. */
  datatype Request = Request(cs: bv8, mode: bv8, lsbf: bool, csp: bool, bpw: bv8, freqm: bv8, freq2k: bv8, freqk: bv8,
                             ndb: bv8, groupBy: bv8, payload: Bytes)

  ghost predicate WellMade(r: Request) {
    r.cs < 4 && r.mode < 4 && |r.payload| == r.ndb as int && (r.groupBy > 0 || r.payload == [])
  }

  function Control(r: Request): bv8
    requires r.cs < 4 && r.mode < 4
  {
    (r.cs << 4) | (r.mode << 2) | (if r.lsbf then 2 else 0) | (if r.csp then 1 else 0)
  }

  function Header(r: Request): (h: Bytes)
    requires r.cs < 4 && r.mode < 4
    ensures |h| == HEADER
  {
    [ZERO, Byte(Control(r)), Byte(r.bpw), Byte(r.freqm), Byte(r.freq2k), Byte(r.freqk),
     ZERO, Byte(r.ndb), Byte(r.groupBy)]
  }

  function Compose(r: Request): (msg: Bytes)
    requires r.cs < 4 && r.mode < 4
    ensures |msg| == HEADER + |r.payload|
  {
    Header(r) + r.payload
  }

  /** Parsing is the inverse of composing. */
  lemma ParseInvertsCompose(r: Request)
    requires WellMade(r)
    ensures var p := Parse(Padded(Compose(r)));
      && p.cs == r.cs && p.mode == r.mode && p.lsbf == r.lsbf && p.csp == r.csp
      && p.bpw == r.bpw as int && p.groupBy == r.groupBy as int && p.ndb == |r.payload|
      && p.speed == 1_000 * (1_000 * (r.freqm as int) + 100 * (r.freq2k as int) + (r.freqk as int))
    ensures Padded(Compose(r))[HEADER..HEADER + |r.payload|] == r.payload
  {
  }

  /** What the bus carries for a composed message, byte for byte: the payload, with the
      bits of each byte or of each pair in the opposite order if the request asks for it.
      Behind an odd payload taken in pairs lies a zero. */
  lemma ComposedPayloadAt(r: Request, k: nat)
    requires WellMade(r) && k < |r.payload|
    ensures Payload(Padded(Compose(r)))[k] ==
      if !r.lsbf || (r.bpw != 8 && r.bpw != 16) then r.payload[k]
      else if r.bpw == 8 then Reverse(r.payload[k])
      else if Partner(k) < |r.payload| then Reverse(r.payload[Partner(k)])
      else ZERO
  {
    ParseInvertsCompose(r);
    PayloadAt(Padded(Compose(r)), k);
    GivenAt(r, k);
    GivenAt(r, Partner(k));
  }

  lemma GivenAt(r: Request, k: nat)
    requires WellMade(r) && k <= |r.payload|
    ensures Padded(Compose(r))[HEADER..][k] == if k < |r.payload| then r.payload[k] else ZERO
  {
  }

  /** Any payload composed into a message, written to a loopback and read back, comes back
      in the bit order the request asked for: without a change of order, as it was. */
  method RoundTrip(port: SpiPort, r: Request, count: int) returns (data: Bytes)
    requires port.Valid() && WellMade(r) && r.cs == port.chipSelect
    modifies port, port.globals, port.globals.readBuffer, port.buffer
    ensures data == Payload(Padded(Compose(r))) && |data| == |r.payload|
    ensures !r.lsbf ==> data == r.payload
  {
    ParseInvertsCompose(r);
    var _, _, d := WriteThenRead(port, Loopback(), Compose(r), count);
    data := d;
  }
}
