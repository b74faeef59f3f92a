/** Two devices of spi_driver.c at once: read_buffer and last_len belong to the module,
    so what a read hands out depends on who wrote last. */
module SpiShared {
  import opened SpiBits
  import opened SpiData

  /** A write to the first or the second device. */
  datatype Call = Call(second: bool, msg: Bytes)

  /** The write is neither too long nor for another chip select. */
  predicate Accepted(c: Call, cs: (bv8, bv8)) {
    |c.msg| <= BUFSIZE && Parse(Padded(c.msg)).cs == (if c.second then cs.1 else cs.0)
  }

  /** The last write that was accepted, if one was. */
  function LastAccepted(calls: seq<Call>, cs: (bv8, bv8)): (k: int)
    ensures -1 <= k < |calls|
  {
    if calls == [] then -1
    else
      var k := |calls| - 1;
      if Accepted(calls[k], cs) then k else LastAccepted(calls[..k], cs)
  }

  /** That is the one with none accepted behind it. */
  lemma {:induction false} LastAcceptedIff(calls: seq<Call>, cs: (bv8, bv8), k: nat)
    requires k < |calls|
    ensures LastAccepted(calls, cs) == k
      <==> Accepted(calls[k], cs) && forall j :: k < j < |calls| ==> !Accepted(calls[j], cs)
    decreases |calls|
  {
    var n := |calls| - 1;
    if k < n && !Accepted(calls[n], cs) {
      LastAcceptedIff(calls[..n], cs, k);
    }
  }

  /** Every write comes to an end. */
  ghost predicate Ends(c: Call, cs: (bv8, bv8)) {
    Accepted(c, cs) ==> Parse(Padded(c.msg)).groupBy > 0 || Parse(Padded(c.msg)).ndb == 0
  }

  ghost predicate Apart(a: SpiPort, b: SpiPort) {
    a != b && a.globals == b.globals && a.buffer != b.buffer
  }

  /** What a read would hand out is the answer of the device written to last, wherever
      it is read from; `before` is what that device had been sent until then. */
  ghost predicate Reads(a: SpiPort, b: SpiPort, dev: (Device, Device), c: Call, before: seq<Bytes>, data: Bytes)
    reads a, b
  {
    |c.msg| <= BUFSIZE
    && if c.second then Answered(dev.1, before, Padded(c.msg), b.wire, data)
       else Answered(dev.0, before, Padded(c.msg), a.wire, data)
  }

  method WriteOne(a: SpiPort, b: SpiPort, dev: (Device, Device), c: Call)
    requires Apart(a, b) && a.Valid() && b.Valid() && Duplex(dev.0) && Duplex(dev.1)
    requires Ends(c, (a.chipSelect, b.chipSelect))
    modifies a, b, a.globals, a.globals.readBuffer, a.buffer, b.buffer
    ensures a.Valid() && b.Valid()
    ensures Accepted(c, (a.chipSelect, b.chipSelect)) ==>
      Reads(a, b, dev, c, if c.second then old(b.wire) else old(a.wire), a.globals.readBuffer[..a.globals.lastLen])
    ensures !Accepted(c, (a.chipSelect, b.chipSelect)) ==>
      && a.wire == old(a.wire) && b.wire == old(b.wire)
      && a.globals.readBuffer[..a.globals.lastLen] == old(a.globals.readBuffer[..a.globals.lastLen])
  {
    if c.second {
      var _ := b.Write(dev.1, c.msg);
    } else {
      var _ := a.Write(dev.0, c.msg);
    }
  }

  /** After any interleaving of writes to two devices, a read from either hands out the
      answers to the last write that was accepted, of whichever device that was, and what
      lay there before if none was.  So a device reads its own answers back exactly when
      no write to the other was accepted since. */
  method WritesThenRead(a: SpiPort, b: SpiPort, dev: (Device, Device), calls: seq<Call>, fromSecond: bool, count: int)
    returns (data: Bytes, ghost before: seq<Bytes>)
    requires Apart(a, b) && a.Valid() && b.Valid() && Duplex(dev.0) && Duplex(dev.1)
    requires forall c :: c in calls ==> Ends(c, (a.chipSelect, b.chipSelect))
    modifies a, b, a.globals, a.globals.readBuffer, a.buffer, b.buffer
    ensures a.Valid() && b.Valid()
    ensures var k := LastAccepted(calls, (a.chipSelect, b.chipSelect));
      if k < 0 then data == old(a.globals.readBuffer[..a.globals.lastLen])
      else Reads(a, b, dev, calls[k], before, data)
  {
    ghost var cs := (a.chipSelect, b.chipSelect);
    ghost var was := a.globals.readBuffer[..a.globals.lastLen];
    before := [];
    for i := 0 to |calls|
      invariant a.Valid() && b.Valid()
      invariant var k := LastAccepted(calls[..i], cs);
        if k < 0 then a.globals.readBuffer[..a.globals.lastLen] == was
        else Reads(a, b, dev, calls[k], before, a.globals.readBuffer[..a.globals.lastLen])
    {
      assert calls[..i + 1][..i] == calls[..i];
      if Accepted(calls[i], cs) {
        before := if calls[i].second then b.wire else a.wire;
      }
      WriteOne(a, b, dev, calls[i]);
    }
    assert calls[..|calls|] == calls;
    if fromSecond {
      var _, d := b.Read(count);
      data := d;
    } else {
      var _, d := a.Read(count);
      data := d;
    }
  }
}
