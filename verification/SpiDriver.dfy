/** The entry points of spi_driver.c that manage objects: omap3_spi_probe, _open,
    _release and _remove.

    Kernel memory is explicit: `objects` and `buffers` are the live allocations, every
    use of a pointer is a lookup that Dafny checks, and kfree demands a live argument,
    so the methods verifying means no use after free and no double free. */
module SpiDriver {
  import opened Options
  import L = SpiLife
  import K = SpiKernel

  const ENOMEM := 12

  /** struct spidrv_data.  `devt` is the minor; the major is that of every node. */
  datatype Spidrv = Spidrv(devt: int, spi: Option<int>, users: int, buffer: Option<int>)

  ghost predicate Distinct(s: seq<int>) {
    forall i, j :: 0 <= i < j < |s| ==> s[i] != s[j]
  }

  /** list_del. */
  function Unlinked(list: seq<int>, o: int): (r: seq<int>)
    ensures forall p :: p in r <==> p in list && p != o
    ensures Distinct(list) ==> Distinct(r)
  {
    if list == [] then []
    else if list[0] == o then Unlinked(list[1..], o)
    else
      var r := [list[0]] + Unlinked(list[1..], o);
      assert Distinct(list) ==> list[0] !in list[1..];
      r
  }

  function At(m: map<int, int>, o: int): Option<int> {
    if o in m then Some(m[o]) else None
  }

  /** The fields of an object are what the world says of it: `users` counts its open
      files, and `spi` and `devt` are those of the list entry. */
  ghost predicate Faithful(o: int, s: Spidrv, w: L.World, bufferOf: map<int, int>, leaked: set<int>) {
    && s.users == |L.FilesOf(w.files, o)|
    && s.buffer == At(bufferOf, o)
    && (o !in leaked ==> s.spi == At(w.devOf, o))
    && (o in w.minorOf ==> s.devt == w.minorOf[o])
  }

  ghost predicate AllFaithful(objects: map<int, Spidrv>, live: set<int>, w: L.World, bufferOf: map<int, int>,
                              leaked: set<int>)
  {
    && objects.Keys == live
    && (forall o :: o in objects ==> Faithful(o, objects[o], w, bufferOf, leaked))
  }

  ghost predicate ObjectsFaithful(objects: map<int, Spidrv>, k: K.Kernel) {
    AllFaithful(objects, k.live, k.world, k.bufferOf, k.leaked)
  }

  ghost predicate BitmapOk(minors: seq<bool>, owners: map<int, int>) {
    |minors| == L.N_MINORS && forall m :: 0 <= m < L.N_MINORS ==> (minors[m] <==> m in owners)
  }

  ghost predicate ListOk(list: seq<int>, minorOf: map<int, int>) {
    Distinct(list) && forall o :: o in list <==> o in minorOf
  }

  // ----- The driver's memory as a value -----------------------------------------------

  /** Everything the driver keeps; the last two fields are totals of the frees. */
  datatype Memory = Memory(
    minors: seq<bool>,
    list: seq<int>,
    objects: map<int, Spidrv>,
    buffers: set<int>,
    drvdata: map<int, int>,
    files: map<int, int>,
    locked: bool,
    nextObject: int,
    nextBuffer: int,
    kfreed: multiset<int>,
    bufKfreed: multiset<int>)

  /** The memory stores the world. */
  ghost predicate Agrees(k: K.Kernel, m: Memory) {
    && K.Ok(k)
    && BitmapOk(m.minors, k.owners)
    && ListOk(m.list, k.world.minorOf)
    && ObjectsFaithful(m.objects, k)
    && m.buffers == k.holderOf.Keys
    && m.drvdata == k.drvdata && m.files == k.world.files && m.locked == k.world.stuck
    && m.nextObject == k.world.next && m.nextBuffer == k.nextBuffer
    && m.kfreed == k.kfreed && m.bufKfreed == k.bufKfreed
  }

  /** The same, written like K.Ok so that the methods carry it along folded. */
  ghost predicate Stores(k: K.Kernel, m: Memory) {
    forall n {:trigger Picked(n)} :: Picked(n) && n == m ==> Agrees(k, n)
  }

  ghost predicate Picked(m: Memory) {
    true
  }

  lemma UseStores(k: K.Kernel, m: Memory)
    requires Stores(k, m)
    ensures Agrees(k, m)
  {
    assert Picked(m);
  }

  // ----- What each call does to the memory ----------------------------------------------

  function Created(m: Memory, dev: int, minor: int): Memory
    requires 0 <= minor < |m.minors|
  {
    m.(minors := m.minors[minor := true], list := [m.nextObject] + m.list,
       objects := m.objects[m.nextObject := Spidrv(minor, Some(dev), 0, None)],
       drvdata := m.drvdata[dev := m.nextObject], nextObject := m.nextObject + 1)
  }

  function Discarded(m: Memory): Memory {
    m.(nextObject := m.nextObject + 1, kfreed := m.kfreed + multiset{m.nextObject})
  }

  function Stranded(m: Memory, dev: int): Memory {
    m.(objects := m.objects[m.nextObject := Spidrv(0, Some(dev), 0, None)],
       nextObject := m.nextObject + 1, locked := true)
  }

  function Attached(m: Memory, f: int, o: int): Memory
    requires o in m.objects
  {
    var held := m.objects[o].buffer.Some?;
    m.(files := m.files[f := o],
       objects := m.objects[o := WithUser(m.objects[o], m.nextBuffer)],
       buffers := if held then m.buffers else m.buffers + {m.nextBuffer},
       nextBuffer := if held then m.nextBuffer else m.nextBuffer + 1)
  }

  function WithUser(s: Spidrv, nextBuffer: int): Spidrv {
    s.(users := s.users + 1, buffer := if s.buffer.Some? then s.buffer else Some(nextBuffer))
  }

  function Detached(m: Memory, f: int): Memory
    requires f in m.files && m.files[f] in m.objects && m.objects[m.files[f]].buffer.Some?
  {
    var o := m.files[f];
    var s := m.objects[o];
    var last := s.users <= 1;
    var gone := last && s.spi.None?;
    m.(files := m.files - {f},
       objects := if gone then m.objects - {o} else m.objects[o := WithoutUser(s)],
       buffers := if last then m.buffers - {s.buffer.value} else m.buffers,
       bufKfreed := if last then m.bufKfreed + multiset{s.buffer.value} else m.bufKfreed,
       kfreed := if gone then m.kfreed + multiset{o} else m.kfreed)
  }

  function WithoutUser(s: Spidrv): Spidrv {
    s.(users := s.users - 1, buffer := if s.users <= 1 then None else s.buffer)
  }

  function Unlisted(m: Memory, dev: int): Memory
    requires dev in m.drvdata && m.drvdata[dev] in m.objects && 0 <= m.objects[m.drvdata[dev]].devt < |m.minors|
  {
    var o := m.drvdata[dev];
    var s := m.objects[o];
    m.(drvdata := m.drvdata - {dev}, list := Unlinked(m.list, o), minors := m.minors[s.devt := false],
       objects := if s.users == 0 then m.objects - {o} else m.objects[o := s.(spi := None)],
       kfreed := if s.users == 0 then m.kfreed + multiset{o} else m.kfreed)
  }

  // ----- The memory keeps storing the world ----------------------------------------------

  lemma NewIsUnheld(k: K.Kernel)
    requires K.Ok(k)
    ensures k.world.next !in k.live && k.world.next !in k.world.minorOf && k.world.next !in k.world.devOf
    ensures k.world.next !in k.bufferOf && L.FilesOf(k.world.files, k.world.next) == {}
  {
    K.UseOk(k);
    K.LedgerNew(k.live, k.world.next, k.kfreed);
    L.HeldIff(k.world.files, k.world.next);
  }

  lemma BindFaithful(objects: map<int, Spidrv>, k: K.Kernel, dev: int, minor: int)
    requires ObjectsFaithful(objects, k) && k.world.next !in k.bufferOf && L.FilesOf(k.world.files, k.world.next) == {}
    ensures ObjectsFaithful(objects[k.world.next := Spidrv(minor, Some(dev), 0, None)], K.Bind(k, dev, minor))
  {
  }

  lemma BindList(list: seq<int>, minorOf: map<int, int>, o: int, minor: int)
    requires ListOk(list, minorOf) && o !in minorOf
    ensures ListOk([o] + list, minorOf[o := minor])
  {
  }

  lemma CreatedStores(k: K.Kernel, m: Memory, dev: int, minor: int)
    requires Stores(k, m) && !k.world.stuck && dev !in k.drvdata && 0 <= minor < L.N_MINORS && minor !in k.owners
    ensures |m.minors| == L.N_MINORS && Stores(K.Bind(k, dev, minor), Created(m, dev, minor))
  {
    UseStores(k, m);
    NewIsUnheld(k);
    K.BindOk(k, dev, minor);
    BindFaithful(m.objects, k, dev, minor);
    BindList(m.list, k.world.minorOf, k.world.next, minor);
  }

  lemma DiscardedStores(k: K.Kernel, m: Memory)
    requires Stores(k, m) && !k.world.stuck
    ensures m.nextObject !in m.objects && Stores(K.Discard(k), Discarded(m))
  {
    UseStores(k, m);
    NewIsUnheld(k);
    K.DiscardOk(k);
    assert ObjectsFaithful(m.objects, K.Discard(k));
  }

  lemma StrandFaithful(objects: map<int, Spidrv>, k: K.Kernel, s: Spidrv)
    requires ObjectsFaithful(objects, k) && k.leaked == {} && k.world.next !in k.world.minorOf
    requires k.world.next !in k.bufferOf && L.FilesOf(k.world.files, k.world.next) == {}
    requires s.users == 0 && s.buffer.None?
    ensures ObjectsFaithful(objects[k.world.next := s], K.Strand(k))
  {
  }

  lemma StrandedStores(k: K.Kernel, m: Memory, dev: int)
    requires Stores(k, m) && !k.world.stuck
    ensures Stores(K.Strand(k), Stranded(m, dev))
  {
    UseStores(k, m);
    NewIsUnheld(k);
    K.Unstuck(k);
    K.StrandOk(k);
    StrandFaithful(m.objects, k, Spidrv(0, Some(dev), 0, None));
  }

  lemma AttachFaithful(objects: map<int, Spidrv>, live: set<int>, w: L.World, bufferOf: map<int, int>, leaked: set<int>,
                       f: int, o: int, b: int)
    requires AllFaithful(objects, live, w, bufferOf, leaked) && o in live && f !in w.files
    ensures AllFaithful(objects[o := WithUser(objects[o], b)], live, w.(files := w.files[f := o]),
                        if o in bufferOf then bufferOf else bufferOf[o := b], leaked)
  {
    L.OneFileMore(w.files, f, o);
    assert Faithful(o, objects[o], w, bufferOf, leaked);
  }

  lemma AttachedStores(k: K.Kernel, m: Memory, f: int, o: int)
    requires Stores(k, m) && !k.world.stuck && o in k.world.minorOf && f !in k.world.files
    ensures o in m.objects && Stores(K.Attach(k, f, o), Attached(m, f, o))
    ensures m.objects[o].buffer.None? <==> o !in k.world.files.Values
  {
    UseStores(k, m);
    K.ListedIsOwner(k, o);
    K.Unstuck(k);
    K.AttachOk(k, f, o);
    AttachFaithful(m.objects, k.live, k.world, k.bufferOf, k.leaked, f, o, k.nextBuffer);
    assert Faithful(o, m.objects[o], k.world, k.bufferOf, k.leaked);
  }

  lemma DetachFaithful(objects: map<int, Spidrv>, live: set<int>, w: L.World, bufferOf: map<int, int>, f: int)
    requires AllFaithful(objects, live, w, bufferOf, {}) && f in w.files && w.files[f] in live
    ensures var o := w.files[f];
      var last := K.LastFile(w.files, f);
      var gone := last && o !in w.devOf;
      && (last <==> objects[o].users <= 1) && objects[o].users >= 1
      && AllFaithful(if gone then objects - {o} else objects[o := WithoutUser(objects[o])],
                     if gone then live - {o} else live, w.(files := w.files - {f}),
                     if last then bufferOf - {o} else bufferOf, {})
  {
    L.OneFileLess(w.files, f);
    assert Faithful(w.files[f], objects[w.files[f]], w, bufferOf, {});
  }

  lemma DetachedStores(k: K.Kernel, m: Memory, f: int)
    requires Stores(k, m) && !k.world.stuck && f in k.world.files
    ensures f in m.files && m.files[f] == k.world.files[f] && m.files[f] in m.objects && m.files[f] in k.bufferOf
    ensures m.objects[m.files[f]].buffer.Some? && m.objects[m.files[f]].buffer.value in m.buffers
    ensures m.objects[m.files[f]].users >= 1
    ensures Stores(K.Detach(k, f), Detached(m, f))
  {
    UseStores(k, m);
    K.Unstuck(k);
    K.HeldIsBuffered(k, f);
    K.DetachOk(k, f);
    DetachFaithful(m.objects, k.live, k.world, k.bufferOf, f);
    assert Faithful(m.files[f], m.objects[m.files[f]], k.world, k.bufferOf, k.leaked);
  }

  lemma UnbindFaithful(objects: map<int, Spidrv>, live: set<int>, w: L.World, bufferOf: map<int, int>, o: int)
    requires AllFaithful(objects, live, w, bufferOf, {}) && o in live && bufferOf.Keys == w.files.Values
    ensures objects[o].users == 0 <==> o !in bufferOf
    ensures AllFaithful(if o in bufferOf then objects[o := objects[o].(spi := None)] else objects - {o},
                        if o in bufferOf then live else live - {o}, L.Unbind(w, o), bufferOf, {})
  {
    assert Faithful(o, objects[o], w, bufferOf, {});
    L.HeldIff(w.files, o);
  }

  lemma UnbindBitmap(k: K.Kernel, m: Memory, dev: int)
    requires BitmapOk(m.minors, k.owners) && ListOk(m.list, k.world.minorOf)
    requires dev in k.drvdata && k.drvdata[dev] in k.world.minorOf
    ensures var minor := k.world.minorOf[k.drvdata[dev]];
      0 <= minor < |m.minors| ==> BitmapOk(m.minors[minor := false], K.Unbind(k, dev).owners)
    ensures ListOk(Unlinked(m.list, k.drvdata[dev]), K.Unbind(k, dev).world.minorOf)
  {
  }

  lemma UnlistedStores(k: K.Kernel, m: Memory, dev: int)
    requires Stores(k, m) && !k.world.stuck && dev in k.drvdata
    ensures dev in m.drvdata && m.drvdata[dev] == k.drvdata[dev]
    ensures m.drvdata[dev] in m.objects && 0 <= m.objects[m.drvdata[dev]].devt < |m.minors|
    ensures k.drvdata[dev] in k.world.minorOf
    ensures Stores(K.Unbind(k, dev), Unlisted(m, dev))
  {
    UseStores(k, m);
    K.Unstuck(k);
    K.BoundIff(k, dev);
    K.UnbindOk(k, dev);
    var o := k.drvdata[dev];
    assert Faithful(o, m.objects[o], k.world, k.bufferOf, k.leaked);
    UnbindFaithful(m.objects, k.live, k.world, k.bufferOf, o);
    UnbindBitmap(k, m, dev);
  }

  /** Writing an entry twice, or writing and then dropping it. */
  lemma Overwrite(m: map<int, Spidrv>, o: int, x: Spidrv, y: Spidrv)
    ensures m[o := x][o := y] == m[o := y]
    ensures m[o := x] - {o} == m - {o}
    ensures o !in m ==> m - {o} == m
  {
  }

  // ----- The driver -----------------------------------------------------------------------

  class SpiDriver {
    var minors: seq<bool>           // bitmap of the minors in use
    var deviceList: seq<int>        // newest first, as list_add leaves it
    var objects: map<int, Spidrv>   // kzalloc'd and not yet kfree'd
    var buffers: set<int>           // transfer buffers, likewise
    var drvdata: map<int, int>      // spi_device -> its driver data, when not NULL
    var files: map<int, int>        // open file -> its private_data
    var listLocked: bool            // device_list_lock, between calls
    var nextObject: int
    var nextBuffer: int

    ghost var kfreed: multiset<int>
    ghost var bufKfreed: multiset<int>
    ghost var k: K.Kernel

    ghost function View(): L.World
      reads this
    {
      k.world
    }

    ghost function Mem(): Memory
      reads this
    {
      Memory(minors, deviceList, objects, buffers, drvdata, files, listLocked, nextObject, nextBuffer,
             kfreed, bufKfreed)
    }

    ghost predicate Valid()
      reads this
    {
      Stores(k, Mem())
    }

    constructor ()
      ensures Valid() && View() == L.NOTHING
    {
      minors := seq(L.N_MINORS, _ => false);
      deviceList, objects, buffers, drvdata, files := [], map[], {}, map[], map[];
      listLocked, nextObject, nextBuffer := false, 0, 0;
      kfreed, bufKfreed := multiset{}, multiset{};
      k := K.Kernel(L.NOTHING, {}, map[], map[], map[], map[], 0, multiset{}, multiset{}, {});
    }

    /** Valid, unfolded. */
    lemma Explained()
      requires Valid()
      ensures Agrees(k, Mem()) && K.AllOk(k)
    {
      UseStores(k, Mem());
      K.UseOk(k);
    }

    /** What holds between any two calls: `users` counts the open files, a buffer is
        there exactly while there are users, an object is live exactly while it is
        listed or held (or was abandoned with the lock), a minor's bit is set exactly
        while one listed object has it, an object and its device name each other, and
        everything allocated and no longer live was freed exactly once.  The world of the
        theorems over runs is read off the same fields. */
    lemma Invariant()
      requires Valid()
      ensures forall o :: o in objects ==>
        && objects[o].users == |L.FilesOf(files, o)|
        && (objects[o].buffer.Some? <==> objects[o].users > 0)
        && (objects[o].buffer.Some? ==> objects[o].buffer.value in buffers)
      ensures !listLocked ==> forall o :: o in objects <==> o in deviceList || o in files.Values
      ensures forall o :: o in deviceList ==>
        o in objects && 0 <= objects[o].devt < |minors| && minors[objects[o].devt] && objects[o].spi.Some?
      ensures forall o, p :: o in deviceList && p in deviceList && o in objects && p in objects ==>
        (objects[o].devt == objects[p].devt <==> o == p)
      ensures forall m :: 0 <= m < |minors| ==>
        (minors[m] <==> exists o :: o in deviceList && o in objects && objects[o].devt == m)
      ensures forall o, p :: o in objects && p in objects && objects[o].buffer.Some? ==>
        (objects[o].buffer == objects[p].buffer <==> o == p)
      ensures forall f :: f in files ==> files[f] in objects
      ensures !listLocked ==> forall o :: o in objects ==> (objects[o].spi.Some? <==> o in deviceList)
      ensures forall o :: o in deviceList && o in objects && objects[o].spi.Some? ==>
        objects[o].spi.value in drvdata && drvdata[objects[o].spi.value] == o
      ensures forall dev :: dev in drvdata ==>
        drvdata[dev] in deviceList && drvdata[dev] in objects && objects[drvdata[dev]].spi == Some(dev)
      ensures View().files == files && View().next == nextObject && View().stuck == listLocked
      ensures forall o :: o in deviceList <==> o in View().minorOf
      ensures forall o :: o in deviceList && o in objects ==>
        o in View().minorOf && objects[o].devt == View().minorOf[o]
        && o in View().devOf && objects[o].spi == Some(View().devOf[o])
      ensures forall o :: 0 <= o < nextObject ==> kfreed[o] == if o in objects then 0 else 1
      ensures forall b :: 0 <= b < nextBuffer ==> bufKfreed[b] == if b in buffers then 0 else 1
    {
      Explained();
      forall o | o in objects
        ensures objects[o].users == |L.FilesOf(files, o)|
        ensures objects[o].buffer.Some? <==> objects[o].users > 0
        ensures objects[o].buffer.Some? ==> objects[o].buffer.value in buffers
      {
        assert Faithful(o, objects[o], k.world, k.bufferOf, k.leaked);
        L.HeldIff(files, o);
      }
      forall o | o in deviceList
        ensures o in objects && objects[o].devt == k.world.minorOf[o] && k.world.minorOf[o] in k.owners
        ensures objects[o].spi.Some?
        ensures forall p :: p in k.world.minorOf && k.world.minorOf[p] == k.world.minorOf[o] ==> p == o
      {
        K.ListedIsOwner(k, o);
        assert Faithful(o, objects[o], k.world, k.bufferOf, k.leaked);
      }
      forall dev | dev in drvdata
        ensures drvdata[dev] in deviceList && objects[drvdata[dev]].spi == Some(dev)
      {
        assert K.Entry(k.drvdata, dev);
        K.ListedIsOwner(k, drvdata[dev]);
        assert Faithful(drvdata[dev], objects[drvdata[dev]], k.world, k.bufferOf, k.leaked);
      }
      forall m | 0 <= m < |minors| && minors[m]
        ensures exists o :: o in deviceList && o in objects && objects[o].devt == m
      {
        K.OwnedIff(k, m);
        var o :| o in k.world.minorOf && k.world.minorOf[o] == m;
        assert o in deviceList && objects[o].devt == m;
      }
    }

    method Kfree(o: int)
      requires o in objects
      modifies this`objects, this`kfreed
      ensures objects == old(objects) - {o} && kfreed == old(kfreed) + multiset{o}
    {
      objects := objects - {o};
      kfreed := kfreed + multiset{o};
    }

    method KfreeBuffer(b: int)
      requires b in buffers
      modifies this`buffers, this`bufKfreed
      ensures buffers == old(buffers) - {b} && bufKfreed == old(bufKfreed) + multiset{b}
    {
      buffers := buffers - {b};
      bufKfreed := bufKfreed + multiset{b};
    }

    /** find_first_zero_bit: the least free minor, or 32. */
    method FirstZeroBit() returns (minor: int)
      requires Valid()
      ensures L.LeastFree(View(), minor)
      ensures minor < L.N_MINORS ==> minor !in k.owners
    {
      Explained();
      minor := 0;
      while minor < L.N_MINORS && minors[minor]
        invariant 0 <= minor <= L.N_MINORS
        invariant forall m: int | 0 <= m < minor :: L.Taken(View(), m)
      {
        K.OwnedIff(k, minor);
        minor := minor + 1;
      }
      K.OwnedIff(k, minor);
    }

    /** `created` is the status of device_create, 0 or a negative errno. */
    method Probe(spi: Option<int>, created: int) returns (status: int)
      requires Valid() && !listLocked && created <= 0
      requires spi.Some? ==> spi.value !in drvdata
      modifies this
      ensures Valid()
      ensures spi.None? ==> status == -1 && View() == old(View())
      ensures spi.Some? ==> L.ProbeStep(old(View()), spi.value, created, View())
      ensures spi.Some? ==> (status == 0 <==> spi.value in drvdata)
    {
      if spi.None? {
        return -1;
      }
      var minor := FirstZeroBit();
      if minor == L.N_MINORS {
        Exhausted(spi.value);
        status := -1;
      } else {
        Create(spi.value, minor, created);
        status := created;
      }
    }

    /** A probe that finds no minor returns with the lock held and leaves its object
        behind. */
    method Exhausted(dev: int)
      requires Valid() && !listLocked
      modifies this
      ensures Valid() && View() == old(View()).(next := old(View()).next + 1, stuck := true)
      ensures drvdata == old(drvdata)
    {
      Synced();
      StrandedStores(k, Mem(), dev);
      objects := objects[nextObject := Spidrv(0, Some(dev), 0, None)];
      nextObject := nextObject + 1;
      listLocked := true;
      k := K.Strand(k);
    }

    /** A probe once it has its minor: the object is listed and bound, or freed if its
        node could not be created. */
    method Create(dev: int, minor: int, created: int)
      requires Valid() && !listLocked && dev !in drvdata && 0 <= minor < L.N_MINORS && minor !in k.owners
      modifies this
      ensures Valid()
      ensures View() ==
        if created == 0 then L.Bind(old(View()), dev, minor) else old(View()).(next := old(View()).next + 1)
      ensures dev in drvdata <==> created == 0
    {
      Synced();
      ghost var m := Mem();
      BitmapSize();
      var o := Kzalloc(dev, minor);
      if created == 0 {
        CreatedStores(k, m, dev, minor);
        Register(o, dev, minor);
        k := K.Bind(k, dev, minor);
        assert Mem() == Created(m, dev, minor);
      } else {
        DiscardedStores(k, m);
        Overwrite(m.objects, o, objects[o], objects[o]);
        Kfree(o);
        k := K.Discard(k);
        assert Mem() == Discarded(m);
      }
    }

    lemma BitmapSize()
      requires Valid()
      ensures |minors| == L.N_MINORS
    {
      UseStores(k, Mem());
    }

    /** A zeroed object that is then given its device and minor. */
    method Kzalloc(dev: int, minor: int) returns (o: int)
      modifies this`objects, this`nextObject
      ensures o == old(nextObject) && nextObject == o + 1
      ensures objects == old(objects)[o := Spidrv(minor, Some(dev), 0, None)]
    {
      o := nextObject;
      nextObject := nextObject + 1;
      Overwrite(objects, o, Spidrv(0, Some(dev), 0, None), Spidrv(minor, Some(dev), 0, None));
      objects := objects[o := Spidrv(0, Some(dev), 0, None)];
      objects := objects[o := objects[o].(devt := minor)];
    }

    /** set_bit, list_add and spi_set_drvdata. */
    method Register(o: int, dev: int, minor: int)
      requires 0 <= minor < |minors|
      modifies this`minors, this`deviceList, this`drvdata
      ensures minors == old(minors)[minor := true] && deviceList == [o] + old(deviceList)
      ensures drvdata == old(drvdata)[dev := o]
    {
      minors := minors[minor := true];
      deviceList := [o] + deviceList;
      drvdata := drvdata[dev := o];
    }

    /** The list search of open: the object listed for the minor, if there is one. */
    method FindDevice(minor: int) returns (found: Option<int>)
      requires Valid()
      ensures found.Some? <==> L.Taken(View(), minor)
      ensures found.Some? ==> found.value in View().minorOf && View().minorOf[found.value] == minor
    {
      var i := 0;
      while i < |deviceList|
        invariant 0 <= i <= |deviceList|
        invariant forall o :: o in deviceList[..i] ==> o in View().minorOf && View().minorOf[o] != minor
      {
        ListedMinor(deviceList[i]);
        if objects[deviceList[i]].devt == minor {
          return Some(deviceList[i]);
        }
        assert deviceList[..i + 1] == deviceList[..i] + [deviceList[i]];
        i := i + 1;
      }
      assert deviceList[..i] == deviceList;
      AllListed();
      found := None;
    }

    lemma AllListed()
      requires Valid()
      ensures forall o :: o in View().minorOf ==> o in deviceList
    {
      UseStores(k, Mem());
    }

    lemma ListedMinor(o: int)
      requires Valid() && o in deviceList
      ensures o in objects && o in View().minorOf && objects[o].devt == View().minorOf[o]
    {
      UseStores(k, Mem());
      K.ListedIsOwner(k, o);
      assert Faithful(o, objects[o], k.world, k.bufferOf, k.leaked);
    }

    /** The fields that the tables share with the world. */
    lemma Synced()
      requires Valid()
      ensures drvdata == k.drvdata && files == k.world.files && listLocked == k.world.stuck
      ensures nextObject == k.world.next && nextBuffer == k.nextBuffer && K.Ok(k)
    {
      UseStores(k, Mem());
    }

    /** `memory` says whether kmalloc would find room for a buffer. */
    method Open(file: int, minor: int, memory: bool) returns (status: int)
      requires Valid() && !listLocked && file !in files
      modifies this
      ensures Valid()
      ensures L.OpenStep(old(View()), file, minor, memory, View())
      ensures status == 0 <==> file in files
      ensures status == -1 <==> !L.Taken(View(), minor)
      ensures status == 0 || status == -1 || status == -ENOMEM
    {
      var found := FindDevice(minor);
      if found.None? {
        return -1;
      }
      var o := found.value;
      Synced();
      AttachedStores(k, Mem(), file, o);
      if objects[o].buffer.None? && !memory {
        return -ENOMEM;
      }
      AddUser(file, o);
      status := 0;
    }

    /** Gives the object its buffer with its first user, and the file the object. */
    method AddUser(file: int, o: int)
      requires Valid() && !listLocked && file !in files && o in k.world.minorOf
      modifies this
      ensures Valid()
      ensures View() == old(View()).(files := old(View()).files[file := o]) && file in files
    {
      Synced();
      AttachedStores(k, Mem(), file, o);
      ghost var m := Mem();
      CountUser(o);
      files := files[file := o];
      k := K.Attach(k, file, o);
      assert Mem() == Attached(m, file, o);
    }

    method CountUser(o: int)
      requires o in objects
      modifies this`objects, this`buffers, this`nextBuffer
      ensures objects == old(objects)[o := WithUser(old(objects)[o], old(nextBuffer))]
      ensures old(objects)[o].buffer.Some? ==> buffers == old(buffers) && nextBuffer == old(nextBuffer)
      ensures old(objects)[o].buffer.None? ==>
        buffers == old(buffers) + {old(nextBuffer)} && nextBuffer == old(nextBuffer) + 1
    {
      ghost var was := objects;
      if objects[o].buffer.None? {
        buffers := buffers + {nextBuffer};
        objects := objects[o := objects[o].(buffer := Some(nextBuffer))];
        nextBuffer := nextBuffer + 1;
      }
      Overwrite(was, o, objects[o], objects[o].(users := objects[o].users + 1));
      objects := objects[o := objects[o].(users := objects[o].users + 1)];
    }

    method Release(file: int) returns (status: int)
      requires Valid() && !listLocked && file in files
      modifies this
      ensures Valid()
      ensures View() == old(View()).(files := old(View()).files - {file})
      ensures status == 0
    {
      Synced();
      DetachedStores(k, Mem(), file);
      ghost var m := Mem();
      var o := files[file];
      files := files - {file};
      UncountUser(o);
      k := K.Detach(k, file);
      assert Mem() == Detached(m, file);
      status := 0;
    }

    /** One user less; with the last the buffer goes, and the object too unless it still
        has a device. */
    method UncountUser(o: int)
      requires o in objects && objects[o].users >= 1 && objects[o].buffer.Some? && objects[o].buffer.value in buffers
      modifies this`objects, this`buffers, this`kfreed, this`bufKfreed
      ensures var s := old(objects)[o];
        var last, gone := s.users <= 1, s.users <= 1 && s.spi.None?;
        && objects == (if gone then old(objects) - {o} else old(objects)[o := WithoutUser(s)])
        && buffers == (if last then old(buffers) - {s.buffer.value} else old(buffers))
        && bufKfreed == (if last then old(bufKfreed) + multiset{s.buffer.value} else old(bufKfreed))
        && kfreed == (if gone then old(kfreed) + multiset{o} else old(kfreed))
    {
      ghost var was := objects;
      objects := objects[o := objects[o].(users := objects[o].users - 1)];
      if objects[o].users == 0 {
        Overwrite(was, o, objects[o], WithoutUser(was[o]));
        Overwrite(was, o, WithoutUser(was[o]), WithoutUser(was[o]));
        KfreeBuffer(objects[o].buffer.value);
        objects := objects[o := objects[o].(buffer := None)];
        var dofree := objects[o].spi == None;
        if dofree {
          Kfree(o);
        }
      }
    }

    /** One atomic step, although the source clears `spi` before it takes the list lock. */
    method Remove(dev: int) returns (status: int)
      requires Valid() && !listLocked
      modifies this
      ensures Valid()
      ensures L.RemoveStep(old(View()), dev, View())
      ensures status == if dev in old(drvdata) then 0 else -1
      ensures dev !in drvdata
    {
      Synced();
      K.BoundIff(k, dev);
      if dev !in drvdata {
        return -1;
      }
      Unlist(dev);
      status := 0;
    }

    /** Takes the object off the device and off the list, gives its minor back, and
        frees it if no file holds it. */
    method Unlist(dev: int)
      requires Valid() && !listLocked && dev in drvdata
      modifies this
      ensures Valid()
      ensures View() == L.Unbind(old(View()), old(drvdata)[dev]) && drvdata == old(drvdata) - {dev}
    {
      Synced();
      UnlistedStores(k, Mem(), dev);
      ghost var m := Mem();
      var o := Unhook(dev);
      Unown(o);
      k := K.Unbind(k, dev);
      assert Mem() == Unlisted(m, dev);
    }

    /** list_del, clear_bit and dropping the driver data. */
    method Unhook(dev: int) returns (o: int)
      requires dev in drvdata && drvdata[dev] in objects && 0 <= objects[drvdata[dev]].devt < |minors|
      modifies this`drvdata, this`deviceList, this`minors
      ensures o == old(drvdata)[dev] && drvdata == old(drvdata) - {dev}
      ensures deviceList == Unlinked(old(deviceList), o) && minors == old(minors)[objects[o].devt := false]
    {
      o := drvdata[dev];
      drvdata := drvdata - {dev};
      deviceList := Unlinked(deviceList, o);
      minors := minors[objects[o].devt := false];
    }

    method Unown(o: int)
      requires o in objects
      modifies this`objects, this`kfreed
      ensures var s := old(objects)[o];
        && objects == (if s.users == 0 then old(objects) - {o} else old(objects)[o := s.(spi := None)])
        && kfreed == (if s.users == 0 then old(kfreed) + multiset{o} else old(kfreed))
    {
      Overwrite(objects, o, objects[o].(spi := None), objects[o]);
      objects := objects[o := objects[o].(spi := None)];
      if objects[o].users == 0 {
        Kfree(o);
      }
    }
  }

  /** One call, made exactly if the kernel could make it. */
  method Try(d: SpiDriver, call: L.Event) returns (possible: bool)
    requires d.Valid()
    modifies d
    ensures d.Valid()
    ensures possible <==> L.Enabled(old(d.View()), call)
    ensures if possible then L.Next(old(d.View()), call, d.View()) else d.View() == old(d.View())
  {
    d.Synced();
    possible := !d.listLocked;
    match call {
      case Probe(dev, created) =>
        K.BoundIff(d.k, dev);
        possible := possible && dev !in d.drvdata && created <= 0;
        if possible { var _ := d.Probe(Some(dev), created); }
      case Open(file, minor, memory) =>
        possible := possible && file !in d.files;
        if possible { var _ := d.Open(file, minor, memory); }
      case Release(file) =>
        possible := possible && file in d.files;
        if possible { var _ := d.Release(file); }
      case Remove(dev) =>
        if possible { var _ := d.Remove(dev); }
    }
  }

  /** Any sequence of calls, each made exactly if the kernel could make it by then: the
      driver ends in an agreeing state, and the worlds it passed through are a run. */
  method Drive(d: SpiDriver, calls: seq<L.Event>) returns (ghost ws: seq<L.World>, ghost made: seq<L.Event>)
    requires d.Valid()
    modifies d
    ensures d.Valid()
    ensures L.IsRun(ws, made) && ws[0] == old(d.View()) && ws[|made|] == d.View()
    ensures L.Makes(ws, made, calls) && L.Sound(ws[0])
  {
    d.Explained();
    ws, made := [d.View()], [];
    for i := 0 to |calls|
      invariant d.Valid()
      invariant L.IsRun(ws, made) && ws[0] == old(d.View()) && ws[|made|] == d.View()
      invariant L.Makes(ws, made, calls[..i])
    {
      var possible := Try(d, calls[i]);
      L.MakesMore(ws, made, calls[..i], calls[i], d.View());
      assert calls[..i + 1] == calls[..i] + [calls[i]];
      if possible {
        ws, made := ws + [d.View()], made + [calls[i]];
      }
    }
    assert calls[..|calls|] == calls;
  }
}
