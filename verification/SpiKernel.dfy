/** The bookkeeping behind the SPI life cycle: the tables the driver keeps, what each
    call does to them, and the invariant that makes them agree. */
module SpiKernel {
  import opened SpiLife

  /** The world with the objects allocated for it and the tables that mirror it: `owners`
      is the minor bitmap with the object behind each set bit, `drvdata` the devices'
      driver data, `bufferOf` the transfer buffer of each object and `holderOf` the way
      back.  The rest are running totals: every kfree so far, and the object a probe
      without a minor abandons. */
  datatype Kernel = Kernel(
    world: World,
    live: set<int>,
    owners: map<int, int>,
    drvdata: map<int, int>,
    bufferOf: map<int, int>,
    holderOf: map<int, int>,
    nextBuffer: int,
    kfreed: multiset<int>,
    bufKfreed: multiset<int>,
    leaked: set<int>)

  /** Membership under a name of its own, so that the solver follows a table back only
      where a proof asks it to. */
  ghost predicate Entry(m: map<int, int>, x: int) {
    x in m
  }

  /** Two tables that lead back to each other. */
  ghost predicate Inverse(there: map<int, int>, back: map<int, int>) {
    && (forall o {:trigger o in there} :: o in there ==> there[o] in back && back[there[o]] == o)
    && (forall m {:trigger Entry(back, m)} :: Entry(back, m) ==> back[m] in there && there[back[m]] == m)
  }

  /** Everything numbered so far is live or was freed exactly once. */
  ghost predicate Ledger(live: set<int>, next: int, freed: multiset<int>) {
    next >= 0 && forall i: int ::
      (i in live ==> 0 <= i < next) && freed[i] == if 0 <= i < next && i !in live then 1 else 0
  }

  ghost predicate TablesOk(k: Kernel) {
    Sound(k.world) && Inverse(k.world.minorOf, k.owners) && Inverse(k.world.devOf, k.drvdata)
  }

  /** An object holds a buffer, its own, exactly while a file holds the object. */
  ghost predicate BuffersOk(k: Kernel) {
    && k.bufferOf.Keys == k.world.files.Values
    && Inverse(k.bufferOf, k.holderOf)
    && Ledger(k.holderOf.Keys, k.nextBuffer, k.bufKfreed)
  }

  ghost predicate ObjectsOk(k: Kernel) {
    && k.live == Live(k.world) + k.leaked
    && Ledger(k.live, k.world.next, k.kfreed)
    && k.leaked !! Live(k.world)
    && (k.leaked != {} <==> k.world.stuck)
  }

  ghost predicate AllOk(k: Kernel) {
    TablesOk(k) && BuffersOk(k) && ObjectsOk(k)
  }

  /** The three together, written as a quantifier that only UseOk instantiates, so that
      the methods of the driver carry the invariant along without unfolding it. */
  ghost predicate Ok(k: Kernel) {
    forall q {:trigger Chosen(q)} :: Chosen(q) && q == k ==> AllOk(q)
  }

  ghost predicate Chosen(k: Kernel) {
    true
  }

  lemma UseOk(k: Kernel)
    requires Ok(k)
    ensures AllOk(k)
  {
    assert Chosen(k);
  }

  // ----- What each call does ----------------------------------------------------------

  function Bind(k: Kernel, dev: int, minor: int): Kernel {
    k.(world := SpiLife.Bind(k.world, dev, minor), live := k.live + {k.world.next},
       owners := k.owners[minor := k.world.next], drvdata := k.drvdata[dev := k.world.next])
  }

  function Discard(k: Kernel): Kernel {
    k.(world := k.world.(next := k.world.next + 1), kfreed := k.kfreed + multiset{k.world.next})
  }

  function Strand(k: Kernel): Kernel {
    k.(world := k.world.(next := k.world.next + 1, stuck := true), live := k.live + {k.world.next},
       leaked := {k.world.next})
  }

  function Attach(k: Kernel, f: int, o: int): Kernel {
    var held := o in k.bufferOf;
    k.(world := k.world.(files := k.world.files[f := o]),
       bufferOf := if held then k.bufferOf else k.bufferOf[o := k.nextBuffer],
       holderOf := if held then k.holderOf else k.holderOf[k.nextBuffer := o],
       nextBuffer := if held then k.nextBuffer else k.nextBuffer + 1)
  }

  /** The file was the object's last. */
  ghost predicate LastFile(files: map<int, int>, f: int)
    requires f in files
  {
    |FilesOf(files, files[f])| <= 1
  }

  ghost function Detach(k: Kernel, f: int): Kernel
    requires f in k.world.files && k.world.files[f] in k.bufferOf
  {
    var o := k.world.files[f];
    var last := LastFile(k.world.files, f);
    var gone := last && o !in k.world.minorOf;
    k.(world := k.world.(files := k.world.files - {f}),
       bufferOf := if last then k.bufferOf - {o} else k.bufferOf,
       holderOf := if last then k.holderOf - {k.bufferOf[o]} else k.holderOf,
       bufKfreed := if last then k.bufKfreed + multiset{k.bufferOf[o]} else k.bufKfreed,
       live := if gone then k.live - {o} else k.live,
       kfreed := if gone then k.kfreed + multiset{o} else k.kfreed)
  }

  function Unbind(k: Kernel, dev: int): Kernel
    requires dev in k.drvdata && k.drvdata[dev] in k.world.minorOf
  {
    var o := k.drvdata[dev];
    k.(world := SpiLife.Unbind(k.world, o),
       owners := k.owners - {k.world.minorOf[o]}, drvdata := k.drvdata - {dev},
       live := if o in k.bufferOf then k.live else k.live - {o},
       kfreed := if o in k.bufferOf then k.kfreed else k.kfreed + multiset{o})
  }

  // ----- Each keeps the tables in agreement ---------------------------------------------

  lemma InverseAdd(there: map<int, int>, back: map<int, int>, o: int, m: int)
    requires Inverse(there, back) && o !in there && m !in back
    ensures Inverse(there[o := m], back[m := o])
  {
    var there', back' := there[o := m], back[m := o];
    forall n | Entry(back', n)
      ensures back'[n] in there' && there'[back'[n]] == n
    {
      assert n == m || Entry(back, n);
    }
  }

  lemma InverseDrop(there: map<int, int>, back: map<int, int>, o: int)
    requires Inverse(there, back) && o in there
    ensures Inverse(there - {o}, back - {there[o]})
  {
    forall n | Entry(back - {there[o]}, n) ensures Entry(back, n) {
    }
  }

  lemma LedgerNew(live: set<int>, next: int, freed: multiset<int>)
    requires Ledger(live, next, freed)
    ensures next !in live && Ledger(live + {next}, next + 1, freed)
  {
  }

  lemma LedgerFree(live: set<int>, next: int, freed: multiset<int>, i: int)
    requires Ledger(live, next, freed) && i in live
    ensures Ledger(live - {i}, next, freed + multiset{i})
  {
  }

  lemma TakenIsOwned(k: Kernel, minor: int)
    requires Inverse(k.world.minorOf, k.owners)
    ensures Taken(k.world, minor) <==> minor in k.owners
  {
    if Entry(k.owners, minor) {
      var o: int := k.owners[minor];
      assert o in k.world.minorOf && k.world.minorOf[o] == minor;
    }
  }

  lemma BoundIsBound(k: Kernel, dev: int)
    requires Inverse(k.world.devOf, k.drvdata)
    ensures Bound(k.world, dev) <==> dev in k.drvdata
  {
    if Entry(k.drvdata, dev) {
      var o: int := k.drvdata[dev];
      assert o in k.world.devOf && k.world.devOf[o] == dev;
    }
  }

  lemma BindOk(k: Kernel, dev: int, minor: int)
    requires Ok(k) && dev !in k.drvdata && 0 <= minor < N_MINORS && minor !in k.owners
    ensures Ok(Bind(k, dev, minor))
  {
    UseOk(k);
    var w := k.world;
    LedgerNew(k.live, w.next, k.kfreed);
    assert w.next !in Live(w);
    InverseAdd(w.minorOf, k.owners, w.next, minor);
    InverseAdd(w.devOf, k.drvdata, w.next, dev);
    TakenIsOwned(k, minor);
    BoundIsBound(k, dev);
    BindSound(w, dev, minor);
    assert Live(Bind(k, dev, minor).world) == Live(w) + {w.next};
  }

  lemma DiscardOk(k: Kernel)
    requires Ok(k)
    ensures Ok(Discard(k))
  {
    UseOk(k);
    var w := k.world;
    var live := k.live;
    LedgerNew(live, w.next, k.kfreed);
    LedgerFree(live + {w.next}, w.next + 1, k.kfreed, w.next);
    assert live + {w.next} - {w.next} == live;
    assert Live(Discard(k).world) == Live(w);
  }

  lemma StrandOk(k: Kernel)
    requires Ok(k) && !k.world.stuck
    ensures Ok(Strand(k))
  {
    UseOk(k);
    var w := k.world;
    LedgerNew(k.live, w.next, k.kfreed);
    assert Live(Strand(k).world) == Live(w);
  }

  lemma ValuesWith(m: map<int, int>, f: int, o: int)
    requires f !in m
    ensures m[f := o].Values == m.Values + {o}
  {
    var m' := m[f := o];
    assert m'[f] == o;
    forall g | g in m ensures m[g] in m'.Values {
      assert m'[g] == m[g];
    }
  }

  /** Letting go of a file drops its object from the range just when no other file
      holds it. */
  lemma ValuesWithout(m: map<int, int>, f: int)
    requires f in m
    ensures |FilesOf(m, m[f])| >= 1
    ensures (m - {f}).Values == if |FilesOf(m, m[f])| > 1 then m.Values else m.Values - {m[f]}
  {
    var rest, o := m - {f}, m[f];
    OneFileLess(m, f);
    assert rest[f := o] == m;
    ValuesWith(rest, f, o);
    if |FilesOf(m, o)| > 1 {
      assert o in rest.Values;
    } else {
      assert FilesOf(rest, o) == {};
      assert o !in rest.Values by {
        forall g | g in rest ensures rest[g] != o {
          assert g !in FilesOf(rest, o);
        }
      }
    }
  }

  lemma AttachBuffers(k: Kernel, f: int, o: int)
    requires BuffersOk(k) && f !in k.world.files
    ensures BuffersOk(Attach(k, f, o))
  {
    ValuesWith(k.world.files, f, o);
    if o !in k.bufferOf {
      LedgerNew(k.holderOf.Keys, k.nextBuffer, k.bufKfreed);
      InverseAdd(k.bufferOf, k.holderOf, o, k.nextBuffer);
      assert Attach(k, f, o).holderOf.Keys == k.holderOf.Keys + {k.nextBuffer};
    }
  }

  lemma AttachOk(k: Kernel, f: int, o: int)
    requires Ok(k) && o in k.world.minorOf && f !in k.world.files
    ensures Ok(Attach(k, f, o))
  {
    UseOk(k);
    AttachBuffers(k, f, o);
    ValuesWith(k.world.files, f, o);
    assert Live(Attach(k, f, o).world) == Live(k.world);
  }

  lemma DetachBuffers(k: Kernel, f: int)
    requires BuffersOk(k) && f in k.world.files
    ensures k.world.files[f] in k.bufferOf && BuffersOk(Detach(k, f))
  {
    var o := k.world.files[f];
    assert o in k.world.files.Values;
    ValuesWithout(k.world.files, f);
    if |FilesOf(k.world.files, o)| == 1 {
      InverseDrop(k.bufferOf, k.holderOf, o);
      LedgerFree(k.holderOf.Keys, k.nextBuffer, k.bufKfreed, k.bufferOf[o]);
      assert Detach(k, f).holderOf.Keys == k.holderOf.Keys - {k.bufferOf[o]};
    }
  }

  /** A release takes the object out of reach just when that file was its last and it
      is not listed. */
  lemma LiveWithout(w: World, f: int)
    requires f in w.files
    ensures Live(w.(files := w.files - {f})) ==
      if |FilesOf(w.files, w.files[f])| > 1 || w.files[f] in w.minorOf then Live(w) else Live(w) - {w.files[f]}
  {
    ValuesWithout(w.files, f);
  }

  lemma DetachObjects(k: Kernel, f: int)
    requires ObjectsOk(k) && f in k.world.files && k.world.files[f] in k.bufferOf
    ensures ObjectsOk(Detach(k, f))
  {
    var o := k.world.files[f];
    LiveWithout(k.world, f);
    if |FilesOf(k.world.files, o)| <= 1 && o !in k.world.minorOf {
      assert o in k.world.files.Values;
      LedgerFree(k.live, k.world.next, k.kfreed, o);
    }
  }

  lemma DetachOk(k: Kernel, f: int)
    requires Ok(k) && f in k.world.files
    ensures k.world.files[f] in k.bufferOf && Ok(Detach(k, f))
  {
    UseOk(k);
    DetachBuffers(k, f);
    DetachObjects(k, f);
  }

  lemma UnbindTables(k: Kernel, dev: int)
    requires TablesOk(k) && dev in k.drvdata
    ensures k.drvdata[dev] in k.world.minorOf && TablesOk(Unbind(k, dev))
  {
    var o: int := k.drvdata[dev];
    assert Entry(k.drvdata, dev);
    InverseDrop(k.world.minorOf, k.owners, o);
    InverseDrop(k.world.devOf, k.drvdata, o);
  }

  lemma UnbindOk(k: Kernel, dev: int)
    requires Ok(k) && dev in k.drvdata
    ensures k.drvdata[dev] in k.world.minorOf && Ok(Unbind(k, dev))
  {
    UseOk(k);
    var o, w := k.drvdata[dev], k.world;
    UnbindTables(k, dev);
    var k' := Unbind(k, dev);
    if o in k.bufferOf {
      assert Live(k'.world) == Live(w);
    } else {
      LedgerFree(k.live, w.next, k.kfreed, o);
      assert Live(k'.world) == Live(w) - {o};
    }
  }

  // ----- What the invariant says of single entries ---------------------------------------

  /** The bit of a minor is set exactly when a listed object has it, the object that the
      table leads to. */
  lemma OwnedIff(k: Kernel, minor: int)
    requires Ok(k)
    ensures Taken(k.world, minor) <==> minor in k.owners
    ensures minor in k.owners ==>
      0 <= minor < N_MINORS && k.owners[minor] in k.world.minorOf && k.world.minorOf[k.owners[minor]] == minor
  {
    UseOk(k);
    TakenIsOwned(k, minor);
  }

  lemma BoundIff(k: Kernel, dev: int)
    requires Ok(k)
    ensures Bound(k.world, dev) <==> dev in k.drvdata
    ensures dev in k.drvdata ==>
      && k.drvdata[dev] in k.world.minorOf && k.drvdata[dev] in k.live && k.drvdata[dev] in k.world.devOf
      && k.world.devOf[k.drvdata[dev]] == dev
      && 0 <= k.world.minorOf[k.drvdata[dev]] < N_MINORS
  {
    UseOk(k);
    BoundIsBound(k, dev);
  }

  lemma ListedIsOwner(k: Kernel, o: int)
    requires Ok(k) && o in k.world.minorOf
    ensures o in k.live && o in k.world.devOf
    ensures k.world.minorOf[o] in k.owners && k.owners[k.world.minorOf[o]] == o
    ensures forall p :: p in k.world.minorOf && k.world.minorOf[p] == k.world.minorOf[o] ==> p == o
  {
    UseOk(k);
  }

  lemma HeldIsBuffered(k: Kernel, f: int)
    requires Ok(k) && f in k.world.files
    ensures k.world.files[f] in k.live && k.world.files[f] in k.bufferOf && k.bufferOf[k.world.files[f]] in k.holderOf
  {
    UseOk(k);
    assert k.world.files[f] in k.world.files.Values;
  }

  lemma Unstuck(k: Kernel)
    requires Ok(k) && !k.world.stuck
    ensures k.leaked == {} && k.world.minorOf.Keys == k.world.devOf.Keys && k.bufferOf.Keys == k.world.files.Values
    ensures k.live == Live(k.world)
  {
    UseOk(k);
  }
}
