/** Life cycle of the SPI character driver, spi_driver.c: what probe, open, release and
    remove do to the devices, files and memory they share, over every run. */
module SpiLife {
  const N_MINORS := 32

  /** What clients can tell apart: the minor and the device of every listed object, the
      object behind every open file.  `next` numbers the objects in the order they are
      allocated; `stuck` says that a probe returned with the list lock held. */
  datatype World = World(
    minorOf: map<int, int>,
    devOf: map<int, int>,
    files: map<int, int>,
    next: int,
    stuck: bool)

  datatype Event =
    | Probe(dev: int, created: int)         // `created`: what device_create reports
    | Open(file: int, minor: int, memory: bool)
    | Release(file: int)
    | Remove(dev: int)

  ghost function FilesOf(files: map<int, int>, o: int): set<int> {
    set f | f in files && files[f] == o
  }

  /** The objects that somebody can still reach. */
  ghost function Live(w: World): set<int> {
    w.minorOf.Keys + w.files.Values
  }

  ghost predicate Taken(w: World, minor: int) {
    exists o :: o in w.minorOf && w.minorOf[o] == minor
  }

  ghost predicate Bound(w: World, dev: int) {
    exists o :: o in w.devOf && w.devOf[o] == dev
  }

  ghost predicate LeastFree(w: World, minor: int) {
    && 0 <= minor <= N_MINORS
    && (forall m: int | 0 <= m < minor :: Taken(w, m))
    && (minor < N_MINORS ==> !Taken(w, minor))
  }

  /** One object a minor and one object a device, all allocated by now. */
  ghost predicate Sound(w: World) {
    && w.minorOf.Keys == w.devOf.Keys
    && (forall o :: o in w.minorOf ==> o < w.next && 0 <= w.minorOf[o] < N_MINORS)
    && (forall o, p :: o in w.minorOf && p in w.minorOf && w.minorOf[o] == w.minorOf[p] ==> o == p)
    && (forall o, p :: o in w.devOf && p in w.devOf && w.devOf[o] == w.devOf[p] ==> o == p)
    && (forall f :: f in w.files ==> w.files[f] < w.next)
  }

  /** What the kernel guarantees of its calls: a device is probed while unbound, a file
      is opened once and released once, and no call gets past a lock that is held. */
  ghost predicate Enabled(w: World, e: Event) {
    && !w.stuck
    && match e
       case Probe(dev, created) => !Bound(w, dev) && created <= 0
       case Open(file, _, _) => file !in w.files
       case Release(file) => file in w.files
       case Remove(_) => true
  }

  // ----- The steps -------------------------------------------------------------------

  function Bind(w: World, dev: int, minor: int): World {
    w.(minorOf := w.minorOf[w.next := minor], devOf := w.devOf[w.next := dev], next := w.next + 1)
  }

  function Unbind(w: World, o: int): World {
    w.(minorOf := w.minorOf - {o}, devOf := w.devOf - {o})
  }

  /** A probe takes the least free minor, or fails when the node cannot be created, or
      sticks when there is none left. */
  ghost predicate ProbeStep(w: World, dev: int, created: int, w': World) {
    exists m: int :: LeastFree(w, m) &&
      w' == if m == N_MINORS then w.(next := w.next + 1, stuck := true)
            else if created < 0 then w.(next := w.next + 1)
            else Bind(w, dev, m)
  }

  /** An open attaches the file to the object that owns the minor, unless there is none
      or it needs a buffer and memory is short. */
  ghost predicate OpenStep(w: World, file: int, minor: int, memory: bool, w': World) {
    if Taken(w, minor) then
      exists o :: o in w.minorOf && w.minorOf[o] == minor &&
        w' == if memory || o in w.files.Values then w.(files := w.files[file := o]) else w
    else w' == w
  }

  ghost predicate RemoveStep(w: World, dev: int, w': World) {
    if Bound(w, dev) then exists o :: o in w.devOf && w.devOf[o] == dev && w' == Unbind(w, o) else w' == w
  }

  ghost predicate Next(w: World, e: Event, w': World) {
    match e
    case Probe(dev, created) => ProbeStep(w, dev, created, w')
    case Open(file, minor, memory) => OpenStep(w, file, minor, memory, w')
    case Release(file) => w' == w.(files := w.files - {file})
    case Remove(dev) => RemoveStep(w, dev, w')
  }

  /** A run, as the sequence of worlds it passes through. */
  ghost predicate IsRun(ws: seq<World>, es: seq<Event>) {
    && |ws| == |es| + 1
    && forall i :: 0 <= i < |es| ==> Enabled(ws[i], es[i]) && Next(ws[i], es[i], ws[i + 1])
  }

  /** The run makes, of the calls offered in turn, exactly those that the kernel could
      make in the world it had then reached. */
  ghost predicate Makes(ws: seq<World>, made: seq<Event>, calls: seq<Event>)
    requires |ws| == |made| + 1
    decreases |calls|
  {
    if calls == [] then made == []
    else if Enabled(ws[0], calls[0]) then
      made != [] && made[0] == calls[0] && Makes(ws[1..], made[1..], calls[1..])
    else Makes(ws, made, calls[1..])
  }

  /** One more call is offered: it is made if it can be, and else passed over. */
  lemma {:induction false} MakesMore(ws: seq<World>, made: seq<Event>, calls: seq<Event>, e: Event, w': World)
    requires |ws| == |made| + 1 && Makes(ws, made, calls)
    ensures Enabled(ws[|made|], e) ==> Makes(ws + [w'], made + [e], calls + [e])
    ensures !Enabled(ws[|made|], e) ==> Makes(ws, made, calls + [e])
    decreases |calls|
  {
    assert calls != [] ==> (calls + [e])[0] == calls[0] && (calls + [e])[1..] == calls[1..] + [e];
    if calls == [] {
      assert (calls + [e])[1..] == [] && (made + [e])[1..] == [];
    } else if Enabled(ws[0], calls[0]) {
      MakesMore(ws[1..], made[1..], calls[1..], e, w');
      assert (ws + [w'])[1..] == ws[1..] + [w'] && (made + [e])[1..] == made[1..] + [e];
    } else {
      MakesMore(ws, made, calls[1..], e, w');
    }
  }

  /** Calls that can all be made in turn are all made. */
  lemma {:induction false} AllMade(ws: seq<World>, made: seq<Event>, calls: seq<Event>)
    requires |ws| == |made| + 1 && Makes(ws, made, calls)
    requires forall i :: 0 <= i < |calls| && i < |ws| ==> Enabled(ws[i], calls[i])
    ensures made == calls
    decreases |calls|
  {
    if calls != [] {
      AllMade(ws[1..], made[1..], calls[1..]);
      assert made == [made[0]] + made[1..];
    }
  }

  lemma RunTail(ws: seq<World>, es: seq<Event>)
    requires IsRun(ws, es) && es != []
    ensures Next(ws[0], es[0], ws[1]) && IsRun(ws[1..], es[1..])
  {
  }

  lemma RunMore(ws: seq<World>, es: seq<Event>, e: Event, w': World)
    requires IsRun(ws, es) && Enabled(ws[|es|], e) && Next(ws[|es|], e, w')
    ensures IsRun(ws + [w'], es + [e])
  {
  }

  /** A call has one outcome. */
  lemma StepDetermined(w: World, e: Event, w1: World, w2: World)
    requires Sound(w) && Next(w, e, w1) && Next(w, e, w2)
    ensures w1 == w2
  {
  }

  /** So the calls offered determine the whole run. */
  lemma {:induction false} RunDetermined(ws: seq<World>, es: seq<Event>, ws': seq<World>, es': seq<Event>,
                                         calls: seq<Event>)
    requires IsRun(ws, es) && Makes(ws, es, calls) && Sound(ws[0])
    requires IsRun(ws', es') && Makes(ws', es', calls) && ws'[0] == ws[0]
    ensures es == es' && ws == ws'
    decreases |calls|
  {
    if calls == [] {
      assert ws == [ws[0]] && ws' == [ws[0]];
    } else if Enabled(ws[0], calls[0]) {
      RunTail(ws, es);
      RunTail(ws', es');
      StepDetermined(ws[0], calls[0], ws[1], ws'[1]);
      StepSound(ws[0], calls[0], ws[1]);
      RunDetermined(ws[1..], es[1..], ws'[1..], es'[1..], calls[1..]);
      assert ws == [ws[0]] + ws[1..] && ws' == [ws[0]] + ws'[1..];
      assert es == [es[0]] + es[1..] && es' == [es'[0]] + es'[1..];
    } else {
      RunDetermined(ws, es, ws', es', calls[1..]);
    }
  }

  lemma StepSound(w: World, e: Event, w': World)
    requires Sound(w) && Enabled(w, e) && Next(w, e, w')
    ensures Sound(w') && w.next <= w'.next
  {
    match e
    case Probe(dev, created) =>
      var m: int :| LeastFree(w, m) &&
        w' == if m == N_MINORS then w.(next := w.next + 1, stuck := true)
              else if created < 0 then w.(next := w.next + 1)
              else Bind(w, dev, m);
      if m < N_MINORS && created == 0 { BindSound(w, dev, m); }
    case Open(file, minor, memory) =>
    case Release(file) =>
    case Remove(dev) =>
      if Bound(w, dev) {
        var o :| o in w.devOf && w.devOf[o] == dev && w' == Unbind(w, o);
        UnbindSound(w, o);
      }
  }

  lemma UnbindSound(w: World, o: int)
    requires Sound(w)
    ensures Sound(Unbind(w, o))
  {
  }

  lemma BindSound(w: World, dev: int, minor: int)
    requires Sound(w) && !Bound(w, dev) && 0 <= minor < N_MINORS && !Taken(w, minor)
    ensures Sound(Bind(w, dev, minor))
  {
  }

  lemma {:induction false} RunSound(ws: seq<World>, es: seq<Event>, k: nat)
    requires IsRun(ws, es) && Sound(ws[0]) && k <= |es|
    ensures Sound(ws[k]) && ws[0].next <= ws[k].next
  {
    if k > 0 {
      RunSound(ws, es, k - 1);
      StepSound(ws[k - 1], es[k - 1], ws[k]);
    }
  }

  /** A step brings at most the object just allocated to life. */
  lemma StepGone(w: World, e: Event, w': World, o: int)
    requires Sound(w) && Enabled(w, e) && Next(w, e, w') && o < w.next && o !in Live(w)
    ensures o < w'.next && o !in Live(w')
  {
    forall f | f in w'.files
      ensures w'.files[f] in Live(w)
    {
      if f in w.files && w'.files[f] == w.files[f] {
        assert w.files[f] in w.files.Values;
      } else {
        assert w'.files[f] in w.minorOf.Keys;
      }
    }
  }

  lemma StepAt(ws: seq<World>, es: seq<Event>, i: nat)
    requires IsRun(ws, es) && Sound(ws[0]) && i < |es|
    ensures Sound(ws[i]) && Enabled(ws[i], es[i]) && Next(ws[i], es[i], ws[i + 1])
  {
    RunSound(ws, es, i);
  }

  /** An object once gone never comes back: its number is not allocated again, so no
      later open, probe or list search can reach it. */
  lemma {:induction false} GoneForGood(ws: seq<World>, es: seq<Event>, j: nat, k: nat, o: int)
    requires IsRun(ws, es) && Sound(ws[0]) && j <= k <= |es|
    requires o < ws[j].next && o !in Live(ws[j])
    ensures o < ws[k].next && o !in Live(ws[k])
  {
    if k > j {
      var i := k - 1;
      GoneForGood(ws, es, j, i, o);
      StepAt(ws, es, i);
      StepGone(ws[i], es[i], ws[i + 1], o);
    }
  }

  /** A file keeps the object it was opened on until it is released, even when the
      device is removed and its minor goes to another object. */
  lemma {:induction false} FileKeepsItsObject(ws: seq<World>, es: seq<Event>, j: nat, k: nat, f: int)
    requires IsRun(ws, es) && j <= k <= |es|
    requires f in ws[j].files && forall i :: j <= i < k ==> es[i] != Release(f)
    ensures f in ws[k].files && ws[k].files[f] == ws[j].files[f]
  {
    if k > j {
      FileKeepsItsObject(ws, es, j, k - 1, f);
    }
  }

  /** In every world of every run an open reaches the one object that owns the minor:
      also when the minor was owned before by an object that a file still keeps, which
      the open then does not touch.  Only the owner's first open needs memory. */
  lemma OpenReachesOwner(ws: seq<World>, es: seq<Event>, k: nat, owner: int, file: int, minor: int, memory: bool,
                         w': World)
    requires IsRun(ws, es) && Sound(ws[0]) && k <= |es|
    requires Enabled(ws[k], Open(file, minor, memory)) && Next(ws[k], Open(file, minor, memory), w')
    ensures owner in ws[k].minorOf && ws[k].minorOf[owner] == minor ==>
      if memory || FilesOf(ws[k].files, owner) != {}
      then w'.files == ws[k].files[file := owner] && FilesOf(w'.files, owner) == FilesOf(ws[k].files, owner) + {file}
      else w' == ws[k]
    ensures !Taken(ws[k], minor) ==> w' == ws[k]
    ensures w'.(files := ws[k].files) == ws[k]
    ensures forall o :: !(o in ws[k].minorOf && ws[k].minorOf[o] == minor) ==>
      FilesOf(w'.files, o) == FilesOf(ws[k].files, o)
  {
    RunSound(ws, es, k);
    if Taken(ws[k], minor) {
      var o :| o in ws[k].minorOf && ws[k].minorOf[o] == minor;
      OneFileMore(ws[k].files, file, o);
      HeldIff(ws[k].files, o);
    }
  }

  lemma HeldIff(files: map<int, int>, o: int)
    ensures FilesOf(files, o) == {} <==> o !in files.Values
  {
    if o !in files.Values {
      assert forall f :: f in files ==> files[f] in files.Values;
    }
    if FilesOf(files, o) == {} {
      forall f | f in files ensures files[f] != o {
        assert f !in FilesOf(files, o);
      }
    }
  }

  /** A probe binds its device, to the object it allocates and at the least free minor,
      exactly when the node was created and a minor was free; it changes nothing else. */
  lemma ProbeOutcome(w: World, dev: int, created: int, w': World)
    requires Sound(w) && Enabled(w, Probe(dev, created)) && Next(w, Probe(dev, created), w')
    ensures Bound(w', dev) <==> created == 0 && !w'.stuck
    ensures Bound(w', dev) ==>
      w.next in w'.minorOf && LeastFree(w, w'.minorOf[w.next]) && w.next in w'.devOf && w'.devOf[w.next] == dev
    ensures forall o :: o in w.minorOf ==>
      && o in w'.minorOf && w'.minorOf[o] == w.minorOf[o]
      && o in w'.devOf && w'.devOf[o] == w.devOf[o]
    ensures forall o :: o in w'.minorOf && o !in w.minorOf ==> o == w.next && Bound(w', dev)
    ensures w'.files == w.files && w'.next == w.next + 1
  {
    assert forall o :: o in w.devOf ==> w.devOf[o] != dev;
    if created == 0 && !w'.stuck { assert w'.devOf[w.next] == dev; }
  }

  /** A release lets go of its file and changes nothing else. */
  lemma ReleaseOutcome(w: World, file: int, w': World)
    requires Enabled(w, Release(file)) && Next(w, Release(file), w')
    ensures file !in w'.files
    ensures forall f :: f != file ==> (f in w'.files <==> f in w.files) && (f in w.files ==> w'.files[f] == w.files[f])
    ensures w'.(files := w.files) == w
  {
  }

  /** A remove unbinds its device and gives back the minor, and changes nothing else; in
      particular the files keep their objects. */
  lemma RemoveOutcome(w: World, dev: int, w': World)
    requires Sound(w) && Enabled(w, Remove(dev)) && Next(w, Remove(dev), w')
    ensures !Bound(w', dev)
    ensures forall o :: o in w.minorOf && w.devOf[o] == dev ==> o !in w'.minorOf && !Taken(w', w.minorOf[o])
    ensures forall o :: o in w'.minorOf <==> o in w.minorOf && w.devOf[o] != dev
    ensures forall o :: o in w'.minorOf ==>
      w'.minorOf[o] == w.minorOf[o] && o in w'.devOf && w'.devOf[o] == w.devOf[o]
    ensures w'.files == w.files && w'.next == w.next && !w'.stuck
  {
    if Bound(w, dev) {
      var o :| o in w.devOf && w.devOf[o] == dev && w' == Unbind(w, o);
    }
  }

  /** A probe sticks exactly when all 32 minors are taken, and nothing else does. */
  lemma StuckIff(w: World, e: Event, w': World)
    requires Sound(w) && Enabled(w, e) && Next(w, e, w')
    ensures w'.stuck <==> e.Probe? && forall m: int | 0 <= m < N_MINORS :: Taken(w, m)
  {
  }

  const NOTHING := World(map[], map[], map[], 0, false)

  /** The world after n probes, device k at minor k. */
  ghost function Packed(n: nat): (w: World)
    ensures w.next == n && !w.stuck
    ensures forall k :: k in w.minorOf <==> 0 <= k < n
    ensures forall k :: k in w.devOf <==> 0 <= k < n
    ensures forall k :: 0 <= k < n ==> w.minorOf[k] == k && w.devOf[k] == k
  {
    if n == 0 then NOTHING else Bind(Packed(n - 1), n - 1, n - 1)
  }

  lemma PackedLeastFree(n: nat)
    requires n <= N_MINORS
    ensures LeastFree(Packed(n), n)
  {
    var w := Packed(n);
    forall m: int | 0 <= m < n ensures Taken(w, m) {
      assert w.minorOf[m] == m;
    }
  }

  lemma {:induction false} ProbesPack(n: nat) returns (ws: seq<World>, es: seq<Event>)
    requires n <= N_MINORS
    ensures IsRun(ws, es) && |es| == n && ws[0] == NOTHING && ws[n] == Packed(n)
  {
    if n == 0 {
      ws, es := [NOTHING], [];
    } else {
      var before, calls := ProbesPack(n - 1);
      PackedLeastFree(n - 1);
      RunMore(before, calls, Probe(n - 1, 0), Packed(n));
      ws, es := before + [Packed(n)], calls + [Probe(n - 1, 0)];
    }
  }

  /** From the empty world 32 probes take every minor, and the next one sticks. */
  lemma ProbesExhaust() returns (ws: seq<World>, es: seq<Event>)
    ensures IsRun(ws, es) && ws[0] == NOTHING && |es| == 33
    ensures !ws[32].stuck && ws[33].stuck
  {
    var before, calls := ProbesPack(N_MINORS);
    var w := Packed(N_MINORS);
    PackedLeastFree(N_MINORS);
    var w' := w.(next := w.next + 1, stuck := true);
    RunMore(before, calls, Probe(N_MINORS, 0), w');
    ws, es := before + [w'], calls + [Probe(N_MINORS, 0)];
  }

  lemma OneFileMore(files: map<int, int>, f: int, o: int)
    requires f !in files
    ensures FilesOf(files[f := o], o) == FilesOf(files, o) + {f}
    ensures |FilesOf(files[f := o], o)| == |FilesOf(files, o)| + 1
    ensures forall p :: p != o ==> FilesOf(files[f := o], p) == FilesOf(files, p)
  {
  }

  lemma OneFileLess(files: map<int, int>, f: int)
    requires f in files
    ensures FilesOf(files - {f}, files[f]) == FilesOf(files, files[f]) - {f}
    ensures |FilesOf(files - {f}, files[f])| == |FilesOf(files, files[f])| - 1
    ensures forall p :: p != files[f] ==> FilesOf(files - {f}, p) == FilesOf(files, p)
  {
  }
}
