/** Shared-library handles: the C functions of code/logic/dynamic.c (POSIX
    branch) under the owning class `Dynamic` of code/logic/fossil/sys/dynamic.h.

    A loader hands out reference-counted handles: opening a library twice gives
    the same handle, and every successful open needs its own close. */
module DynamicLibrary {
  import opened CStrings

  /** The descriptor, as far as ownership goes; handle 0 is NULL. */
  datatype Lib = Lib(handle: nat, status: int)

  /** A `Dynamic` object: `lib_` and `loaded_`. */
  datatype Obj = Obj(lib: Lib, loaded: bool)

  const FRESH := Obj(Lib(0, 0), false)

  // ---------------------------------------------------------------------
  // The C functions
  // ---------------------------------------------------------------------

  /** `answer` is what dlopen returns if it is called. */
  function LoadLib(lib: Lib, path: Option<CString>, answer: nat): (Lib, bool) {
    if path.None? || answer == 0 then (lib, false) else (Lib(answer, 1), true)
  }

  /** `closes` says whether dlclose succeeds if it is called. */
  function UnloadLib(lib: Lib, closes: bool): (Lib, bool) {
    if lib.handle == 0 || !closes then (lib, false) else (Lib(0, 0), true)
  }

  predicate IsLoadedLib(lib: Lib) {
    lib.handle != 0 && lib.status == 1
  }

  // ---------------------------------------------------------------------
  // The class, on values
  // ---------------------------------------------------------------------

  predicate HasDotDot(path: string) {
    |path| >= 2 && (path[..2] == ".." || HasDotDot(path[1..]))
  }

  lemma {:induction false} HasDotDotExactly(path: string)
    ensures HasDotDot(path) <==> exists i :: 0 <= i < |path| - 1 && path[i] == '.' && path[i + 1] == '.'
  {
    if |path| >= 2 {
      HasDotDotExactly(path[1..]);
      assert path[..2] == [path[0], path[1]];
      assert forall i :: 0 <= i < |path| - 1 ==> path[1..][i] == path[i + 1];
      if i :| 0 < i < |path| - 1 && path[i] == '.' && path[i + 1] == '.' {
        assert path[1..][i - 1] == '.' && path[1..][i] == '.';
      }
    }
  }

  predicate ValidPath(path: Option<CString>) {
    path.Some? && path.value != "" && !HasDotDot(path.value) && path.value[0] != '.'
  }

  function Loaded(o: Obj, path: Option<CString>, answer: nat): (Obj, bool) {
    if o.loaded || !ValidPath(path) then (o, false)
    else
      var (lib, ok) := LoadLib(o.lib, path, answer);
      (if ok then Obj(lib, true) else o, ok)
  }

  function Unloaded(o: Obj, closes: bool): (Obj, bool) {
    if !o.loaded then (o, false)
    else
      var (lib, ok) := UnloadLib(o.lib, closes);
      (if ok then Obj(lib, false) else o, ok)
  }

  /** An object loads exactly if it is empty, dlopen answers with a handle, and the
      path is neither NULL nor empty, does not begin with a dot, and nowhere has
      two dots in a row; otherwise nothing changes. */
  lemma {:induction false} LoadsExactly(o: Obj, path: Option<CString>, answer: nat)
    ensures var (o', r) := Loaded(o, path, answer);
            && (r <==> !o.loaded && answer != 0 && path.Some? && path.value != "" && path.value[0] != '.'
                       && forall i :: 0 <= i < |path.value| - 1 ==> path.value[i] != '.' || path.value[i + 1] != '.')
            && o' == if r then Obj(Lib(answer, 1), true) else o
  {
    if path.Some? {
      HasDotDotExactly(path.value);
    }
  }

  /** An object that holds its handle unloads exactly if it is loaded and dlclose
      succeeds; otherwise nothing changes. */
  lemma UnloadsExactly(o: Obj, closes: bool)
    requires o.loaded ==> o.lib.handle != 0
    ensures var (o', r) := Unloaded(o, closes);
            (r <==> o.loaded && closes) && o' == if r then Obj(Lib(0, 0), false) else o
  {
  }

  /** What a moved-from object keeps: its status, but neither handle nor flag. */
  function MovedFrom(o: Obj): Obj {
    Obj(Lib(0, o.lib.status), false)
  }

  /** The handle an object is responsible for. */
  function Owned(o: Obj): multiset<nat> {
    if o.loaded then multiset{o.lib.handle} else multiset{}
  }

  /** Calls that succeeded, and handles whose last owner went away although the
      close failed. */
  datatype Ledger = Ledger(dlopens: multiset<nat>, dlcloses: multiset<nat>, abandoned: multiset<nat>)

  function AfterLoad(led: Ledger, loaded: bool, answer: nat): Ledger {
    if loaded then led.(dlopens := led.dlopens + multiset{answer}) else led
  }

  function AfterUnload(led: Ledger, o: Obj, unloaded: bool): Ledger {
    if unloaded then led.(dlcloses := led.dlcloses + Owned(o)) else led
  }

  /** A destructor or move assignment lets go of the handle whatever dlclose says. */
  function AfterRelease(led: Ledger, o: Obj, closes: bool): Ledger {
    if o.loaded && o.lib.handle != 0 && closes then led.(dlcloses := led.dlcloses + Owned(o))
    else led.(abandoned := led.abandoned + Owned(o))
  }

  // ---------------------------------------------------------------------
  // Any number of objects
  // ---------------------------------------------------------------------

  /** Objects are numbered as they are constructed; None marks a destroyed one. */
  datatype World = World(objs: seq<Option<Obj>>, led: Ledger)

  datatype Op =
    | New
    | NewFromPath(path: Option<CString>, answer: nat)
    | MoveNew(src: nat)
    | MoveAssign(dst: nat, src: nat, closes: bool)
    | Load(i: nat, path: Option<CString>, answer: nat)
    | Unload(i: nat, closes: bool)
    | Destroy(i: nat, closes: bool)

  predicate Alive(w: World, i: nat) {
    i < |w.objs| && w.objs[i].Some?
  }

  predicate Legal(w: World, op: Op) {
    match op
    case New => true
    case NewFromPath(_, _) => true
    case MoveNew(src) => Alive(w, src)
    case MoveAssign(dst, src, _) => Alive(w, dst) && Alive(w, src)
    case Load(i, _, _) => Alive(w, i)
    case Unload(i, _) => Alive(w, i)
    case Destroy(i, _) => Alive(w, i)
  }

  function Step(w: World, op: Op): World
    requires Legal(w, op)
  {
    match op
    case New => w.(objs := w.objs + [Some(FRESH)])
    case NewFromPath(path, answer) =>
      var (o, ok) := Loaded(FRESH, path, answer);
      World(w.objs + [Some(o)], AfterLoad(w.led, ok, answer))
    case MoveNew(src) =>
      var o := w.objs[src].value;
      w.(objs := w.objs[src := Some(MovedFrom(o))] + [Some(o)])
    case MoveAssign(dst, src, closes) =>
      if dst == src then w
      else
        var (d, s) := (w.objs[dst].value, w.objs[src].value);
        World(w.objs[dst := Some(s)][src := Some(MovedFrom(s))], AfterRelease(w.led, d, closes))
    case Load(i, path, answer) =>
      var (o, ok) := Loaded(w.objs[i].value, path, answer);
      World(w.objs[i := Some(o)], AfterLoad(w.led, ok, answer))
    case Unload(i, closes) =>
      var (o, ok) := Unloaded(w.objs[i].value, closes);
      World(w.objs[i := Some(o)], AfterUnload(w.led, w.objs[i].value, ok))
    case Destroy(i, closes) =>
      World(w.objs[i := None], AfterRelease(w.led, w.objs[i].value, closes))
  }

  /** 1 if the object is alive and owns `h`. */
  function OwnsOne(o: Option<Obj>, h: nat): nat {
    if o.Some? then Owned(o.value)[h] else 0
  }

  /** How many live objects own `h`. */
  function Owners(objs: seq<Option<Obj>>, h: nat): nat {
    if objs == [] then 0 else OwnsOne(objs[0], h) + Owners(objs[1..], h)
  }

  /** The flag agrees with the descriptor, and without it no handle is held. */
  predicate Sound(o: Obj) {
    (o.loaded <==> IsLoadedLib(o.lib)) && (!o.loaded ==> o.lib.handle == 0)
  }

  /** For one handle: opens minus closes are the live objects that own it plus
      the times it was abandoned. */
  predicate ConservedAt(w: World, h: nat) {
    w.led.dlopens[h] == w.led.dlcloses[h] + Owners(w.objs, h) + w.led.abandoned[h]
  }

  ghost predicate Conserved(w: World) {
    forall h: nat :: ConservedAt(w, h)
  }

  ghost predicate AllSound(w: World) {
    forall i :: 0 <= i < |w.objs| && w.objs[i].Some? ==> Sound(w.objs[i].value)
  }

  lemma {:induction false} OwnersUpdate(objs: seq<Option<Obj>>, i: nat, o: Option<Obj>, h: nat)
    requires i < |objs|
    ensures Owners(objs[i := o], h) == Owners(objs, h) - OwnsOne(objs[i], h) + OwnsOne(o, h)
  {
    var now := objs[i := o];
    if i == 0 {
      assert now[1..] == objs[1..];
    } else {
      assert now[1..] == objs[1..][i - 1 := o];
      OwnersUpdate(objs[1..], i - 1, o, h);
    }
  }

  lemma {:induction false} OwnersSnoc(objs: seq<Option<Obj>>, o: Option<Obj>, h: nat)
    ensures Owners(objs + [o], h) == Owners(objs, h) + OwnsOne(o, h)
  {
    if objs == [] {
      assert [o][1..] == [];
    } else {
      assert (objs + [o])[1..] == objs[1..] + [o];
      OwnersSnoc(objs[1..], o, h);
    }
  }

  /** The positions whose object is alive and owns the handle. */
  ghost function OwnerPositions(objs: seq<Option<Obj>>, h: nat): set<int> {
    set i | 0 <= i < |objs| && OwnsOne(objs[i], h) == 1
  }

  lemma OwnerPositionsSnoc(objs: seq<Option<Obj>>, o: Option<Obj>, h: nat)
    ensures OwnerPositions(objs + [o], h) ==
            OwnerPositions(objs, h) + (if OwnsOne(o, h) == 1 then {|objs|} else {})
  {
  }

  /** The count is that of distinct objects. */
  lemma {:induction false} OwnersAreObjects(objs: seq<Option<Obj>>, h: nat)
    ensures Owners(objs, h) == |OwnerPositions(objs, h)|
  {
    if objs == [] {
      assert OwnerPositions(objs, h) == {};
    } else {
      var front, last := objs[..|objs| - 1], objs[|objs| - 1];
      assert front + [last] == objs;
      OwnersAreObjects(front, h);
      OwnersSnoc(front, last, h);
      OwnerPositionsSnoc(front, last, h);
    }
  }

  lemma MoveNewConserves(w: World, src: nat, h: nat)
    requires ConservedAt(w, h) && Alive(w, src)
    ensures ConservedAt(Step(w, MoveNew(src)), h)
  {
    var o := w.objs[src].value;
    OwnersUpdate(w.objs, src, Some(MovedFrom(o)), h);
    OwnersSnoc(w.objs[src := Some(MovedFrom(o))], Some(o), h);
  }

  lemma MoveAssignConserves(w: World, dst: nat, src: nat, closes: bool, h: nat)
    requires ConservedAt(w, h) && Alive(w, dst) && Alive(w, src)
    ensures ConservedAt(Step(w, MoveAssign(dst, src, closes)), h)
  {
    if dst != src {
      var s := w.objs[src].value;
      OwnersUpdate(w.objs, dst, Some(s), h);
      OwnersUpdate(w.objs[dst := Some(s)], src, Some(MovedFrom(s)), h);
    }
  }

  lemma LoadConserves(w: World, i: nat, path: Option<CString>, answer: nat, h: nat)
    requires ConservedAt(w, h) && Alive(w, i)
    ensures ConservedAt(Step(w, Load(i, path, answer)), h)
  {
    OwnersUpdate(w.objs, i, Some(Loaded(w.objs[i].value, path, answer).0), h);
  }

  lemma UnloadConserves(w: World, i: nat, closes: bool, h: nat)
    requires ConservedAt(w, h) && Alive(w, i)
    ensures ConservedAt(Step(w, Unload(i, closes)), h)
  {
    OwnersUpdate(w.objs, i, Some(Unloaded(w.objs[i].value, closes).0), h);
  }

  lemma DestroyConserves(w: World, i: nat, closes: bool, h: nat)
    requires ConservedAt(w, h) && Alive(w, i)
    ensures ConservedAt(Step(w, Destroy(i, closes)), h)
  {
    OwnersUpdate(w.objs, i, None, h);
  }

  lemma NewConserves(w: World, path: Option<CString>, answer: nat, h: nat)
    requires ConservedAt(w, h)
    ensures ConservedAt(Step(w, New), h) && ConservedAt(Step(w, NewFromPath(path, answer)), h)
  {
    OwnersSnoc(w.objs, Some(FRESH), h);
    OwnersSnoc(w.objs, Some(Loaded(FRESH, path, answer).0), h);
  }

  lemma StepConserves(w: World, op: Op, h: nat)
    requires ConservedAt(w, h) && Legal(w, op)
    ensures ConservedAt(Step(w, op), h)
  {
    match op
    case New => NewConserves(w, None, 0, h);
    case NewFromPath(path, answer) => NewConserves(w, path, answer, h);
    case MoveNew(src) => MoveNewConserves(w, src, h);
    case MoveAssign(dst, src, closes) => MoveAssignConserves(w, dst, src, closes, h);
    case Load(i, path, answer) => LoadConserves(w, i, path, answer, h);
    case Unload(i, closes) => UnloadConserves(w, i, closes, h);
    case Destroy(i, closes) => DestroyConserves(w, i, closes, h);
  }

  lemma StepKeepsSound(w: World, op: Op)
    requires AllSound(w) && Legal(w, op)
    ensures AllSound(Step(w, op))
  {
  }

  // ---------------------------------------------------------------------
  // Whole runs
  // ---------------------------------------------------------------------

  const START := World([], Ledger(multiset{}, multiset{}, multiset{}))

  ghost predicate LegalRun(w: World, ops: seq<Op>)
    decreases |ops|
  {
    ops == [] || (Legal(w, ops[0]) && LegalRun(Step(w, ops[0]), ops[1..]))
  }

  ghost function Run(w: World, ops: seq<Op>): World
    requires LegalRun(w, ops)
    decreases |ops|
  {
    if ops == [] then w else Run(Step(w, ops[0]), ops[1..])
  }

  /** Over every run of any number of objects: flags agree with descriptors and
      every handle is conserved. */
  lemma {:induction false} RunConserves(w: World, ops: seq<Op>)
    requires AllSound(w) && Conserved(w) && LegalRun(w, ops)
    ensures AllSound(Run(w, ops)) && Conserved(Run(w, ops))
    decreases |ops|
  {
    if ops != [] {
      forall h: nat
        ensures ConservedAt(Step(w, ops[0]), h)
      {
        assert ConservedAt(w, h);
        StepConserves(w, ops[0], h);
      }
      StepKeepsSound(w, ops[0]);
      RunConserves(Step(w, ops[0]), ops[1..]);
    }
  }

  lemma RunOfOne(w: World, op: Op)
    requires Legal(w, op)
    ensures LegalRun(w, [op]) && Run(w, [op]) == Step(w, op)
  {
    var ops, w' := [op], Step(w, op);
    assert ops[1..] == [];
    assert LegalRun(w', []) && Run(w', []) == w';
    assert LegalRun(w', ops[1..]) && Run(w', ops[1..]) == w';
  }

  lemma StepIsGood(w: World, op: Op)
    requires AllSound(w) && Conserved(w) && Legal(w, op)
    ensures AllSound(Step(w, op)) && Conserved(Step(w, op))
  {
    RunOfOne(w, op);
    RunConserves(w, [op]);
  }

  lemma StartIsSound()
    ensures AllSound(START) && Conserved(START)
  {
  }

  /** A whole process, from no objects on. */
  lemma RunFromStart(ops: seq<Op>)
    requires LegalRun(START, ops)
    ensures AllSound(Run(START, ops)) && Conserved(Run(START, ops))
  {
    StartIsSound();
    RunConserves(START, ops);
  }

  lemma {:induction false} OwnersAtLeast(objs: seq<Option<Obj>>, i: nat, h: nat)
    requires i < |objs|
    ensures OwnsOne(objs[i], h) <= Owners(objs, h)
  {
    if i > 0 {
      OwnersAtLeast(objs[1..], i - 1, h);
    }
  }

  /** dlclose is only ever asked to close a handle that is open: whenever an
      object holds one, it has been opened more often than closed. */
  lemma HeldHandleIsOpen(w: World, i: nat, h: nat)
    requires Conserved(w) && Alive(w, i) && w.objs[i].value.loaded && w.objs[i].value.lib.handle == h
    ensures w.led.dlopens[h] > w.led.dlcloses[h]
  {
    assert ConservedAt(w, h);
    OwnersAtLeast(w.objs, i, h);
  }

  /** The one way to lose a handle: a destructor, or an assignment from another
      object, whose close fails although the object is loaded. */
  predicate Abandons(w: World, op: Op)
    requires Legal(w, op)
  {
    match op
    case MoveAssign(dst, src, closes) => dst != src && !closes && w.objs[dst].value.loaded
    case Destroy(i, closes) => !closes && w.objs[i].value.loaded
    case _ => false
  }

  ghost predicate NeverAbandons(w: World, ops: seq<Op>)
    requires LegalRun(w, ops)
    decreases |ops|
  {
    ops != [] ==> !Abandons(w, ops[0]) && NeverAbandons(Step(w, ops[0]), ops[1..])
  }

  lemma ReleaseAbandons(led: Ledger, o: Obj, closes: bool)
    requires Sound(o)
    ensures led.abandoned <= AfterRelease(led, o, closes).abandoned
    ensures AfterRelease(led, o, closes).abandoned == led.abandoned <==> closes || !o.loaded
  {
    var all := led.abandoned + Owned(o);
    if o.loaded {
      assert all[o.lib.handle] == led.abandoned[o.lib.handle] + 1;
    }
  }

  lemma StepAbandons(w: World, op: Op)
    requires AllSound(w) && Legal(w, op)
    ensures w.led.abandoned <= Step(w, op).led.abandoned
    ensures Step(w, op).led.abandoned == w.led.abandoned <==> !Abandons(w, op)
  {
    match op
    case MoveAssign(dst, src, closes) => ReleaseAbandons(w.led, w.objs[dst].value, closes);
    case Destroy(i, closes) => ReleaseAbandons(w.led, w.objs[i].value, closes);
    case _ =>
  }

  lemma {:induction false} AbandonedStays(w: World, ops: seq<Op>)
    requires AllSound(w) && LegalRun(w, ops)
    ensures w.led.abandoned <= Run(w, ops).led.abandoned
    decreases |ops|
  {
    if ops != [] {
      StepKeepsSound(w, ops[0]);
      StepAbandons(w, ops[0]);
      AbandonedStays(Step(w, ops[0]), ops[1..]);
    }
  }

  lemma Sandwiched(a: multiset<nat>, b: multiset<nat>, c: multiset<nat>)
    requires a <= b <= c && a == c
    ensures a == b
  {
  }

  lemma NothingIsLeast(a: multiset<nat>, b: multiset<nat>)
    requires a <= b
    ensures b == multiset{} <==> a == multiset{} && a == b
  {
    assert multiset{} <= a;
  }

  /** No handle is abandoned in a run exactly if no step of it abandons one. */
  lemma {:induction false} NothingAbandoned(w: World, ops: seq<Op>)
    requires AllSound(w) && LegalRun(w, ops)
    ensures Run(w, ops).led.abandoned == w.led.abandoned <==> NeverAbandons(w, ops)
    decreases |ops|
  {
    if ops != [] {
      var w' := Step(w, ops[0]);
      StepKeepsSound(w, ops[0]);
      StepAbandons(w, ops[0]);
      AbandonedStays(w', ops[1..]);
      NothingAbandoned(w', ops[1..]);
      if Run(w, ops).led.abandoned == w.led.abandoned {
        Sandwiched(w.led.abandoned, w'.led.abandoned, Run(w, ops).led.abandoned);
      }
    }
  }

  lemma {:induction false} NobodyOwns(objs: seq<Option<Obj>>, h: nat)
    requires forall i :: 0 <= i < |objs| ==> objs[i].None?
    ensures Owners(objs, h) == 0
  {
    if objs != [] {
      NobodyOwns(objs[1..], h);
    }
  }

  lemma OpensAreClosesPlus(led: Ledger)
    requires forall h: nat :: led.dlopens[h] == led.dlcloses[h] + led.abandoned[h]
    ensures led.dlopens == led.dlcloses + led.abandoned
    ensures led.dlopens == led.dlcloses <==> led.abandoned == multiset{}
  {
    assert led.dlopens == led.dlcloses + led.abandoned;
    if h :| h in led.abandoned {
      assert led.dlopens[h] != led.dlcloses[h];
    }
  }

  /** Once every object is gone, every open has its close or was abandoned; each
      one has its close exactly if nothing had been abandoned at the start and no
      step of the run abandons a handle. */
  lemma AllGoneAllClosed(w: World, ops: seq<Op>)
    requires AllSound(w) && Conserved(w) && LegalRun(w, ops)
    requires forall i :: 0 <= i < |Run(w, ops).objs| ==> Run(w, ops).objs[i].None?
    ensures Run(w, ops).led.dlopens == Run(w, ops).led.dlcloses + Run(w, ops).led.abandoned
    ensures Run(w, ops).led.dlopens == Run(w, ops).led.dlcloses <==>
            w.led.abandoned == multiset{} && NeverAbandons(w, ops)
  {
    var w' := Run(w, ops);
    RunConserves(w, ops);
    forall h: nat
      ensures w'.led.dlopens[h] == w'.led.dlcloses[h] + w'.led.abandoned[h]
    {
      assert ConservedAt(w', h);
      NobodyOwns(w'.objs, h);
    }
    OpensAreClosesPlus(w'.led);
    AbandonedStays(w, ops);
    NothingAbandoned(w, ops);
    NothingIsLeast(w.led.abandoned, w'.led.abandoned);
  }

  /** The shortest way to lose a handle: load, and a destructor whose close fails. */
  lemma FailedCloseAbandons()
    ensures var ops := [Op.NewFromPath(Some("a"), 1), Op.Destroy(0, false)];
            && LegalRun(START, ops)
            && !NeverAbandons(START, ops)
            && Run(START, ops).objs == [None]
            && Run(START, ops).led == Ledger(multiset{1}, multiset{}, multiset{1})
  {
    var load, destroy := Op.NewFromPath(Some("a"), 1), Op.Destroy(0, false);
    var ops := [load, destroy];
    var w := Step(START, load);
    assert w.objs == [Some(Obj(Lib(1, 1), true))];
    RunOfOne(w, destroy);
    assert ops[1..] == [destroy];
    assert LegalRun(w, ops[1..]) && Run(w, ops[1..]) == Step(w, destroy);
    assert NeverAbandons(START, ops) ==> NeverAbandons(w, [destroy]);
  }

  // ---------------------------------------------------------------------
  // The class
  // ---------------------------------------------------------------------

  /** The dynamic loader, seen through its successful calls. */
  class Loader {
    ghost var led: Ledger

    constructor ()
      ensures led == START.led
    {
      led := START.led;
    }

    /** dlopen with the given answer; 0 is a failure. */
    method Dlopen(answer: nat) returns (handle: nat)
      modifies this
      ensures handle == answer
      ensures led == AfterLoad(old(led), answer != 0, answer)
    {
      led := AfterLoad(led, answer != 0, answer);
      return answer;
    }

    /** dlclose of an open handle. */
    method Dlclose(handle: nat, closes: bool) returns (r: int)
      requires led.dlopens[handle] > led.dlcloses[handle]
      modifies this
      ensures r == 0 <==> closes
      ensures led == if closes then old(led).(dlcloses := old(led).dlcloses + multiset{handle}) else old(led)
    {
      if closes {
        led := led.(dlcloses := led.dlcloses + multiset{handle});
        return 0;
      }
      return -1;
    }
  }

  class Dynamic {
    const loader: Loader
    var handle: nat
    var status: int
    var loaded: bool

    ghost function View(): Obj
      reads this
    {
      Obj(Lib(handle, status), loaded)
    }

    /** What dlclose needs; `Registry` keeps it for all objects of a process. */
    ghost predicate HoldsOpenHandle()
      reads this, loader
    {
      loaded ==> handle != 0 && loader.led.dlopens[handle] > loader.led.dlcloses[handle]
    }

    constructor (l: Loader)
      ensures View() == FRESH && loader == l
    {
      loader, handle, status, loaded := l, 0, 0, false;
    }

    constructor FromPath(l: Loader, path: Option<CString>, answer: nat)
      modifies l
      ensures loader == l && View() == Loaded(FRESH, path, answer).0
      ensures l.led == AfterLoad(old(l.led), Loaded(FRESH, path, answer).1, answer)
    {
      loader, handle, status, loaded := l, 0, 0, false;
      new;
      var _ := Load(path, answer);
    }

    constructor MoveFrom(other: Dynamic)
      modifies other
      ensures loader == other.loader
      ensures View() == old(other.View()) && other.View() == MovedFrom(old(other.View()))
      ensures other.handle == 0 && !other.loaded && other.status == old(other.status)
    {
      loader, handle, status, loaded := other.loader, other.handle, other.status, other.loaded;
      new;
      other.handle := 0;
      other.loaded := false;
    }

    /** fossil_sys_dynamic_load on this descriptor. */
    method LoadLibrary(path: Option<CString>, answer: nat) returns (ok: bool)
      modifies this, loader
      ensures (Lib(handle, status), ok) == LoadLib(old(View()).lib, path, answer)
      ensures ok <==> path.Some? && answer != 0
      ensures if ok then handle == answer && status == 1 else handle == old(handle) && status == old(status)
      ensures loaded == old(loaded) && loader.led == AfterLoad(old(loader.led), ok, answer)
    {
      if path.None? {
        return false;
      }
      var h := loader.Dlopen(answer);
      if h == 0 {
        return false;
      }
      handle := h;
      status := 1;
      return true;
    }

    /** fossil_sys_dynamic_unload on this descriptor. */
    method UnloadLibrary(closes: bool) returns (ok: bool)
      requires handle != 0 ==> loader.led.dlopens[handle] > loader.led.dlcloses[handle]
      modifies this, loader
      ensures (Lib(handle, status), ok) == UnloadLib(old(View()).lib, closes)
      ensures ok <==> old(handle) != 0 && closes
      ensures if ok then handle == 0 && status == 0 else handle == old(handle) && status == old(status)
      ensures loaded == old(loaded)
      ensures loader.led == if ok then old(loader.led).(dlcloses := old(loader.led).dlcloses + multiset{old(handle)})
                            else old(loader.led)
    {
      if handle == 0 {
        return false;
      }
      var r := loader.Dlclose(handle, closes);
      if r != 0 {
        return false;
      }
      handle := 0;
      status := 0;
      return true;
    }

    method Load(path: Option<CString>, answer: nat) returns (r: bool)
      modifies this, loader
      ensures (View(), r) == Loaded(old(View()), path, answer)
      ensures loader.led == AfterLoad(old(loader.led), r, answer)
      ensures r <==> !old(loaded) && answer != 0 && path.Some? && path.value != "" && path.value[0] != '.'
                     && forall i :: 0 <= i < |path.value| - 1 ==> path.value[i] != '.' || path.value[i + 1] != '.'
      ensures r ==> loaded && handle == answer && loader.led.dlopens == old(loader.led.dlopens) + multiset{answer}
      ensures !r ==> View() == old(View()) && loader.led == old(loader.led)
    {
      LoadsExactly(View(), path, answer);
      if loaded {
        return false;
      }
      if !ValidPath(path) {
        return false;
      }
      var ok := LoadLibrary(path, answer);
      if !ok {
        return false;
      }
      loaded := true;
      return true;
    }

    method Unload(closes: bool) returns (r: bool)
      requires HoldsOpenHandle()
      modifies this, loader
      ensures (View(), r) == Unloaded(old(View()), closes)
      ensures loader.led == AfterUnload(old(loader.led), old(View()), r)
      ensures r <==> old(loaded) && closes
      ensures r ==>
                && !loaded && handle == 0
                && loader.led.dlcloses == old(loader.led.dlcloses) + multiset{old(handle)}
      ensures !r ==> View() == old(View()) && loader.led == old(loader.led)
    {
      if !loaded {
        return false;
      }
      var ok := UnloadLibrary(closes);
      if !ok {
        return false;
      }
      loaded := false;
      return true;
    }

    /** The destructor's work; a handle that does not close is abandoned. */
    method Destroy(closes: bool)
      requires HoldsOpenHandle()
      modifies this, loader
      ensures loader.led == AfterRelease(old(loader.led), old(View()), closes)
      ensures old(loaded) && closes ==> loader.led.dlcloses == old(loader.led.dlcloses) + multiset{old(handle)}
      ensures !old(loaded) || !closes ==> loader.led.dlcloses == old(loader.led.dlcloses)
      ensures !loaded
    {
      if loaded {
        ghost var held := handle;
        var ok := UnloadLibrary(closes);
        if !ok {
          loader.led := loader.led.(abandoned := loader.led.abandoned + multiset{held});
        }
        loaded := false;
      }
    }

    method MoveAssign(other: Dynamic, closes: bool)
      requires HoldsOpenHandle() && other.loader == loader
      modifies this, other, loader
      ensures other == this ==> View() == old(View()) && loader.led == old(loader.led)
      ensures other != this ==>
                && View() == old(other.View())
                && other.View() == MovedFrom(old(other.View()))
                && other.handle == 0 && !other.loaded && other.status == old(other.status)
                && loader.led == AfterRelease(old(loader.led), old(View()), closes)
    {
      if other != this {
        if loaded {
          ghost var held := handle;
          var ok := UnloadLibrary(closes);
          if !ok {
            loader.led := loader.led.(abandoned := loader.led.abandoned + multiset{held});
          }
        }
        handle, status, loaded := other.handle, other.status, other.loaded;
        other.handle := 0;
        other.loaded := false;
      }
    }

    method IsLoaded() returns (r: bool)
      ensures r == loaded
      ensures Sound(View()) ==> (r <==> IsLoadedLib(View().lib)) && (r <==> handle != 0 && status == 1)
    {
      return loaded;
    }
  }

  // ---------------------------------------------------------------------
  // All the objects of a process
  // ---------------------------------------------------------------------

  /** `o` is the object that `seen` describes, or gone. */
  ghost predicate Mirrors(o: Dynamic?, loader: Loader, seen: Option<Obj>)
    reads o
  {
    if o == null then seen == None else o.loader == loader && seen == Some(o.View())
  }

  /** The objects of a process over one loader, numbered as they are constructed;
      null marks a destroyed one. Each method takes its step on `world`, so every
      object holds an open handle whenever it is asked to close it. */
  class Registry {
    const loader: Loader
    var objs: seq<Dynamic?>
    ghost var world: World

    ghost predicate Valid()
      reads this, objs, loader
    {
      && |objs| == |world.objs|
      && world.led == loader.led
      && (forall j, k :: 0 <= j < k < |objs| && objs[j] != null ==> objs[j] != objs[k])
      && (forall i :: 0 <= i < |objs| ==> Mirrors(objs[i], loader, world.objs[i]))
      && AllSound(world) && Conserved(world)
    }

    constructor ()
      ensures Valid() && world == START && fresh(loader)
    {
      loader := new Loader();
      objs, world := [], START;
      new;
      StartIsSound();
    }

    /** The loader is only ever asked to close a handle that is open. */
    lemma HoldsOpen(i: nat)
      requires Valid() && Alive(world, i)
      ensures objs[i] != null && objs[i].loader == loader && objs[i].HoldsOpenHandle()
    {
      assert Mirrors(objs[i], loader, world.objs[i]);
      if objs[i].loaded {
        HeldHandleIsOpen(world, i, objs[i].handle);
      }
    }

    method New() returns (o: Dynamic)
      requires Valid()
      modifies this
      ensures Valid() && world == Step(old(world), Op.New)
      ensures objs == old(objs) + [o] && fresh(o)
    {
      StepIsGood(world, Op.New);
      o := new Dynamic(loader);
      objs := objs + [o];
      world := Step(world, Op.New);
    }

    method NewFromPath(path: Option<CString>, answer: nat) returns (o: Dynamic)
      requires Valid()
      modifies this, loader
      ensures Valid() && world == Step(old(world), Op.NewFromPath(path, answer))
      ensures objs == old(objs) + [o] && fresh(o)
    {
      StepIsGood(world, Op.NewFromPath(path, answer));
      o := new Dynamic.FromPath(loader, path, answer);
      objs := objs + [o];
      world := Step(world, Op.NewFromPath(path, answer));
    }

    method MoveNew(src: nat) returns (o: Dynamic)
      requires Valid() && Alive(world, src)
      modifies this, objs[src]
      ensures Valid() && world == Step(old(world), Op.MoveNew(src))
      ensures objs == old(objs) + [o] && fresh(o)
    {
      StepIsGood(world, Op.MoveNew(src));
      assert Mirrors(objs[src], loader, world.objs[src]);
      o := new Dynamic.MoveFrom(objs[src]);
      objs := objs + [o];
      world := Step(world, Op.MoveNew(src));
    }

    method MoveAssign(dst: nat, src: nat, closes: bool)
      requires Valid() && Alive(world, dst) && Alive(world, src)
      modifies this, loader, objs[dst], objs[src]
      ensures Valid() && world == Step(old(world), Op.MoveAssign(dst, src, closes))
      ensures objs == old(objs)
    {
      StepIsGood(world, Op.MoveAssign(dst, src, closes));
      HoldsOpen(dst);
      assert Mirrors(objs[src], loader, world.objs[src]);
      objs[dst].MoveAssign(objs[src], closes);
      world := Step(world, Op.MoveAssign(dst, src, closes));
    }

    method Load(i: nat, path: Option<CString>, answer: nat) returns (r: bool)
      requires Valid() && Alive(world, i)
      modifies this, loader, objs[i]
      ensures Valid() && world == Step(old(world), Op.Load(i, path, answer))
      ensures objs == old(objs) && r == Loaded(old(world).objs[i].value, path, answer).1
    {
      StepIsGood(world, Op.Load(i, path, answer));
      assert Mirrors(objs[i], loader, world.objs[i]);
      r := objs[i].Load(path, answer);
      world := Step(world, Op.Load(i, path, answer));
    }

    method Unload(i: nat, closes: bool) returns (r: bool)
      requires Valid() && Alive(world, i)
      modifies this, loader, objs[i]
      ensures Valid() && world == Step(old(world), Op.Unload(i, closes))
      ensures objs == old(objs) && r == Unloaded(old(world).objs[i].value, closes).1
    {
      StepIsGood(world, Op.Unload(i, closes));
      HoldsOpen(i);
      r := objs[i].Unload(closes);
      world := Step(world, Op.Unload(i, closes));
    }

    method Destroy(i: nat, closes: bool)
      requires Valid() && Alive(world, i)
      modifies this, loader, objs[i]
      ensures Valid() && world == Step(old(world), Op.Destroy(i, closes))
      ensures objs == old(objs)[i := null]
    {
      StepIsGood(world, Op.Destroy(i, closes));
      HoldsOpen(i);
      objs[i].Destroy(closes);
      objs := objs[i := null];
      world := Step(world, Op.Destroy(i, closes));
    }
  }
}
