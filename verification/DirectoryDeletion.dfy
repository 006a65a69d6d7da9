/** Recursive directory deletion (code/logic/syscall.c, POSIX branch) over a
    finite file tree without symbolic links. */
module DirectoryDeletion {
  import opened CStrings
  import opened DirectoryEntries

  type Path = seq<CString>

  datatype Kind = File | Dir

  /** What is there, by absolute path. */
  type Tree = map<Path, Kind>

  const ENOENT: nat := 2
  const ENOTDIR: nat := 20
  const ENOTEMPTY: nat := 39
  const EISDIR: nat := 21

  function Parent(p: Path): Path
    requires p != []
  {
    p[..|p| - 1]
  }

  /** How the kernel resolves `dir/name`; the reason why the two dot entries
      have to be skipped. */
  function Resolve(dir: Path, name: CString): Path {
    if name == "." then dir
    else if name == ".." then (if dir == [] then dir else Parent(dir))
    else dir + [name]
  }

  /** Everything but the root of the file system hangs in a directory. */
  ghost predicate IsTree(t: Tree) {
    forall p {:trigger Parent(p)} :: p in t && p != [] ==>
      Parent(p) in t && t[Parent(p)] == Dir && !IsDots(p[|p| - 1])
  }

  /** The faults of a run, one errno for each call and path; 0 is none. */
  datatype Faults = Faults(stat: Path -> nat, opendir: Path -> nat, unlink: Path -> nat, rmdir: Path -> nat)

  // ---------------------------------------------------------------------
  // What survives
  // ---------------------------------------------------------------------

  /** `a` is a directory that is never entered: its stat fails (the starting
      directory is not asked for), or it cannot be opened. */
  predicate Blocked(f: Faults, t: Tree, r: Path, a: Path)
    requires a in t
  {
    t[a] == Dir && ((a != r && f.stat(a) != 0) || f.opendir(a) != 0)
  }

  /** The own step of a node fails. */
  predicate StepFails(f: Faults, t: Tree, r: Path, q: Path)
    requires q in t
  {
    || (q != r && f.stat(q) != 0)
    || (if t[q] == File then q == r || f.unlink(q) != 0 else f.opendir(q) != 0 || f.rmdir(q) != 0)
  }

  /** A node of the subtree at `r` survives if and only if an ancestor inside the
      subtree is never entered, or its own step or that of a descendant fails. */
  ghost predicate Survives(f: Faults, t: Tree, r: Path, p: Path)
    requires p in t
  {
    || (exists a :: a in t && r <= a < p && Blocked(f, t, r, a))
    || (exists q :: q in t && p <= q && StepFails(f, t, r, q))
  }

  ghost predicate Removed(f: Faults, t: Tree, r: Path, p: Path)
    requires p in t
  {
    r <= p && !Survives(f, t, r, p)
  }

  ghost function Gone(f: Faults, t: Tree, r: Path): set<Path> {
    set p | p in t && Removed(f, t, r, p)
  }

  /** The tree after deleting the subtree at `r`. */
  ghost function Pruned(f: Faults, t: Tree, r: Path): Tree {
    t - Gone(f, t, r)
  }

  // ---------------------------------------------------------------------
  // Ancestors and subtrees
  // ---------------------------------------------------------------------

  lemma {:induction false} AncestorsPresent(t: Tree, p: Path, a: Path)
    requires IsTree(t) && p in t && p != [] && a <= p
    ensures a in t && (a < p ==> t[a] == Dir)
    decreases |p|
  {
    if a < Parent(p) {
      AncestorsPresent(t, Parent(p), a);
    } else if a < p {
      assert a == Parent(p);
    } else {
      assert a == p;
    }
  }

  /** Survivors are closed under parents, up to the starting directory. */
  lemma SurvivorsKeepTheirParent(f: Faults, t: Tree, r: Path, p: Path)
    requires IsTree(t) && p in t && r < p && Survives(f, t, r, p)
    ensures Parent(p) in t && r <= Parent(p) && Survives(f, t, r, Parent(p))
  {
  }

  lemma SurvivesFromBelow(f: Faults, t: Tree, r: Path, p: Path, q: Path)
    requires p in t && r <= p && q in t && p < q && Survives(f, t, r, q)
    ensures Survives(f, t, r, p)
  {
    if a :| a in t && r <= a < q && Blocked(f, t, r, a) {
      assert a < p || p <= a;
      assert StepFails(f, t, r, a);
    }
  }

  /** Inside a subtree that is entered, survival goes up one step at a time: a
      node survives exactly if its own step fails or a child survives; and, what
      is the same, if some node below it survives. */
  lemma {:induction false} SurvivalComesFromBelow(f: Faults, t: Tree, r: Path, p: Path)
    requires IsTree(t) && p in t && r <= p
    requires forall a :: a in t && r <= a < p ==> !Blocked(f, t, r, a)
    ensures Survives(f, t, r, p) <==>
            StepFails(f, t, r, p) || exists c :: c in t && c != [] && Parent(c) == p && Survives(f, t, r, c)
    ensures Survives(f, t, r, p) <==>
            StepFails(f, t, r, p) || exists q :: q in t && p < q && Survives(f, t, r, q)
  {
    if Survives(f, t, r, p) && !StepFails(f, t, r, p) {
      var q :| q in t && p <= q && StepFails(f, t, r, q);
      assert q != p;
      assert q[..|p|] == p;
      var c := q[..|p| + 1];
      AncestorsPresent(t, q, c);
      assert Parent(c) == p && p < c && Survives(f, t, r, c);
    }
    if q :| q in t && p < q && Survives(f, t, r, q) {
      SurvivesFromBelow(f, t, r, p, q);
    }
    if c :| c in t && c != [] && Parent(c) == p && Survives(f, t, r, c) {
      SurvivesFromBelow(f, t, r, p, c);
    }
  }

  /** A directory that is never entered keeps its whole subtree. */
  lemma BlockedKeepsSubtree(f: Faults, t: Tree, r: Path, a: Path, p: Path)
    requires a in t && p in t && r <= a <= p && Blocked(f, t, r, a)
    ensures Survives(f, t, r, p)
  {
  }

  /** Nothing outside the subtree changes; inside it, what remains is exactly
      what survives. */
  lemma PrunedMembers(f: Faults, t: Tree, r: Path, p: Path)
    ensures p in Pruned(f, t, r) <==> p in t && (r <= p ==> Survives(f, t, r, p))
    ensures p in Pruned(f, t, r) ==> Pruned(f, t, r)[p] == t[p]
  {
  }

  lemma PrunedIsTree(f: Faults, t: Tree, r: Path)
    requires IsTree(t)
    ensures IsTree(Pruned(f, t, r))
  {
    var u := Pruned(f, t, r);
    forall p | p in u && p != []
      ensures Parent(p) in u && u[Parent(p)] == Dir && !IsDots(p[|p| - 1])
    {
      if r <= Parent(p) {
        assert r < p;
        SurvivorsKeepTheirParent(f, t, r, p);
      }
    }
  }

  /** Without faults the directory goes with everything below it. */
  lemma NoFaultsRemoveAll(f: Faults, t: Tree, r: Path, p: Path)
    requires IsTree(t) && r in t && t[r] == Dir
    requires forall q: Path :: f.stat(q) == 0 && f.opendir(q) == 0 && f.unlink(q) == 0 && f.rmdir(q) == 0
    ensures p in Pruned(f, t, r) <==> p in t && !(r <= p)
  {
  }

  // ---------------------------------------------------------------------
  // One directory level
  // ---------------------------------------------------------------------

  ghost predicate RemovedBelow(f: Faults, t: Tree, r: Path, done: set<CString>, p: Path)
    requires p in t
  {
    r < p && p[|r|] in done && !Survives(f, t, r, p)
  }

  ghost function GoneBelow(f: Faults, t: Tree, r: Path, done: set<CString>): set<Path> {
    set p | p in t && RemovedBelow(f, t, r, done, p)
  }

  /** Part way through the loop over `r`: the children called `done` have been
      dealt with. */
  ghost function PrunedBelow(f: Faults, t: Tree, r: Path, done: set<CString>): Tree {
    t - GoneBelow(f, t, r, done)
  }

  lemma PrunedBelowIsTree(f: Faults, t: Tree, r: Path, done: set<CString>)
    requires IsTree(t)
    ensures IsTree(PrunedBelow(f, t, r, done))
  {
    var u := PrunedBelow(f, t, r, done);
    forall p | p in u && p != []
      ensures Parent(p) in u && u[Parent(p)] == Dir && !IsDots(p[|p| - 1])
    {
      var up := Parent(p);
      if r < up && up[|r|] in done {
        assert r < p && p[|r|] == up[|r|];
        SurvivorsKeepTheirParent(f, t, r, p);
      }
    }
  }

  /** `c` is the child `name` of a directory `r` whose loop runs. */
  ghost predicate Entered(f: Faults, t: Tree, r: Path) {
    IsTree(t) && r in t && t[r] == Dir && f.opendir(r) == 0
  }

  ghost predicate SameBelow(t: Tree, u: Tree, c: Path) {
    forall q :: c <= q ==> (q in t <==> q in u) && (q in t ==> t[q] == u[q])
  }

  lemma AncestorBelowChild(r: Path, name: CString, a: Path, p: Path)
    requires r < a <= p && r + [name] <= p
    ensures r + [name] <= a
  {
  }

  lemma SurvivesFromChild(f: Faults, t: Tree, u: Tree, r: Path, name: CString, p: Path)
    requires Entered(f, t, r) && r + [name] <= p && p in t && f.stat(r + [name]) == 0
    requires r + [name] in t && t[r + [name]] == Dir && SameBelow(t, u, r + [name])
    requires Survives(f, t, r, p)
    ensures Survives(f, u, r + [name], p)
  {
    var c := r + [name];
    if a :| a in t && r <= a < p && Blocked(f, t, r, a) {
      assert a != r;
      AncestorBelowChild(r, name, a, p);
      assert a in u && Blocked(f, u, c, a);
    } else {
      var q :| q in t && p <= q && StepFails(f, t, r, q);
      assert c <= q && q in u && StepFails(f, u, c, q);
    }
  }

  lemma SurvivesFromParent(f: Faults, t: Tree, u: Tree, r: Path, name: CString, p: Path)
    requires Entered(f, t, r) && r + [name] <= p && p in t && f.stat(r + [name]) == 0
    requires r + [name] in t && t[r + [name]] == Dir && SameBelow(t, u, r + [name])
    requires Survives(f, u, r + [name], p)
    ensures Survives(f, t, r, p)
  {
  }

  lemma ChildIsUntouched(f: Faults, t: Tree, r: Path, done: set<CString>, name: CString)
    requires name !in done
    ensures SameBelow(t, PrunedBelow(f, t, r, done), r + [name])
  {
  }

  /** Nodes whose first step below `r` is `name` are those below that child. */
  lemma BelowChild(r: Path, name: CString, p: Path)
    ensures r + [name] <= p <==> r < p && p[|r|] == name
  {
  }

  /** The loop leaves a child alone that is gone, or whose stat or unlink fails:
      and then its whole subtree survives. */
  lemma ChildLeftAlone(f: Faults, t: Tree, r: Path, done: set<CString>, name: CString)
    requires Entered(f, t, r)
    requires r + [name] in t ==>
               f.stat(r + [name]) != 0 || (t[r + [name]] == File && f.unlink(r + [name]) != 0)
    ensures PrunedBelow(f, t, r, done + {name}) == PrunedBelow(f, t, r, done)
  {
    var c := r + [name];
    forall p | p in t && c <= p
      ensures Survives(f, t, r, p)
    {
      AncestorsPresent(t, p, c);
      assert r <= c;
      if c == p {
        assert StepFails(f, t, r, c);
      } else {
        assert Blocked(f, t, r, c);
      }
    }
    forall p | p in t
      ensures r < p && p[|r|] == name ==> Survives(f, t, r, p)
    {
      BelowChild(r, name, p);
    }
  }

  lemma FileHasNothingBelow(t: Tree, c: Path, p: Path)
    requires IsTree(t) && c in t && t[c] == File && p in t && c <= p
    ensures p == c
  {
    if c < p {
      AncestorsPresent(t, p, c);
    }
  }

  lemma FileDoesNotSurvive(f: Faults, t: Tree, r: Path, name: CString)
    requires Entered(f, t, r) && r + [name] in t && t[r + [name]] == File
    requires f.stat(r + [name]) == 0 && f.unlink(r + [name]) == 0
    ensures !Survives(f, t, r, r + [name])
  {
    var c := r + [name];
    forall a | a in t && r <= a < c
      ensures !Blocked(f, t, r, a)
    {
      assert a == r;
    }
    forall q | q in t && c <= q
      ensures !StepFails(f, t, r, q)
    {
      FileHasNothingBelow(t, c, q);
    }
  }

  lemma RemovedOne(f: Faults, t: Tree, r: Path, done: set<CString>, name: CString, p: Path)
    requires IsTree(t) && name !in done && r + [name] in t && t[r + [name]] == File
    requires !Survives(f, t, r, r + [name]) && p in t
    ensures RemovedBelow(f, t, r, done + {name}, p) <==> RemovedBelow(f, t, r, done, p) || p == r + [name]
  {
    BelowChild(r, name, p);
    if r + [name] <= p {
      FileHasNothingBelow(t, r + [name], p);
    }
  }

  lemma RemoveInTwoSteps(t: Tree, a: set<Path>, b: set<Path>)
    ensures t - (a + b) == (t - a) - b
  {
  }

  lemma RemoveOne(f: Faults, t: Tree, r: Path, done: set<CString>, name: CString)
    requires IsTree(t) && name !in done && r + [name] in t && t[r + [name]] == File
    requires !Survives(f, t, r, r + [name])
    ensures PrunedBelow(f, t, r, done + {name}) == PrunedBelow(f, t, r, done) - {r + [name]}
  {
    forall p | p in t
      ensures RemovedBelow(f, t, r, done + {name}, p) <==> RemovedBelow(f, t, r, done, p) || p == r + [name]
    {
      RemovedOne(f, t, r, done, name, p);
    }
    assert GoneBelow(f, t, r, done + {name}) == GoneBelow(f, t, r, done) + {r + [name]};
    RemoveInTwoSteps(t, GoneBelow(f, t, r, done), {r + [name]});
  }

  lemma ChildFileRemoved(f: Faults, t: Tree, r: Path, done: set<CString>, name: CString)
    requires Entered(f, t, r) && name !in done && r + [name] in t && t[r + [name]] == File
    requires f.stat(r + [name]) == 0 && f.unlink(r + [name]) == 0
    ensures PrunedBelow(f, t, r, done + {name}) == PrunedBelow(f, t, r, done) - {r + [name]}
  {
    var c := r + [name];
    FileDoesNotSurvive(f, t, r, name);
    RemoveOne(f, t, r, done, name);
  }

  lemma RemovedWithChild(f: Faults, t: Tree, u: Tree, r: Path, done: set<CString>, name: CString, p: Path)
    requires Entered(f, t, r) && name !in done && r + [name] in t && t[r + [name]] == Dir
    requires f.stat(r + [name]) == 0 && p in t
    requires SameBelow(t, u, r + [name])
    ensures RemovedBelow(f, t, r, done + {name}, p) <==>
            RemovedBelow(f, t, r, done, p) || (p in u && Removed(f, u, r + [name], p))
  {
    BelowChild(r, name, p);
    if r + [name] <= p {
      if Survives(f, t, r, p) {
        SurvivesFromChild(f, t, u, r, name, p);
      }
      if Survives(f, u, r + [name], p) {
        SurvivesFromParent(f, t, u, r, name, p);
      }
    }
  }

  lemma ChildDirectoryPruned(f: Faults, t: Tree, r: Path, done: set<CString>, name: CString)
    requires Entered(f, t, r) && name !in done && r + [name] in t && t[r + [name]] == Dir
    requires f.stat(r + [name]) == 0
    ensures PrunedBelow(f, t, r, done + {name}) == Pruned(f, PrunedBelow(f, t, r, done), r + [name])
  {
    var u, c := PrunedBelow(f, t, r, done), r + [name];
    ChildIsUntouched(f, t, r, done, name);
    forall p | p in t
      ensures RemovedBelow(f, t, r, done + {name}, p) <==>
              RemovedBelow(f, t, r, done, p) || (p in u && Removed(f, u, c, p))
    {
      RemovedWithChild(f, t, u, r, done, name, p);
    }
    assert GoneBelow(f, t, r, done + {name}) == GoneBelow(f, t, r, done) + Gone(f, u, c);
    RemoveInTwoSteps(t, GoneBelow(f, t, r, done), Gone(f, u, c));
  }

  /** What one round of the loop does to the tree. */
  ghost function AfterEntry(f: Faults, t: Tree, c: Path): Tree {
    if c !in t || f.stat(c) != 0 then t
    else if t[c] == Dir then Pruned(f, t, c)
    else if f.unlink(c) == 0 then t - {c}
    else t
  }

  lemma EntryDone(f: Faults, t: Tree, r: Path, done: set<CString>, name: CString)
    requires Entered(f, t, r) && name !in done
    ensures AfterEntry(f, PrunedBelow(f, t, r, done), r + [name]) == PrunedBelow(f, t, r, done + {name})
  {
    var c := r + [name];
    ChildIsUntouched(f, t, r, done, name);
    assert c in t <==> c in PrunedBelow(f, t, r, done);
    if c in t && f.stat(c) == 0 && t[c] == Dir {
      ChildDirectoryPruned(f, t, r, done, name);
    } else if c in t && f.stat(c) == 0 && f.unlink(c) == 0 {
      ChildFileRemoved(f, t, r, done, name);
    } else {
      ChildLeftAlone(f, t, r, done, name);
    }
  }

  // ---------------------------------------------------------------------
  // The final rmdir
  // ---------------------------------------------------------------------

  ghost predicate HasChild(t: Tree, r: Path) {
    exists q :: q in t && q != [] && Parent(q) == r
  }

  ghost predicate ListsChildren(t: Tree, r: Path, done: set<CString>) {
    forall p :: p in t && r < p ==> p[|r|] in done
  }

  lemma ChildLeftMeansFailure(f: Faults, t: Tree, r: Path, done: set<CString>)
    requires Entered(f, t, r) && ListsChildren(t, r, done) && HasChild(PrunedBelow(f, t, r, done), r)
    ensures exists q :: q in t && r < q && StepFails(f, t, r, q)
  {
    var c :| c in PrunedBelow(f, t, r, done) && c != [] && Parent(c) == r;
    assert r < c && c[|r|] in done && Survives(f, t, r, c);
    assert forall a :: a in t && r <= a < c ==> a == r;
    var q :| q in t && c <= q && StepFails(f, t, r, q);
    assert r < q;
  }

  lemma FailureLeavesChild(f: Faults, t: Tree, r: Path, done: set<CString>, q: Path)
    requires Entered(f, t, r) && q in t && r < q && StepFails(f, t, r, q)
    ensures HasChild(PrunedBelow(f, t, r, done), r)
  {
    var c := q[..|r| + 1];
    AncestorsPresent(t, q, c);
    assert Survives(f, t, r, c);
    assert Parent(c) == r && c in PrunedBelow(f, t, r, done);
  }

  /** When all children have been dealt with, the directory is empty exactly if
      no step below it has failed; so rmdir's own check reports what the
      recursion ignored. */
  lemma EmptyIffNothingBelowFailed(f: Faults, t: Tree, r: Path, done: set<CString>)
    requires Entered(f, t, r) && ListsChildren(t, r, done)
    ensures HasChild(PrunedBelow(f, t, r, done), r) <==> exists q :: q in t && r < q && StepFails(f, t, r, q)
  {
    if HasChild(PrunedBelow(f, t, r, done), r) {
      ChildLeftMeansFailure(f, t, r, done);
    }
    if q :| q in t && r < q && StepFails(f, t, r, q) {
      FailureLeavesChild(f, t, r, done, q);
    }
  }

  lemma RootSurvives(f: Faults, t: Tree, r: Path)
    requires Entered(f, t, r)
    ensures Survives(f, t, r, r) <==> f.rmdir(r) != 0 || exists q :: q in t && r < q && StepFails(f, t, r, q)
  {
  }

  /** Why the directory is still there after the call, or 0; a function of the
      tree before the call. */
  ghost function FinalErrno(f: Faults, t: Tree, r: Path): int {
    if r !in t then ENOENT
    else if t[r] == File then ENOTDIR
    else if f.opendir(r) != 0 then f.opendir(r)
    else if exists q :: q in t && r < q && StepFails(f, t, r, q) then ENOTEMPTY
    else f.rmdir(r)
  }

  lemma NotEntered(f: Faults, t: Tree, r: Path)
    requires IsTree(t) && !Entered(f, t, r)
    ensures Pruned(f, t, r) == t
  {
    forall p | p in t && r <= p
      ensures Survives(f, t, r, p)
    {
      if p != [] {
        AncestorsPresent(t, p, r);
      }
      if t[r] == Dir {
        BlockedKeepsSubtree(f, t, r, r, p);
      } else {
        assert StepFails(f, t, r, r);
      }
    }
  }

  /** The reasons: nothing there, no directory, not opened, something below it
      left, or the fault of the last step. */
  lemma FinalErrnoReasons(f: Faults, t: Tree, r: Path)
    ensures r !in t ==> FinalErrno(f, t, r) == 2
    ensures r in t && t[r] == File ==> FinalErrno(f, t, r) == 20
    ensures r in t && t[r] == Dir && f.opendir(r) != 0 ==> FinalErrno(f, t, r) == f.opendir(r)
    ensures r in t && t[r] == Dir && f.opendir(r) == 0 ==>
              FinalErrno(f, t, r) ==
              if exists q :: q in t && r < q && StepFails(f, t, r, q) then 39 else f.rmdir(r)
  {
  }

  /** The return code is 0 exactly if the directory was there and is gone. */
  lemma {:induction false} FinalErrnoIsExact(f: Faults, t: Tree, r: Path)
    requires IsTree(t)
    ensures FinalErrno(f, t, r) >= 0
    ensures FinalErrno(f, t, r) == 0 <==> r in t && r !in Pruned(f, t, r)
  {
    if Entered(f, t, r) {
      RootSurvives(f, t, r);
    } else {
      NotEntered(f, t, r);
    }
  }

  lemma PrunedFromLoop(f: Faults, t: Tree, r: Path, done: set<CString>)
    requires Entered(f, t, r) && ListsChildren(t, r, done)
    ensures Survives(f, t, r, r) ==> Pruned(f, t, r) == PrunedBelow(f, t, r, done)
    ensures !Survives(f, t, r, r) ==> Pruned(f, t, r) == PrunedBelow(f, t, r, done) - {r}
  {
  }

  /** rmdir succeeds exactly if the directory is not to survive, and then it
      completes the work. */
  lemma LoopDone(f: Faults, t: Tree, r: Path, done: set<CString>)
    requires Entered(f, t, r) && ListsChildren(t, r, done)
    ensures var u := PrunedBelow(f, t, r, done);
            && r in u && u[r] == Dir
            && (f.rmdir(r) == 0 && !HasChild(u, r) <==> r !in Pruned(f, t, r))
            && Pruned(f, t, r) == if f.rmdir(r) == 0 && !HasChild(u, r) then u - {r} else u
  {
    EmptyIffNothingBelowFailed(f, t, r, done);
    RootSurvives(f, t, r);
    PrunedFromLoop(f, t, r, done);
  }

  // ---------------------------------------------------------------------
  // Going down
  // ---------------------------------------------------------------------

  lemma LeafRemovalKeepsTree(t: Tree, p: Path)
    requires IsTree(t) && !HasChild(t, p)
    ensures IsTree(t - {p})
  {
  }

  ghost function Wanted(names: seq<CString>): set<CString> {
    set n | n in names && !IsDots(n)
  }

  lemma WantedStep(names: seq<CString>, i: nat)
    requires i < |names|
    requires forall j, k :: 0 <= j < k < |names| && !IsDots(names[k]) ==> names[j] != names[k]
    ensures Wanted(names[..i + 1]) == Wanted(names[..i]) + (if IsDots(names[i]) then {} else {names[i]})
    ensures !IsDots(names[i]) ==> names[i] !in Wanted(names[..i])
  {
  }

  ghost function Subtree(t: Tree, r: Path): set<Path> {
    set p | p in t && r <= p
  }

  /** A name leads to a properly smaller subtree exactly if it is no dot entry;
      so the recursion goes down only because the dot entries are skipped. */
  lemma SubtreeShrinks(t: Tree, r: Path, name: CString)
    requires r in t
    ensures Subtree(t, Resolve(r, name)) < Subtree(t, r) <==> !IsDots(name)
  {
    var c := Resolve(r, name);
    assert r in Subtree(t, r);
    if IsDots(name) {
      assert c <= r;
      assert forall p :: p in Subtree(t, r) ==> p in Subtree(t, c);
    } else {
      assert r < c && r !in Subtree(t, c);
      assert forall p :: p in Subtree(t, c) ==> p in Subtree(t, r);
    }
  }

  lemma SubtreeOfPruned(f: Faults, t: Tree, r: Path, done: set<CString>, c: Path)
    ensures Subtree(PrunedBelow(f, t, r, done), c) <= Subtree(t, c)
  {
  }

  /** What a round of the loop needs and what it achieves. */
  lemma Round(f: Faults, t: Tree, r: Path, done: set<CString>, name: CString)
    requires Entered(f, t, r) && name !in done && !IsDots(name)
    ensures var u := PrunedBelow(f, t, r, done);
            && IsTree(u)
            && Subtree(u, Resolve(r, name)) < Subtree(t, r)
            && AfterEntry(f, u, Resolve(r, name)) == PrunedBelow(f, t, r, done + {name})
  {
    PrunedBelowIsTree(f, t, r, done);
    SubtreeShrinks(t, r, name);
    SubtreeOfPruned(f, t, r, done, Resolve(r, name));
    EntryDone(f, t, r, done, name);
  }

  lemma AllChildrenListed(t: Tree, r: Path, names: seq<CString>, done: set<CString>)
    requires IsTree(t)
    requires forall n :: n in names <==> n == "." || n == ".." || r + [n] in t
    requires forall n :: n in done <==> n in names && !IsDots(n)
    ensures ListsChildren(t, r, done)
  {
    forall p | p in t && r < p
      ensures p[|r|] in done
    {
      var c := r + [p[|r|]];
      BelowChild(r, p[|r|], p);
      AncestorsPresent(t, p, c);
      assert Parent(c) == r && c[|c| - 1] == p[|r|];
    }
  }

  // ---------------------------------------------------------------------
  // The file system and the program
  // ---------------------------------------------------------------------

  predicate IsChildOf(q: Path, p: Path) {
    |q| == |p| + 1 && q[..|p|] == p && !IsDots(q[|p|])
  }

  /** The errno of a plain rmdir, 0 for success. */
  ghost function RmdirErrno(f: Faults, t: Tree, p: Path): int {
    if p !in t then ENOENT
    else if t[p] == File then ENOTDIR
    else if HasChild(t, p) then ENOTEMPTY
    else f.rmdir(p)
  }

  lemma RmdirReasons(f: Faults, t: Tree, p: Path)
    ensures p !in t ==> RmdirErrno(f, t, p) == 2
    ensures p in t && t[p] == File ==> RmdirErrno(f, t, p) == 20
    ensures p in t && t[p] == Dir && (exists q :: q in t && q != [] && q[..|q| - 1] == p) ==> RmdirErrno(f, t, p) == 39
    ensures p in t && t[p] == Dir && !(exists q :: q in t && q != [] && q[..|q| - 1] == p) ==>
              RmdirErrno(f, t, p) == f.rmdir(p)
  {
    if q :| q in t && q != [] && q[..|q| - 1] == p {
      assert Parent(q) == p;
    }
  }

  class FileSystem {
    var tree: Tree
    const f: Faults

    constructor (t: Tree, faults: Faults)
      ensures tree == t && f == faults
    {
      tree, f := t, faults;
    }

    method Stat(p: Path) returns (errno: int, isDir: bool)
      ensures errno == if p !in tree then ENOENT else f.stat(p)
      ensures p in tree ==> (isDir <==> tree[p] == Dir)
    {
      if p !in tree {
        return ENOENT, false;
      }
      return f.stat(p), tree[p] == Dir;
    }

    /** opendir and the whole readdir sequence: the two dot entries and the
        children, each once, in some order. */
    method OpenDir(p: Path) returns (errno: int, names: seq<CString>)
      ensures errno == if p !in tree then ENOENT else if tree[p] == File then ENOTDIR else f.opendir(p)
      ensures errno == 0 ==> forall n :: n in names <==> n == "." || n == ".." || p + [n] in tree
      ensures forall j, k :: 0 <= j < k < |names| && !IsDots(names[k]) ==> names[j] != names[k]
    {
      names := [];
      if p !in tree {
        return ENOENT, [];
      }
      if tree[p] == File {
        return ENOTDIR, [];
      }
      if f.opendir(p) != 0 {
        return f.opendir(p), [];
      }
      names := [".", ".."];
      var left := set q | q in tree && IsChildOf(q, p) :: q[|p|];
      forall n: CString
        ensures n in left <==> p + [n] in tree && !IsDots(n)
      {
        if p + [n] in tree && !IsDots(n) {
          assert IsChildOf(p + [n], p) && (p + [n])[|p|] == n;
        }
        if n in left {
          var q :| q in tree && IsChildOf(q, p) && q[|p|] == n;
          assert q == p + [n];
        }
      }
      while left != {}
        invariant forall n :: n in left || (n in names && !IsDots(n)) <==> p + [n] in tree && !IsDots(n)
        invariant "." in names && ".." in names
        invariant forall n :: n in names ==> n !in left
        invariant forall j, k :: 0 <= j < k < |names| && !IsDots(names[k]) ==> names[j] != names[k]
        decreases left
      {
        var n :| n in left;
        left := left - {n};
        names := names + [n];
      }
      errno := 0;
    }

    method Unlink(p: Path) returns (errno: int)
      modifies this
      ensures errno == if p !in old(tree) then ENOENT else if old(tree)[p] == Dir then EISDIR else f.unlink(p)
      ensures tree == if errno == 0 then old(tree) - {p} else old(tree)
    {
      if p !in tree {
        return ENOENT;
      }
      if tree[p] == Dir {
        return EISDIR;
      }
      errno := f.unlink(p);
      if errno == 0 {
        tree := tree - {p};
      }
    }

    /** rmdir refuses a directory that is not empty. */
    method Rmdir(p: Path) returns (errno: int)
      modifies this
      ensures errno == RmdirErrno(f, old(tree), p)
      ensures tree == if errno == 0 then old(tree) - {p} else old(tree)
    {
      if p !in tree {
        return ENOENT;
      }
      if tree[p] == File {
        return ENOTDIR;
      }
      if exists q | q in tree :: q != [] && Parent(q) == p {
        return ENOTEMPTY;
      }
      errno := f.rmdir(p);
      if errno == 0 {
        tree := tree - {p};
      }
    }

    /** One round of the readdir loop. The result for a child is thrown away. */
    method DeleteEntry(path: Path)
      requires IsTree(tree)
      modifies this
      ensures tree == AfterEntry(f, old(tree), path)
      decreases Subtree(tree, path), 2
    {
      var errno, isDir := Stat(path);
      if errno == 0 {
        if isDir {
          var _ := DeleteRecursive(path);
        } else {
          var _ := Unlink(path);
        }
      }
    }

    /** The readdir loop. */
    method DeleteEntries(dirname: Path, names: seq<CString>)
      requires Entered(f, tree, dirname)
      requires forall j, k :: 0 <= j < k < |names| && !IsDots(names[k]) ==> names[j] != names[k]
      modifies this
      ensures tree == PrunedBelow(f, old(tree), dirname, Wanted(names))
      decreases Subtree(tree, dirname), 0
    {
      ghost var t := tree;
      var i := 0;
      while i < |names|
        invariant 0 <= i <= |names|
        invariant tree == PrunedBelow(f, t, dirname, Wanted(names[..i]))
      {
        var name := names[i];
        ghost var done := Wanted(names[..i]);
        WantedStep(names, i);
        if name != "." && name != ".." {
          var path := Resolve(dirname, name);
          Round(f, t, dirname, done, name);
          DeleteEntry(path);
        }
        i := i + 1;
      }
      assert names[..i] == names;
    }

    method DeleteRecursive(dirname: Path) returns (r: int)
      requires IsTree(tree)
      modifies this
      ensures tree == Pruned(f, old(tree), dirname)
      ensures r == -FinalErrno(f, old(tree), dirname)
      decreases Subtree(tree, dirname), 1
    {
      ghost var t := tree;
      var errno, names := OpenDir(dirname);
      if errno != 0 {
        NotEntered(f, t, dirname);
        return 0 - errno;
      }
      AllChildrenListed(t, dirname, names, Wanted(names));
      DeleteEntries(dirname, names);
      LoopDone(f, t, dirname, Wanted(names));
      EmptyIffNothingBelowFailed(f, t, dirname, Wanted(names));
      var e := Rmdir(dirname);
      r := 0 - e;
    }

    /** None is NULL. */
    method DeleteDirectory(dirname: Option<Path>, recursive: bool) returns (r: int)
      requires IsTree(tree)
      modifies this
      ensures dirname.None? ==> r == -1 && tree == old(tree)
      ensures dirname.Some? && recursive ==>
                tree == Pruned(f, old(tree), dirname.value)
                && r == -FinalErrno(f, old(tree), dirname.value)
                && (r == 0 <==> dirname.value in old(tree) && dirname.value !in tree)
      ensures dirname.Some? && !recursive ==>
                var p := dirname.value;
                && r == -RmdirErrno(f, old(tree), p)
                && (r == 0 <==> p in old(tree) && old(tree)[p] == Dir && f.rmdir(p) == 0 && !HasChild(old(tree), p))
                && tree == if r == 0 then old(tree) - {p} else old(tree)
      ensures IsTree(tree)
    {
      if dirname.None? {
        return -1;
      }
      if recursive {
        PrunedIsTree(f, tree, dirname.value);
        FinalErrnoIsExact(f, tree, dirname.value);
        r := DeleteRecursive(dirname.value);
        return;
      }
      ghost var t := tree;
      var e := Rmdir(dirname.value);
      if e == 0 {
        LeafRemovalKeepsTree(t, dirname.value);
      }
      r := 0 - e;
    }
  }
}
