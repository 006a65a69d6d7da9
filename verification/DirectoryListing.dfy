/** fossil_sys_call_list_directory (code/logic/syscall.c, POSIX branch): the
    names readdir delivers, without "." and "..", in an array that doubles. */
module DirectoryListing {
  import opened CStrings
  import opened DirectoryEntries

  const ENOMEM: int := 12

  /** One slot per wanted entry, in readdir order; `dupOk(k)` says whether the
      copy of the k-th name could be allocated, and None is the NULL the code
      stores if it could not. */
  function Kept(entries: seq<CString>, dupOk: nat -> bool): (slots: seq<Option<CString>>)
    ensures |slots| <= |entries|
  {
    if entries == [] then []
    else
      var n := |entries| - 1;
      Kept(entries[..n], dupOk)
      + (if IsDots(entries[n]) then [] else [if dupOk(n) then Some(entries[n]) else None])
  }

  /** Where the wanted entries stand in the readdir sequence. */
  function Positions(entries: seq<CString>): (ps: seq<nat>) {
    if entries == [] then []
    else
      var n := |entries| - 1;
      Positions(entries[..n]) + (if IsDots(entries[n]) then [] else [n])
  }

  lemma {:induction false} PositionsAscend(entries: seq<CString>)
    ensures forall k :: 0 <= k < |Positions(entries)| ==> Positions(entries)[k] < |entries|
    ensures forall j, k :: 0 <= j < k < |Positions(entries)| ==> Positions(entries)[j] < Positions(entries)[k]
  {
    if entries != [] {
      PositionsAscend(entries[..|entries| - 1]);
    }
  }

  lemma {:induction false} PositionsAreWanted(entries: seq<CString>, p: nat)
    ensures p in Positions(entries) <==> p < |entries| && !IsDots(entries[p])
  {
    if entries != [] {
      PositionsAreWanted(entries[..|entries| - 1], p);
    }
  }

  lemma {:induction false} KeptAtPositions(entries: seq<CString>, dupOk: nat -> bool)
    ensures |Kept(entries, dupOk)| == |Positions(entries)|
    ensures forall k :: 0 <= k < |Positions(entries)| ==>
              var p := Positions(entries)[k];
              p < |entries| && Kept(entries, dupOk)[k] == if dupOk(p) then Some(entries[p]) else None
  {
    if entries != [] {
      KeptAtPositions(entries[..|entries| - 1], dupOk);
    }
  }

  /** The list is the readdir sequence without the dot entries, in its order:
      slot by slot, a copy of the next entry that is wanted. */
  lemma {:induction false} KeptInOrder(entries: seq<CString>, dupOk: nat -> bool)
    ensures |Kept(entries, dupOk)| == |Positions(entries)|
    ensures forall k :: 0 <= k < |Positions(entries)| ==>
              var p := Positions(entries)[k];
              p < |entries| && Kept(entries, dupOk)[k] == if dupOk(p) then Some(entries[p]) else None
    ensures forall j, k :: 0 <= j < k < |Positions(entries)| ==> Positions(entries)[j] < Positions(entries)[k]
    ensures forall p: nat :: p in Positions(entries) <==>
              p < |entries| && entries[p] != "." && entries[p] != ".."
  {
    KeptAtPositions(entries, dupOk);
    PositionsAscend(entries);
    forall p: nat
      ensures p in Positions(entries) <==>
                p < |entries| && entries[p] != "." && entries[p] != ".."
    {
      PositionsAreWanted(entries, p);
    }
  }

  /** A list has no NULL exactly if every wanted name could be copied. */
  lemma {:induction false} NoNullIffAllCopied(entries: seq<CString>, dupOk: nat -> bool)
    ensures None !in Kept(entries, dupOk) <==>
            forall p :: 0 <= p < |entries| && !IsDots(entries[p]) ==> dupOk(p)
  {
    KeptInOrder(entries, dupOk);
    if None in Kept(entries, dupOk) {
      var k :| 0 <= k < |Kept(entries, dupOk)| && Kept(entries, dupOk)[k] == None;
      var p := Positions(entries)[k];
      assert p in Positions(entries) && !dupOk(p);
    } else {
      forall p | 0 <= p < |entries| && !IsDots(entries[p])
        ensures dupOk(p)
      {
        var k :| 0 <= k < |Positions(entries)| && Positions(entries)[k] == p;
        assert Kept(entries, dupOk)[k] in Kept(entries, dupOk);
      }
    }
  }

  function Pow2(k: nat): (p: nat)
    ensures p >= 1
  {
    if k == 0 then 1 else 2 * Pow2(k - 1)
  }

  /** Capacities are 10, 20, 40, ... */
  function Capacity(k: nat): nat {
    10 * Pow2(k)
  }

  ghost predicate IsCapacity(c: nat) {
    exists k: nat :: c == Capacity(k)
  }

  /** If `n` names do not fit the k-th capacity, the next one is granted. */
  predicate GrantedAt(reallocOk: nat -> bool, n: nat, k: nat) {
    Capacity(k) < n ==> reallocOk(Capacity(k + 1))
  }

  /** Every growth that storing `n` names takes is granted. */
  ghost predicate GrowthsGranted(reallocOk: nat -> bool, n: nat) {
    forall k: nat :: GrantedAt(reallocOk, n, k)
  }

  lemma {:induction false} Pow2Increases(j: nat, k: nat)
    requires j < k
    ensures 2 * Pow2(j) <= Pow2(k)
  {
    if j + 1 < k {
      Pow2Increases(j, k - 1);
    }
  }

  lemma CapacitiesDouble(k: nat)
    ensures Capacity(0) == 10 && Capacity(k + 1) == 2 * Capacity(k)
  {
  }

  lemma FirstCapacity(reallocOk: nat -> bool)
    ensures Capacity(0) == 10 && GrowthsGranted(reallocOk, 10)
  {
  }

  /** A granted growth covers the new capacity. */
  lemma GrantedOnce(reallocOk: nat -> bool, g: nat)
    requires GrowthsGranted(reallocOk, Capacity(g)) && reallocOk(Capacity(g + 1))
    ensures Capacity(g + 1) == 2 * Capacity(g)
    ensures GrowthsGranted(reallocOk, Capacity(g + 1))
  {
    var c := Capacity(g + 1);
    forall k: nat
      ensures GrantedAt(reallocOk, c, k)
    {
      assert GrantedAt(reallocOk, Capacity(g), k);
      if k > g {
        Pow2Increases(g, k);
      } else if k < g {
        Pow2Increases(k, g);
      }
    }
  }

  lemma GrantedForFewer(reallocOk: nat -> bool, n: nat, m: nat)
    requires GrowthsGranted(reallocOk, n) && m <= n
    ensures GrowthsGranted(reallocOk, m)
  {
    forall k: nat
      ensures GrantedAt(reallocOk, m, k)
    {
      assert GrantedAt(reallocOk, n, k);
    }
  }

  lemma {:induction false} KeptOfPrefix(entries: seq<CString>, dupOk: nat -> bool, i: nat)
    requires i <= |entries|
    ensures Kept(entries[..i], dupOk) <= Kept(entries, dupOk)
  {
    if i < |entries| {
      var n := |entries| - 1;
      assert entries[..n][..i] == entries[..i];
      KeptOfPrefix(entries[..n], dupOk, i);
    } else {
      assert entries[..i] == entries;
    }
  }

  lemma KeptStep(entries: seq<CString>, dupOk: nat -> bool, i: nat)
    requires i < |entries|
    ensures Kept(entries[..i + 1], dupOk) ==
            Kept(entries[..i], dupOk)
            + (if IsDots(entries[i]) then [] else [if dupOk(i) then Some(entries[i]) else None])
  {
    assert entries[..i + 1][..i] == entries[..i];
  }

  lemma KeptSkips(entries: seq<CString>, dupOk: nat -> bool, i: nat)
    requires i < |entries| && IsDots(entries[i])
    ensures Kept(entries[..i + 1], dupOk) == Kept(entries[..i], dupOk)
  {
    KeptStep(entries, dupOk, i);
  }

  lemma KeptTakes(entries: seq<CString>, dupOk: nat -> bool, i: nat)
    requires i < |entries| && !IsDots(entries[i])
    ensures Kept(entries[..i + 1], dupOk) == Kept(entries[..i], dupOk) + [if dupOk(i) then Some(entries[i]) else None]
  {
    KeptStep(entries, dupOk, i);
  }

  lemma Refused(entries: seq<CString>, dupOk: nat -> bool, i: nat, reallocOk: nat -> bool, capacity: nat)
    requires i < |entries| && !IsDots(entries[i])
    requires IsCapacity(capacity) && |Kept(entries[..i], dupOk)| == capacity && !reallocOk(2 * capacity)
    ensures Kept(entries[..i], dupOk) <= Kept(entries, dupOk)
    ensures capacity < |Kept(entries, dupOk)|
    ensures !GrowthsGranted(reallocOk, |Kept(entries, dupOk)|)
  {
    KeptStep(entries, dupOk, i);
    KeptOfPrefix(entries, dupOk, i);
    KeptOfPrefix(entries, dupOk, i + 1);
    var g: nat :| capacity == Capacity(g);
    assert Capacity(g + 1) == 2 * capacity;
    assert !GrantedAt(reallocOk, |Kept(entries, dupOk)|, g);
  }

  /** realloc to `capacity` pointers. */
  method Grow(list: array<Option<CString>>, capacity: nat) returns (bigger: array<Option<CString>>)
    requires list.Length <= capacity
    ensures fresh(bigger) && bigger.Length == capacity
    ensures forall k :: 0 <= k < list.Length ==> bigger[k] == list[k]
  {
    bigger := new Option<CString>[capacity](_ => None);
    forall k | 0 <= k < list.Length {
      bigger[k] := list[k];
    }
  }

  /** The first slots of `list` are `kept`. */
  ghost predicate Holds(list: array<Option<CString>>, kept: seq<Option<CString>>)
    reads list
  {
    |kept| <= list.Length && forall k :: 0 <= k < |kept| ==> list[k] == kept[k]
  }

  method Store(list: array<Option<CString>>, at: nat, name: Option<CString>, ghost kept: seq<Option<CString>>)
    requires at == |kept| < list.Length && Holds(list, kept)
    modifies list
    ensures Holds(list, kept + [name])
  {
    list[at] := name;
  }

  /** The sizes a listing can end with: the capacity is the last doubling, the
      reallocs moved fewer than two pointers for each name stored. */
  ghost predicate Sized(capacity: nat, count: nat, copied: nat) {
    && IsCapacity(capacity)
    && count <= capacity
    && (capacity == 10 || capacity <= 2 * (count - 1))
    && copied == capacity - 10
    && (count > 0 ==> copied < 2 * count)
  }

  /** The capacity is the `g`-th, every growth up to it was granted, and the last
      one was made when the list was full. */
  ghost predicate Grown(reallocOk: nat -> bool, g: nat, capacity: nat, count: nat, copied: nat) {
    && capacity == Capacity(g)
    && count <= capacity
    && (g == 0 || capacity <= 2 * (count - 1))
    && copied == capacity - 10
    && GrowthsGranted(reallocOk, capacity)
  }

  lemma GrownOnce(reallocOk: nat -> bool, g: nat, capacity: nat, copied: nat)
    requires Grown(reallocOk, g, capacity, capacity, copied) && reallocOk(2 * capacity)
    ensures Grown(reallocOk, g + 1, 2 * capacity, capacity + 1, copied + capacity)
  {
    GrantedOnce(reallocOk, g);
  }

  lemma OneMoreStored(reallocOk: nat -> bool, g: nat, capacity: nat, count: nat, copied: nat)
    requires Grown(reallocOk, g, capacity, count, copied) && count < capacity
    ensures Grown(reallocOk, g, capacity, count + 1, copied)
  {
  }

  lemma GrownIsSized(reallocOk: nat -> bool, g: nat, capacity: nat, count: nat, copied: nat)
    requires Grown(reallocOk, g, capacity, count, copied)
    ensures Sized(capacity, count, copied) && GrowthsGranted(reallocOk, count)
  {
    GrantedForFewer(reallocOk, capacity, count);
  }

  /** Room for one more name: nothing to do below the capacity, otherwise one
      realloc to twice as much. */
  method MakeRoom(list: array<Option<CString>>, capacity: nat, count: nat, reallocOk: nat -> bool,
                  ghost g: nat, ghost copied: nat, ghost kept: seq<Option<CString>>)
    returns (ok: bool, bigger: array<Option<CString>>, capacity': nat, ghost g': nat, ghost copied': nat)
    requires list.Length == capacity && Grown(reallocOk, g, capacity, count, copied)
    requires |kept| == count && Holds(list, kept)
    ensures ok <==> count < capacity || reallocOk(2 * capacity)
    ensures bigger == list || fresh(bigger)
    ensures !ok ==> bigger == list && copied' == copied
    ensures ok ==> bigger.Length == capacity' > count && Grown(reallocOk, g', capacity', count + 1, copied')
    ensures Holds(bigger, kept)
  {
    ok, bigger, capacity', g', copied' := true, list, capacity, g, copied;
    if count >= capacity {
      capacity' := capacity * 2;
      if !reallocOk(capacity') {
        ok := false;
        return;
      }
      GrownOnce(reallocOk, g, capacity, copied);
      bigger := Grow(list, capacity');
      g', copied' := g + 1, copied + count;
    } else {
      OneMoreStored(reallocOk, g, capacity, count, copied);
    }
  }

  /** One wanted name: room for it, and then its copy or NULL. */
  method Append(list: array<Option<CString>>, capacity: nat, count: nat, name: CString, reallocOk: nat -> bool,
                dup: bool, ghost g: nat, ghost copied: nat, ghost kept: seq<Option<CString>>)
    returns (ok: bool, bigger: array<Option<CString>>, capacity': nat, ghost g': nat, ghost copied': nat)
    requires list.Length == capacity && Grown(reallocOk, g, capacity, count, copied)
    requires |kept| == count && Holds(list, kept)
    modifies list
    ensures bigger == list || fresh(bigger)
    ensures ok <==> count < capacity || reallocOk(2 * capacity)
    ensures !ok ==> bigger == list && copied' == copied && Holds(list, kept)
    ensures ok ==> bigger.Length == capacity' && Grown(reallocOk, g', capacity', count + 1, copied')
    ensures ok ==> Holds(bigger, kept + [if dup then Some(name) else None])
  {
    ok, bigger, capacity', g', copied' := MakeRoom(list, capacity, count, reallocOk, g, copied, kept);
    if ok {
      var copy := if dup then Some(name) else None;
      Store(bigger, count, copy, kept);
    }
  }

  /** The list after the first `i` entries. */
  ghost predicate HasRead(list: array<Option<CString>>, entries: seq<CString>, dupOk: nat -> bool, i: nat, count: nat)
    requires i <= |entries|
    reads list
  {
    count == |Kept(entries[..i], dupOk)| && Holds(list, Kept(entries[..i], dupOk))
  }

  lemma AllRead(list: array<Option<CString>>, entries: seq<CString>, dupOk: nat -> bool, count: nat)
    requires HasRead(list, entries, dupOk, |entries|, count)
    ensures count == |Kept(entries, dupOk)| && Holds(list, Kept(entries, dupOk))
  {
    assert entries[..|entries|] == entries;
  }

  /** One round of the readdir loop. */
  method ReadEntry(list: array<Option<CString>>, capacity: nat, count: nat, entries: seq<CString>, i: nat,
                   reallocOk: nat -> bool, dupOk: nat -> bool, ghost g: nat, ghost copied: nat)
    returns (ok: bool, list': array<Option<CString>>, capacity': nat, count': nat, ghost g': nat, ghost copied': nat)
    requires i < |entries| && HasRead(list, entries, dupOk, i, count)
    requires list.Length == capacity && Grown(reallocOk, g, capacity, count, copied)
    modifies list
    ensures list' == list || fresh(list')
    ensures ok ==>
              && HasRead(list', entries, dupOk, i + 1, count')
              && list'.Length == capacity' && Grown(reallocOk, g', capacity', count', copied')
    ensures !ok ==>
              && !GrowthsGranted(reallocOk, |Kept(entries, dupOk)|)
              && list' == list && count' == count == capacity < |Kept(entries, dupOk)| && copied' == copied
              && HasRead(list, entries, dupOk, i, count)
  {
    ok, list', capacity', count', g', copied' := true, list, capacity, count, g, copied;
    if entries[i] != "." && entries[i] != ".." {
      ok, list', capacity', g', copied' :=
        Append(list, capacity, count, entries[i], reallocOk, dupOk(i), g, copied, Kept(entries[..i], dupOk));
      if !ok {
        Refused(entries, dupOk, i, reallocOk, capacity);
        return;
      }
      KeptTakes(entries, dupOk, i);
      count' := count + 1;
    } else {
      KeptSkips(entries, dupOk, i);
    }
  }

  /** The readdir loop. */
  method ReadEntries(first: array<Option<CString>>, entries: seq<CString>,
                     reallocOk: nat -> bool, dupOk: nat -> bool)
    returns (ok: bool, list: array<Option<CString>>, count: nat, ghost copied: nat)
    requires first.Length == 10
    modifies first
    ensures list == first || fresh(list)
    ensures ok <==> GrowthsGranted(reallocOk, |Kept(entries, dupOk)|)
    ensures if ok then count == |Kept(entries, dupOk)| else count == list.Length < |Kept(entries, dupOk)|
    ensures Sized(list.Length, count, copied) || (!ok && IsCapacity(list.Length) && copied == list.Length - 10 < count)
    ensures forall k :: 0 <= k < count ==> list[k] == Kept(entries, dupOk)[k]
  {
    list, count, copied := first, 0, 0;
    var capacity := 10;
    FirstCapacity(reallocOk);
    ghost var g := 0;
    var i := 0;
    while i < |entries|
      invariant 0 <= i <= |entries|
      invariant list == first || fresh(list)
      invariant list.Length == capacity && Grown(reallocOk, g, capacity, count, copied)
      invariant HasRead(list, entries, dupOk, i, count)
    {
      ok, list, capacity, count, g, copied :=
        ReadEntry(list, capacity, count, entries, i, reallocOk, dupOk, g, copied);
      if !ok {
        KeptOfPrefix(entries, dupOk, i);
        return;
      }
      i := i + 1;
    }
    AllRead(list, entries, dupOk, count);
    GrownIsSized(reallocOk, g, capacity, count, copied);
    ok := true;
  }

  /** `opendirErrno` is 0 if the directory opens; `reallocOk(c)` says whether the
      list can be extended to `c` slots. `copied` counts the pointers that
      reallocs move in all. */
  method ListDirectory(argsOk: bool, opendirErrno: int, mallocOk: bool, entries: seq<CString>,
                       reallocOk: nat -> bool, dupOk: nat -> bool)
    returns (r: int, list: array?<Option<CString>>, count: nat, ghost copied: nat)
    requires opendirErrno >= 0
    ensures r == if !argsOk then -1
                 else if opendirErrno != 0 then -opendirErrno
                 else if mallocOk && GrowthsGranted(reallocOk, |Kept(entries, dupOk)|) then 0
                 else -ENOMEM
    ensures argsOk && opendirErrno == 0 ==> r == 0 || r == -12
    ensures list != null <==> argsOk && opendirErrno == 0 && mallocOk
    ensures list == null ==> count == 0
    ensures list != null ==> fresh(list) && count <= list.Length && list[..count] <= Kept(entries, dupOk)
    ensures r == 0 ==> count == |Kept(entries, dupOk)| && Sized(list.Length, count, copied)
    ensures list != null && r != 0 ==>
              && count == list.Length < |Kept(entries, dupOk)|
              && IsCapacity(count) && copied == count - 10
  {
    if !argsOk {
      return -1, null, 0, 0;
    }
    list, count, copied := null, 0, 0;
    if opendirErrno != 0 {
      r := -opendirErrno;
      return;
    }
    if !mallocOk {
      return -ENOMEM, null, 0, 0;
    }
    var first := new Option<CString>[10](_ => None);
    var ok;
    ok, list, count, copied := ReadEntries(first, entries, reallocOk, dupOk);
    r := if ok then 0 else -ENOMEM;
  }
}
