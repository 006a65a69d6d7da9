/** The byte-buffer loops of code/logic/memory.c: pattern fill and bytewise swap. */
module MemoryBlocks {
  import opened CStrings

  const SIZE_LIMIT: nat := 0x1_0000_0000_0000_0000

  /** size_t addition. */
  function WrapAdd(a: nat, b: nat): nat {
    (a + b) % SIZE_LIMIT
  }

  // ---------------------------------------------------------------------
  // Remainders
  // ---------------------------------------------------------------------

  /** `k % d`, by repeated subtraction. */
  function Rem(k: nat, d: nat): (r: nat)
    requires d > 0
    ensures r < d
  {
    if k < d then k else Rem(k - d, d)
  }

  lemma MultipleAtLeast(a: nat, d: nat)
    requires a > 0
    ensures a * d >= d
  {
  }

  lemma Distribute(a: int, b: int, d: int)
    ensures (a - b) * d == a * d - b * d
  {
  }

  lemma DivisionIsUnique(q1: int, r1: int, q2: int, r2: int, d: nat)
    requires 0 <= r1 < d && 0 <= r2 < d && q1 * d + r1 == q2 * d + r2
    ensures q1 == q2 && r1 == r2
  {
    Distribute(q1, q2, d);
    if q1 > q2 {
      MultipleAtLeast(q1 - q2, d);
    }
    Distribute(q2, q1, d);
    if q2 > q1 {
      MultipleAtLeast(q2 - q1, d);
    }
  }

  lemma DivMod(k: int, d: nat)
    requires d > 0
    ensures k == (k / d) * d + k % d && 0 <= k % d < d
  {
  }

  lemma {:induction false} RemIsModulo(k: nat, d: nat)
    requires d > 0
    ensures Rem(k, d) == k % d
  {
    DivMod(k, d);
    if k < d {
      DivisionIsUnique(0, k, k / d, k % d, d);
    } else {
      RemIsModulo(k - d, d);
      DivMod(k - d, d);
      Distribute((k - d) / d, -1, d);
      DivisionIsUnique((k - d) / d + 1, (k - d) % d, k / d, k % d, d);
    }
  }

  /** Stepping on from a whole number of patterns. */
  lemma {:induction false} RemAfterWhole(whole: nat, k: nat, d: nat)
    requires d > 0 && Rem(whole, d) == 0 && k < d
    ensures Rem(whole + k, d) == k
  {
    if whole >= d {
      RemAfterWhole(whole - d, k, d);
    }
  }

  // ---------------------------------------------------------------------
  // Pattern fill
  // ---------------------------------------------------------------------

  /** The offsets the fill loop reaches. */
  ghost predicate ReachableOffset(offset: nat, patternSize: nat, totalSize: nat) {
    offset <= totalSize && exists n: nat :: offset == n * patternSize
  }

  lemma Multiples(p: nat, t: nat, n: nat)
    requires 0 < p && n == t / p
    ensures n * p <= t < (n + 1) * p
    ensures n * p + p == (n + 1) * p
  {
  }

  lemma MultiplesAscend(a: nat, b: nat, p: nat)
    ensures a <= b ==> a * p <= b * p
  {
  }

  lemma MultipleBelow(p: nat, t: nat, m: nat, n: nat)
    requires 0 < p && n == t / p && m * p <= t
    ensures m * p + p <= (n + 1) * p
  {
    Multiples(p, t, n);
    MultiplesAscend(n + 1, m, p);
    MultiplesAscend(m, n, p);
  }

  /** The loop's test `offset + pattern_size <= total_size` never wraps if and
      only if the first multiple of the pattern size beyond the total is a size_t. */
  lemma {:induction false} TestNeverWrapsExactly(patternSize: nat, totalSize: nat)
    requires 0 < patternSize
    ensures (forall offset: nat :: ReachableOffset(offset, patternSize, totalSize) ==>
               offset + patternSize < SIZE_LIMIT)
            <==> (totalSize / patternSize + 1) * patternSize < SIZE_LIMIT
  {
    var n := totalSize / patternSize;
    Multiples(patternSize, totalSize, n);
    assert ReachableOffset(n * patternSize, patternSize, totalSize);
    forall offset: nat | ReachableOffset(offset, patternSize, totalSize)
      ensures offset + patternSize <= (n + 1) * patternSize
    {
      var m: nat :| offset == m * patternSize;
      MultipleBelow(patternSize, totalSize, m, n);
    }
  }

  /** No object is as large as half the address space, so the condition holds
      for every total the fill can be given. */
  lemma TestNeverWrapsBelowHalf(patternSize: nat, totalSize: nat, offset: nat)
    requires offset <= totalSize < SIZE_LIMIT / 2
    ensures patternSize <= totalSize ==> WrapAdd(offset, patternSize) == offset + patternSize
    ensures totalSize < patternSize < SIZE_LIMIT && offset == 0 ==> WrapAdd(offset, patternSize) == patternSize
  {
  }

  /** memcpy of `len` bytes of the pattern to `dst + offset`, where `offset` is a
      whole number of patterns. */
  method CopyChunk(dst: array<byte>, offset: nat, pattern: array<byte>, len: nat, ghost patternSize: nat)
    requires dst != pattern && 0 < len <= patternSize <= pattern.Length && offset + len <= dst.Length
    requires Rem(offset, patternSize) == 0
    modifies dst
    ensures forall i :: offset <= i < offset + len ==> dst[i] == pattern[Rem(i, patternSize)]
    ensures forall i :: 0 <= i < dst.Length && !(offset <= i < offset + len) ==> dst[i] == old(dst[i])
  {
    forall k | 0 <= k < len {
      dst[offset + k] := pattern[k];
    }
    forall i | offset <= i < offset + len
      ensures dst[i] == pattern[Rem(i, patternSize)]
    {
      RemAfterWhole(offset, i - offset, patternSize);
      assert dst[offset + (i - offset)] == pattern[i - offset];
    }
  }

  /** `dst` and `pattern` are separate objects, as memcpy demands. */
  method Fill(dst: array?<byte>, pattern: array?<byte>, patternSize: nat, totalSize: nat)
    returns (r: array?<byte>)
    requires dst != null && pattern != null ==> dst != pattern
    requires dst != null ==> totalSize <= dst.Length < SIZE_LIMIT / 2
    requires pattern != null ==> patternSize <= pattern.Length < SIZE_LIMIT
    modifies dst
    ensures dst == null || pattern == null || patternSize == 0 || totalSize == 0 ==>
              r == null && (dst != null ==> dst[..] == old(dst[..]))
    ensures dst != null && pattern != null && patternSize > 0 && totalSize > 0 ==>
              && r == dst
              && (forall i :: 0 <= i < totalSize ==> dst[i] == pattern[i % patternSize])
              && (forall i :: totalSize <= i < dst.Length ==> dst[i] == old(dst[i]))
  {
    if dst == null || pattern == null || patternSize == 0 || totalSize == 0 {
      return null;
    }
    var offset := 0;
    TestNeverWrapsBelowHalf(patternSize, totalSize, offset);
    while WrapAdd(offset, patternSize) <= totalSize
      invariant offset <= totalSize && Rem(offset, patternSize) == 0
      invariant WrapAdd(offset, patternSize) == offset + patternSize
      invariant forall i :: 0 <= i < offset ==> dst[i] == pattern[Rem(i, patternSize)]
      invariant forall i :: offset <= i < dst.Length ==> dst[i] == old(dst[i])
      decreases totalSize - offset
    {
      CopyChunk(dst, offset, pattern, patternSize, patternSize);
      offset := offset + patternSize;
      TestNeverWrapsBelowHalf(patternSize, totalSize, offset);
    }
    if offset < totalSize {
      CopyChunk(dst, offset, pattern, totalSize - offset, patternSize);
    }
    forall i | 0 <= i < totalSize
      ensures Rem(i, patternSize) == i % patternSize
    {
      RemIsModulo(i, patternSize);
    }
    return dst;
  }

  // ---------------------------------------------------------------------
  // Swap
  // ---------------------------------------------------------------------

  function SwapElements(m: seq<byte>, i: nat, j: nat): (r: seq<byte>)
    requires i < |m| && j < |m|
    ensures |r| == |m|
  {
    seq(|m|, k requires 0 <= k < |m| => if k == i then m[j] else if k == j then m[i] else m[k])
  }

  /** The memory after swapping the first `n` bytes at `a` and at `b` one by one. */
  function SwapBytes(mem: seq<byte>, a: nat, b: nat, n: nat): (r: seq<byte>)
    requires a + n <= |mem| && b + n <= |mem|
    ensures |r| == |mem|
  {
    if n == 0 then mem
    else
      SwapElements(SwapBytes(mem, a, b, n - 1), a + n - 1, b + n - 1)
  }

  /** Both ranges live in one memory; None is NULL. */
  method Swap(mem: array<byte>, a: Option<nat>, b: Option<nat>, size: nat)
    requires a.Some? ==> a.value + size <= mem.Length
    requires b.Some? ==> b.value + size <= mem.Length
    modifies mem
    ensures a.Some? && b.Some? ==> mem[..] == SwapBytes(old(mem[..]), a.value, b.value, size)
    ensures a.None? || b.None? ==> mem[..] == old(mem[..])
  {
    if a.None? || b.None? || size == 0 {
      return;
    }
    var (pa, pb) := (a.value, b.value);
    var i := 0;
    while i < size
      invariant 0 <= i <= size
      invariant mem[..] == SwapBytes(old(mem[..]), pa, pb, i)
    {
      var tmp := mem[pa + i];
      mem[pa + i] := mem[pb + i];
      mem[pb + i] := tmp;
      i := i + 1;
    }
  }

  lemma {:induction false} SwapCommutes(mem: seq<byte>, a: nat, b: nat, n: nat)
    requires a + n <= |mem| && b + n <= |mem|
    ensures SwapBytes(mem, a, b, n) == SwapBytes(mem, b, a, n)
  {
    if n > 0 {
      SwapCommutes(mem, a, b, n - 1);
    }
  }

  /** Where the byte at `k` comes from when the upper range starts `d` after `lo`. */
  function Source(lo: nat, d: nat, n: nat, k: nat): nat
    requires d > 0
  {
    if k < lo || k >= lo + n + d then k
    else if k < lo + n then k + d
    else lo + Rem(k - lo, d)
  }

  /** The closed form under any overlap: the first `n` bytes move down by `d`,
      and the last `d` are the original leading bytes, taken round-robin. */
  lemma {:induction false} SwapClosedForm(mem: seq<byte>, lo: nat, d: nat, n: nat, k: nat)
    requires d > 0 && lo + d + n <= |mem| && k < |mem|
    ensures Source(lo, d, n, k) < |mem|
    ensures SwapBytes(mem, lo, lo + d, n)[k] == mem[Source(lo, d, n, k)]
  {
    if n > 0 {
      var m := SwapBytes(mem, lo, lo + d, n - 1);
      SwapClosedForm(mem, lo, d, n - 1, k);
      SwapClosedForm(mem, lo, d, n - 1, lo + n - 1);
      SwapClosedForm(mem, lo, d, n - 1, lo + d + n - 1);
      assert Rem(n - 1 + d, d) == Rem(n - 1, d);
    }
  }

  /** The same with remainders: below and above the two ranges nothing changes. */
  lemma SwapExactly(mem: seq<byte>, lo: nat, d: nat, n: nat, k: nat)
    requires d > 0 && lo + d + n <= |mem| && k < |mem|
    ensures lo <= k ==> 0 <= (k - lo) % d < d
    ensures SwapBytes(mem, lo, lo + d, n)[k] ==
            if k < lo || k >= lo + n + d then mem[k]
            else if k < lo + n then mem[k + d]
            else mem[lo + (k - lo) % d]
  {
    SwapClosedForm(mem, lo, d, n, k);
    if lo <= k {
      RemIsModulo(k - lo, d);
    }
  }

  lemma SwapElementsKeepsBytes(m: seq<byte>, i: nat, j: nat)
    requires i < |m| && j < |m|
    ensures multiset(SwapElements(m, i, j)) == multiset(m)
  {
    var half := m[i := m[j]];
    assert SwapElements(m, i, j) == half[j := m[i]];
    assert multiset(half) == multiset(m) - multiset{m[i]} + multiset{m[j]};
    assert multiset(half[j := m[i]]) == multiset(half) - multiset{half[j]} + multiset{m[i]};
  }

  /** No byte is lost or invented, whatever the overlap. */
  lemma {:induction false} SwapKeepsBytes(mem: seq<byte>, a: nat, b: nat, n: nat)
    requires a + n <= |mem| && b + n <= |mem|
    ensures multiset(SwapBytes(mem, a, b, n)) == multiset(mem)
  {
    if n > 0 {
      SwapKeepsBytes(mem, a, b, n - 1);
      SwapElementsKeepsBytes(SwapBytes(mem, a, b, n - 1), a + n - 1, b + n - 1);
    }
  }

  /** Disjoint ranges are exchanged and everything else stays. */
  lemma SwapExchangesDisjoint(mem: seq<byte>, lo: nat, d: nat, n: nat, k: nat)
    requires d >= n > 0 && lo + d + n <= |mem| && k < |mem|
    ensures SwapBytes(mem, lo, lo + d, n)[k] ==
            if lo <= k < lo + n then mem[k + d]
            else if lo + d <= k < lo + d + n then mem[k - d]
            else mem[k]
  {
    SwapClosedForm(mem, lo, d, n, k);
    if lo + d <= k < lo + d + n {
      assert Rem(k - lo, d) == Rem(k - lo - d, d) == k - lo - d;
    } else if lo <= k < lo + d {
      assert Rem(k - lo, d) == k - lo;
    }
  }

  lemma {:induction false} SwapOfItself(mem: seq<byte>, a: nat, n: nat)
    requires a + n <= |mem|
    ensures SwapBytes(mem, a, a, n) == mem
  {
    if n > 0 {
      SwapOfItself(mem, a, n - 1);
    }
  }

  lemma SwapTwiceDisjoint(mem: seq<byte>, lo: nat, d: nat, n: nat)
    requires d >= n > 0 && lo + d + n <= |mem|
    ensures SwapBytes(SwapBytes(mem, lo, lo + d, n), lo, lo + d, n) == mem
  {
    var once := SwapBytes(mem, lo, lo + d, n);
    var twice := SwapBytes(once, lo, lo + d, n);
    forall k | 0 <= k < |mem|
      ensures twice[k] == mem[k]
    {
      SwapExchangesDisjoint(once, lo, d, n, k);
      if lo <= k < lo + n {
        SwapExchangesDisjoint(mem, lo, d, n, k + d);
      } else if lo + d <= k < lo + d + n {
        SwapExchangesDisjoint(mem, lo, d, n, k - d);
      } else {
        SwapExchangesDisjoint(mem, lo, d, n, k);
      }
    }
  }

  /** With a proper overlap the byte two steps up arrives at the bottom. */
  lemma SwapTwiceOverlapping(mem: seq<byte>, lo: nat, d: nat, n: nat)
    requires 0 < d < n && lo + d + n <= |mem|
    ensures SwapBytes(SwapBytes(mem, lo, lo + d, n), lo, lo + d, n)[lo] == mem[lo + 2 * d]
  {
    SwapClosedForm(SwapBytes(mem, lo, lo + d, n), lo, d, n, lo);
    SwapClosedForm(mem, lo, d, n, lo + d);
  }

  ghost predicate TwiceIsIdentity(mem: seq<byte>, lo: nat, d: nat, n: nat)
    requires lo + d + n <= |mem|
  {
    SwapBytes(SwapBytes(mem, lo, lo + d, n), lo, lo + d, n) == mem
  }

  lemma TwiceIsIdentityUnlessOverlapping(mem: seq<byte>, lo: nat, d: nat, n: nat)
    requires lo + d + n <= |mem| && (d == 0 || d >= n)
    ensures TwiceIsIdentity(mem, lo, d, n)
  {
    if d == 0 {
      SwapOfItself(mem, lo, n);
    } else if n > 0 {
      SwapTwiceDisjoint(mem, lo, d, n);
    }
  }

  lemma TwiceChangesSomeMemory(size: nat, lo: nat, d: nat, n: nat) returns (mem: seq<byte>)
    requires lo + d + n <= size && 0 < d < n
    ensures |mem| == size && !TwiceIsIdentity(mem, lo, d, n)
  {
    mem := seq(size, i => 0);
    mem := mem[lo := 1];
    SwapTwiceOverlapping(mem, lo, d, n);
  }

  /** Swapping twice is the identity on every memory exactly when the ranges
      coincide, are empty, or do not overlap. */
  lemma SwapTwiceIsIdentity(size: nat, lo: nat, d: nat, n: nat)
    requires lo + d + n <= size
    ensures (forall mem: seq<byte> | |mem| == size :: TwiceIsIdentity(mem, lo, d, n)) <==> d == 0 || d >= n
  {
    if d == 0 || d >= n {
      forall mem: seq<byte> | |mem| == size
        ensures TwiceIsIdentity(mem, lo, d, n)
      {
        TwiceIsIdentityUnlessOverlapping(mem, lo, d, n);
      }
    } else {
      var mem := TwiceChangesSomeMemory(size, lo, d, n);
    }
  }
}
