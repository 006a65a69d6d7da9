/** Bytes and NUL-terminated strings as the C library sees them: a value type for
    the contents of a string, and the view of a char buffer from one of its
    positions. */
module CStrings {

  datatype Option<+T> = None | Some(value: T)

  type byte = b: int | 0 <= b < 256

  /** The contents of a C string, without the terminator. */
  type CString = s: string | '\0' !in s witness ""

  /** The characters from `i` up to the first NUL at or after `i`. */
  function ReadFrom(mem: string, i: nat): (s: CString)
    requires i <= |mem|
    decreases |mem| - i
  {
    if i == |mem| || mem[i] == '\0' then "" else [mem[i]] + ReadFrom(mem, i + 1)
  }

  /** Reading stops at the first NUL, and nowhere else. */
  lemma {:induction false} ReadFromIsSlice(mem: string, i: nat, n: nat)
    requires i <= n < |mem| && mem[n] == '\0'
    requires '\0' !in mem[i..n]
    ensures ReadFrom(mem, i) == mem[i..n]
    decreases n - i
  {
    if i < n {
      assert mem[i] == mem[i..n][0];
      assert mem[i..n] == [mem[i]] + mem[i + 1..n];
      ReadFromIsSlice(mem, i + 1, n);
    }
  }

  /** strlen over a terminated buffer. */
  method Strlen(mem: array<char>) returns (n: nat)
    requires '\0' in mem[..]
    ensures n < mem.Length && mem[n] == '\0' && '\0' !in mem[..n]
    ensures ReadFrom(mem[..], 0) == mem[..n]
  {
    ghost var end :| 0 <= end < mem.Length && mem[..][end] == '\0';
    n := 0;
    while mem[n] != '\0'
      invariant n <= end
      invariant '\0' !in mem[..n]
      decreases end - n
    {
      assert mem[..n + 1] == mem[..n] + [mem[n]];
      n := n + 1;
    }
    assert mem[..][0..n] == mem[..n];
    ReadFromIsSlice(mem[..], 0, n);
  }
}
