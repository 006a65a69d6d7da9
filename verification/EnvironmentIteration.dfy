/** fossil_sys_env_foreach (code/logic/env.c, Linux branch). */
module EnvironmentIteration {
  import opened CStrings
  import opened Environment

  /** Size of the key buffer, terminator included. */
  const KEY_BUFFER: nat := 256

  /** One call of the callback. */
  datatype Call = Call(key: string, value: string)

  predicate Yields(entry: string) {
    IsPair(entry) && KeyEnd(entry) < KEY_BUFFER
  }

  /** The calls an environment gives rise to if no callback stops the loop. */
  function Calls(env: Environ): (calls: seq<Call>) {
    if env == [] then []
    else
      var last := env[|env| - 1];
      Calls(env[..|env| - 1]) + (if Yields(last) then [Call(KeyOf(last), ValueOf(last))] else [])
  }

  /** Where the entries that are yielded stand in the environment. */
  function Positions(env: Environ): (ps: seq<nat>) {
    if env == [] then []
    else
      var n := |env| - 1;
      Positions(env[..n]) + (if Yields(env[n]) then [n] else [])
  }

  lemma {:induction false} PositionsAscend(env: Environ)
    ensures forall k :: 0 <= k < |Positions(env)| ==> Positions(env)[k] < |env|
    ensures forall j, k :: 0 <= j < k < |Positions(env)| ==> Positions(env)[j] < Positions(env)[k]
  {
    if env != [] {
      PositionsAscend(env[..|env| - 1]);
    }
  }

  lemma {:induction false} PositionsAreYielded(env: Environ, p: nat)
    ensures p in Positions(env) <==> p < |env| && Yields(env[p])
  {
    if env != [] {
      PositionsAreYielded(env[..|env| - 1], p);
    }
  }

  /** The first '=' of the entry stands at `e`. */
  ghost predicate SplitsAt(entry: string, e: nat) {
    e < |entry| && entry[e] == '=' && '=' !in entry[..e]
  }

  lemma SplitsAtKeyEnd(entry: string, e: nat)
    ensures SplitsAt(entry, e) <==> IsPair(entry) && e == KeyEnd(entry)
  {
    var n := KeyEnd(entry);
    assert n < e < |entry| ==> entry[..e][n] == entry[n];
    assert e < n ==> entry[..n][e] == entry[e];
  }

  /** Entry `p` has its first '=' within the first 256 characters, and the call is
      what stands before and behind it. */
  ghost predicate IsCallOf(c: Call, env: Environ, p: nat) {
    p < |env| && exists e: nat :: e < 256 && SplitsAt(env[p], e) && c == Call(env[p][..e], env[p][e + 1..])
  }

  lemma YieldsExactly(entry: string)
    ensures Yields(entry) <==> exists e: nat :: e < 256 && SplitsAt(entry, e)
  {
    SplitsAtKeyEnd(entry, KeyEnd(entry));
    if e: nat :| e < 256 && SplitsAt(entry, e) {
      SplitsAtKeyEnd(entry, e);
    }
  }

  lemma YieldedCall(env: Environ, p: nat)
    requires p < |env| && Yields(env[p])
    ensures IsCallOf(Call(KeyOf(env[p]), ValueOf(env[p])), env, p)
  {
    SplitsAtKeyEnd(env[p], KeyEnd(env[p]));
  }

  lemma {:induction false} CallsAtPositions(env: Environ)
    ensures |Calls(env)| == |Positions(env)|
    ensures forall k :: 0 <= k < |Positions(env)| ==> IsCallOf(Calls(env)[k], env, Positions(env)[k])
  {
    if env != [] {
      var front, last := env[..|env| - 1], env[|env| - 1];
      CallsAtPositions(front);
      if Yields(last) {
        YieldedCall(env, |env| - 1);
      }
      forall k | 0 <= k < |Positions(front)|
        ensures IsCallOf(Calls(env)[k], env, Positions(env)[k])
      {
        assert IsCallOf(Calls(front)[k], front, Positions(front)[k]);
      }
    }
  }

  /** The calls are those of the entries with an '=' within their first 256
      characters, each once, in the order of the environment. */
  lemma {:induction false} CallsInOrder(env: Environ)
    ensures |Calls(env)| == |Positions(env)|
    ensures forall k :: 0 <= k < |Positions(env)| ==> IsCallOf(Calls(env)[k], env, Positions(env)[k])
    ensures forall j, k :: 0 <= j < k < |Positions(env)| ==> Positions(env)[j] < Positions(env)[k]
    ensures forall p: nat :: p in Positions(env) <==> p < |env| && exists e: nat :: e < 256 && SplitsAt(env[p], e)
  {
    CallsAtPositions(env);
    PositionsAscend(env);
    forall p: nat
      ensures p in Positions(env) <==> p < |env| && exists e: nat :: e < 256 && SplitsAt(env[p], e)
    {
      PositionsAreYielded(env, p);
      if p < |env| {
        YieldsExactly(env[p]);
      }
    }
  }

  lemma CallsStep(env: Environ, i: nat)
    requires i < |env|
    ensures Calls(env[..i + 1]) ==
            Calls(env[..i]) + (if Yields(env[i]) then [Call(KeyOf(env[i]), ValueOf(env[i]))] else [])
  {
    assert env[..i + 1][..i] == env[..i];
  }

  lemma {:induction false} CallsOfPrefix(env: Environ, i: nat)
    requires i <= |env|
    ensures Calls(env[..i]) <= Calls(env)
  {
    if i == |env| {
      assert env[..i] == env;
    } else {
      var front := env[..|env| - 1];
      assert front[..i] == env[..i];
      CallsOfPrefix(front, i);
    }
  }

  /** `cb` may keep state: its answer depends on all calls so far, the current
      one included. None is NULL. */
  method Foreach(env: Environ, cb: Option<seq<Call> -> int>) returns (made: seq<Call>)
    ensures cb.None? ==> made == []
    ensures cb.Some? ==>
              && made <= Calls(env)
              && (forall n :: 0 < n < |made| ==> cb.value(made[..n]) == 0)
              && (made == Calls(env) || (made != [] && cb.value(made) != 0))
  {
    made := [];
    if cb.None? {
      return;
    }
    var i := 0;
    while i < |env|
      invariant 0 <= i <= |env|
      invariant made == Calls(env[..i])
      invariant forall n :: 0 < n <= |made| ==> cb.value(made[..n]) == 0
    {
      CallsStep(env, i);
      var entry := env[i];
      var keyLen := KeyEnd(entry);
      if keyLen == |entry| || keyLen >= KEY_BUFFER {
        i := i + 1;
        continue;
      }
      ghost var before := made;
      made := made + [Call(entry[..keyLen], entry[keyLen + 1..])];
      assert forall n :: 0 < n <= |before| ==> made[..n] == before[..n];
      assert made[..|made|] == made;
      if cb.value(made) != 0 {
        CallsOfPrefix(env, i + 1);
        return;
      }
      i := i + 1;
    }
    assert env[..i] == env;
  }

  /** Every call takes an entry apart without loss: the entry is the key, an
      '=', and the value, and the key ends at the first '='. */
  lemma {:induction false} CallsRejoin(env: Environ, c: Call)
    requires c in Calls(env)
    ensures '=' !in c.key && |c.key| < KEY_BUFFER
    ensures Pair(c.key, c.value) in env
  {
    var front, last := env[..|env| - 1], env[|env| - 1];
    if c in Calls(front) {
      CallsRejoin(front, c);
      assert Pair(c.key, c.value) in front;
    } else {
      assert Pair(c.key, c.value) == last;
    }
  }

  ghost predicate DuplicateFree(env: Environ) {
    forall i, j :: 0 <= i < j < |env| && IsPair(env[i]) && IsPair(env[j]) ==> KeyOf(env[i]) != KeyOf(env[j])
  }

  lemma {:induction false} GetenvFinds(env: Environ, i: nat)
    requires i < |env| && IsPair(env[i]) && KeyOf(env[i]) != ""
    requires forall j :: 0 <= j < i && IsPair(env[j]) ==> KeyOf(env[j]) != KeyOf(env[i])
    ensures Getenv(env, KeyOf(env[i])) == Some(ValueOf(env[i]))
  {
    if i > 0 {
      GetenvFinds(env[1..], i - 1);
    }
  }

  /** Without duplicates, what the callback sees under a non-empty key that no
      canonical id takes is what reading that key gives. */
  lemma CallsAgreeWithGet(pl: Platform, env: Environ, c: Call)
    requires DuplicateFree(env) && c in Calls(env) && c.key != "" && ReadAction(pl, c.key) == Direct
    ensures Get(pl, env, Some(c.key)) == Some(c.value)
  {
    CallsRejoin(env, c);
    KeyEndOfPair(c.key, c.value);
    var i :| 0 <= i < |env| && env[i] == Pair(c.key, c.value);
    GetenvFinds(env, i);
    GetIsOneLookup(pl, env, c.key);
  }
}
