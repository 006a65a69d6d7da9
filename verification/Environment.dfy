/** The environment store (code/logic/env.c, Linux branch): one list of
    "name=value" entries behind two separately written key maps, the one that
    reads (`Resolve`) and the one that writes (`Set`). */
module Environment {
  import opened CStrings

  // ---------------------------------------------------------------------
  // environ, getenv, setenv, unsetenv
  // ---------------------------------------------------------------------

  type Environ = seq<string>

  /** Where the first '=' of an entry stands, or its length. */
  function KeyEnd(entry: string): (n: nat)
    ensures n <= |entry| && '=' !in entry[..n]
    ensures n < |entry| ==> entry[n] == '='
  {
    if entry == "" || entry[0] == '=' then 0
    else
      var n := 1 + KeyEnd(entry[1..]);
      assert entry[..n] == [entry[0]] + entry[1..][..n - 1];
      n
  }

  predicate IsPair(entry: string) {
    KeyEnd(entry) < |entry|
  }

  function KeyOf(entry: string): string {
    entry[..KeyEnd(entry)]
  }

  function ValueOf(entry: string): string
    requires IsPair(entry)
  {
    entry[KeyEnd(entry) + 1..]
  }

  predicate Binds(entry: string, name: string) {
    IsPair(entry) && KeyOf(entry) == name
  }

  function Pair(name: string, value: string): string {
    name + "=" + value
  }

  /** An empty name is no variable's name. */
  function Getenv(env: Environ, name: string): Option<string> {
    if env == [] || name == "" then None
    else if Binds(env[0], name) then Some(ValueOf(env[0]))
    else Getenv(env[1..], name)
  }

  predicate ValidName(name: string) {
    name != "" && '=' !in name
  }

  /** The first binding is replaced in place, or a new one appended. */
  function Bound(env: Environ, name: string, value: string): Environ {
    if env == [] then [Pair(name, value)]
    else if Binds(env[0], name) then [Pair(name, value)] + env[1..]
    else [env[0]] + Bound(env[1..], name, value)
  }

  function Unbound(env: Environ, name: string): Environ {
    if env == [] then []
    else (if Binds(env[0], name) then [] else [env[0]]) + Unbound(env[1..], name)
  }

  lemma UnboundDrops(env: Environ, i: nat, name: string)
    requires i < |env| && Binds(env[i], name)
    ensures var env' := env[..i] + env[i + 1..];
            env'[..i] + Unbound(env'[i..], name) == env[..i] + Unbound(env[i..], name)
  {
    var env' := env[..i] + env[i + 1..];
    assert env'[..i] == env[..i] && env'[i..] == env[i + 1..];
    assert env[i..][1..] == env[i + 1..];
  }

  lemma UnboundKeeps(env: Environ, i: nat, name: string)
    requires i < |env| && !Binds(env[i], name)
    ensures env[..i + 1] + Unbound(env[i + 1..], name) == env[..i] + Unbound(env[i..], name)
  {
    assert env[i..][1..] == env[i + 1..];
  }

  lemma {:induction false} KeyEndOfPair(name: string, value: string)
    requires '=' !in name
    ensures KeyEnd(Pair(name, value)) == |name|
    ensures Binds(Pair(name, value), name) && ValueOf(Pair(name, value)) == value
  {
    var entry := Pair(name, value);
    if name != "" {
      assert entry[1..] == Pair(name[1..], value);
      KeyEndOfPair(name[1..], value);
    }
    assert entry[..|name|] == name && entry[|name| + 1..] == value;
  }

  lemma {:induction false} GetenvAfterBound(env: Environ, name: string, value: string, other: string)
    requires ValidName(name)
    ensures Getenv(Bound(env, name, value), other) == if other == name then Some(value) else Getenv(env, other)
  {
    KeyEndOfPair(name, value);
    if env == [] {
      assert Bound(env, name, value)[1..] == [];
    } else if Binds(env[0], name) {
      assert Bound(env, name, value)[1..] == env[1..];
    } else {
      assert Bound(env, name, value)[1..] == Bound(env[1..], name, value);
      GetenvAfterBound(env[1..], name, value, other);
    }
  }

  lemma {:induction false} GetenvAfterUnbound(env: Environ, name: string, other: string)
    ensures Getenv(Unbound(env, name), other) == if other == name then None else Getenv(env, other)
  {
    if env != [] {
      GetenvAfterUnbound(env[1..], name, other);
      if Binds(env[0], name) {
        assert Unbound(env, name) == Unbound(env[1..], name);
      } else {
        assert Unbound(env, name)[1..] == Unbound(env[1..], name);
      }
    }
  }

  // ---------------------------------------------------------------------
  // The two key maps
  // ---------------------------------------------------------------------

  /** What the read side answers from outside the environment. */
  datatype Platform = Platform(arch: string, pageSize: string, cpuCount: string)

  /** All canonical ids do; no variable they are mapped to does. */
  predicate StartsWithF(key: string) {
    |key| > 0 && key[0] == 'f'
  }

  /** What the read side does with a key: answer a constant, ask `Get` for
      another name, with an answer if there is none, or ask the environment. */
  datatype Action = Constant(value: string) | Delegate(name: string, fallback: Option<string>) | Direct

  function ReadAction(pl: Platform, key: string): (a: Action)
    ensures a.Delegate? ==> StartsWithF(key) && !StartsWithF(a.name)
  {
    if key == "fossil.sys.name" then Constant("linux")
    else if key == "fossil.sys.arch" then Constant(pl.arch)
    else if key == "fossil.sys.page_size" then Constant(pl.pageSize)
    else if key == "fossil.sys.cpu_count" then Constant(pl.cpuCount)
    else if key == "fossil.sys.path" then Delegate("PATH", None)
    else if key == "fossil.sys.home" then Delegate("HOME", None)
    else if key == "fossil.sys.tmp" then Delegate("TMPDIR", Some("/tmp"))
    else if key == "fossil.runtime.mode" then Delegate("FOSSIL_RUNTIME_MODE", None)
    else if key == "fossil.runtime.debug" then Delegate("FOSSIL_RUNTIME_DEBUG", None)
    else if key == "fossil.runtime.log.level" then Delegate("FOSSIL_RUNTIME_LOG_LEVEL", None)
    else if key == "fossil.runtime.log.output" then Delegate("FOSSIL_RUNTIME_LOG_OUTPUT", None)
    else if key == "fossil.runtime.seed" then Delegate("FOSSIL_RUNTIME_SEED", None)
    else if key == "fossil.runtime.threads" then Delegate("FOSSIL_RUNTIME_THREADS", None)
    else if key == "fossil.app.name" then Delegate("FOSSIL_APP_NAME", None)
    else if key == "fossil.app.version" then Delegate("FOSSIL_APP_VERSION", None)
    else if key == "fossil.app.instance" then Delegate("FOSSIL_APP_INSTANCE", None)
    else if key == "fossil.user.name" then Delegate("USER", None)
    else if key == "fossil.user.id" then Delegate("UID", None)
    else if key == "fossil.temp.dir" then Delegate("TMPDIR", Some("/tmp"))
    else if key == "fossil.temp.cache" then Delegate("FOSSIL_TEMP_CACHE", None)
    else Direct
  }

  lemma PlainNameIsDirect(pl: Platform, key: string)
    requires !StartsWithF(key)
    ensures ReadAction(pl, key) == Direct
  {
  }

  /** fossil_sys_env_resolve_id: the answer, and how many calls of
      fossil_sys_env_get it has nested. */
  function Resolve(pl: Platform, env: Environ, key: string): (r: (Option<string>, nat))
    ensures r.1 == if ReadAction(pl, key).Delegate? then 1 else 0
    decreases if StartsWithF(key) then 1 else 0, 0
  {
    match ReadAction(pl, key)
    case Constant(v) => (Some(v), 0)
    case Delegate(name, fallback) =>
      PlainNameIsDirect(pl, name);
      var (v, nested) := Lookup(pl, env, Some(name));
      (if v.None? then fallback else v, nested)
    case Direct => (Getenv(env, key), 0)
  }

  /** fossil_sys_env_get, with the number of its nested calls; None is NULL. */
  function Lookup(pl: Platform, env: Environ, key: Option<string>): (r: (Option<string>, nat))
    ensures r.1 == if key.Some? && ReadAction(pl, key.value).Delegate? then 2 else 1
    decreases if key.Some? && StartsWithF(key.value) then 1 else 0, 1
  {
    if key.None? then (None, 1)
    else
      var (v, nested) := Resolve(pl, env, key.value);
      (v, nested + 1)
  }

  function Get(pl: Platform, env: Environ, key: Option<string>): Option<string> {
    Lookup(pl, env, key).0
  }

  /** The name `set` writes to. */
  function WriteName(key: string): string {
    if key == "fossil.sys.path" then "PATH"
    else if key == "fossil.sys.home" then "HOME"
    else if key == "fossil.sys.tmp" then "TMPDIR"
    else if key == "fossil.user.name" then "USER"
    else if key == "fossil.runtime.mode" then "FOSSIL_RUNTIME_MODE"
    else if key == "fossil.runtime.debug" then "FOSSIL_RUNTIME_DEBUG"
    else if key == "fossil.runtime.log.level" then "FOSSIL_RUNTIME_LOG_LEVEL"
    else if key == "fossil.runtime.log.output" then "FOSSIL_RUNTIME_LOG_OUTPUT"
    else if key == "fossil.runtime.seed" then "FOSSIL_RUNTIME_SEED"
    else if key == "fossil.runtime.threads" then "FOSSIL_RUNTIME_THREADS"
    else if key == "fossil.app.name" then "FOSSIL_APP_NAME"
    else if key == "fossil.app.version" then "FOSSIL_APP_VERSION"
    else if key == "fossil.app.instance" then "FOSSIL_APP_INSTANCE"
    else if key == "fossil.temp.cache" then "FOSSIL_TEMP_CACHE"
    else key
  }

  /** The ids that the read side knows and the write side does not. */
  predicate ReadOnlyId(key: string) {
    || key == "fossil.sys.name" || key == "fossil.sys.arch"
    || key == "fossil.sys.page_size" || key == "fossil.sys.cpu_count"
    || key == "fossil.user.id" || key == "fossil.temp.dir"
  }

  // ---------------------------------------------------------------------
  // Aliasing
  // ---------------------------------------------------------------------

  /** The variable that decides the answer for a key, if there is one. */
  function ReadName(pl: Platform, key: string): Option<string> {
    match ReadAction(pl, key)
    case Constant(_) => None
    case Delegate(name, _) => Some(name)
    case Direct => Some(key)
  }

  function Fallback(pl: Platform, key: string): Option<string> {
    match ReadAction(pl, key)
    case Constant(v) => Some(v)
    case Delegate(_, fallback) => fallback
    case Direct => None
  }

  lemma PlainNameIsLookedUp(pl: Platform, env: Environ, name: string)
    requires !StartsWithF(name)
    ensures Get(pl, env, Some(name)) == Getenv(env, name)
  {
    PlainNameIsDirect(pl, name);
    assert Resolve(pl, env, name).0 == Getenv(env, name);
  }

  /** Any lookup comes down to one variable and a default. */
  lemma GetIsOneLookup(pl: Platform, env: Environ, key: string)
    ensures Get(pl, env, Some(key)) ==
            match ReadName(pl, key)
            case Some(name) => if Getenv(env, name).Some? then Getenv(env, name) else Fallback(pl, key)
            case None => Fallback(pl, key)
  {
    var a := ReadAction(pl, key);
    assert Get(pl, env, Some(key)) == Resolve(pl, env, key).0;
    if a.Delegate? {
      PlainNameIsLookedUp(pl, env, a.name);
      var v := Lookup(pl, env, Some(a.name)).0;
      assert Resolve(pl, env, key).0 == if v.None? then a.fallback else v;
    }
  }

  lemma GetOfDelegate(pl: Platform, env: Environ, key: string, name: string, fallback: Option<string>)
    requires ReadAction(pl, key) == Delegate(name, fallback)
    ensures Get(pl, env, Some(key)) == if Getenv(env, name).Some? then Getenv(env, name) else fallback
  {
    GetIsOneLookup(pl, env, key);
  }

  /** What get answers for the ids of directories. */
  lemma GetOfDirectoryIds(pl: Platform, env: Environ)
    ensures Get(pl, env, Some("fossil.sys.path")) == Getenv(env, "PATH")
    ensures Get(pl, env, Some("fossil.sys.home")) == Getenv(env, "HOME")
    ensures Get(pl, env, Some("fossil.sys.tmp")) ==
            if Getenv(env, "TMPDIR").Some? then Getenv(env, "TMPDIR") else Some("/tmp")
    ensures Get(pl, env, Some("fossil.temp.dir")) ==
            if Getenv(env, "TMPDIR").Some? then Getenv(env, "TMPDIR") else Some("/tmp")
  {
    GetOfDelegate(pl, env, "fossil.sys.path", "PATH", None);
    GetOfDelegate(pl, env, "fossil.sys.home", "HOME", None);
    GetOfDelegate(pl, env, "fossil.sys.tmp", "TMPDIR", Some("/tmp"));
    GetOfDelegate(pl, env, "fossil.temp.dir", "TMPDIR", Some("/tmp"));
  }

  /** For those of the user and the cache. */
  lemma GetOfUserIds(pl: Platform, env: Environ)
    ensures Get(pl, env, Some("fossil.user.name")) == Getenv(env, "USER")
    ensures Get(pl, env, Some("fossil.user.id")) == Getenv(env, "UID")
    ensures Get(pl, env, Some("fossil.temp.cache")) == Getenv(env, "FOSSIL_TEMP_CACHE")
  {
    GetOfDelegate(pl, env, "fossil.user.name", "USER", None);
    GetOfDelegate(pl, env, "fossil.user.id", "UID", None);
    GetOfDelegate(pl, env, "fossil.temp.cache", "FOSSIL_TEMP_CACHE", None);
  }

  /** For those of the runtime. */
  lemma GetOfRuntimeIds(pl: Platform, env: Environ)
    ensures Get(pl, env, Some("fossil.runtime.mode")) == Getenv(env, "FOSSIL_RUNTIME_MODE")
    ensures Get(pl, env, Some("fossil.runtime.debug")) == Getenv(env, "FOSSIL_RUNTIME_DEBUG")
    ensures Get(pl, env, Some("fossil.runtime.seed")) == Getenv(env, "FOSSIL_RUNTIME_SEED")
    ensures Get(pl, env, Some("fossil.runtime.threads")) == Getenv(env, "FOSSIL_RUNTIME_THREADS")
  {
    GetOfDelegate(pl, env, "fossil.runtime.mode", "FOSSIL_RUNTIME_MODE", None);
    GetOfDelegate(pl, env, "fossil.runtime.debug", "FOSSIL_RUNTIME_DEBUG", None);
    GetOfDelegate(pl, env, "fossil.runtime.seed", "FOSSIL_RUNTIME_SEED", None);
    GetOfDelegate(pl, env, "fossil.runtime.threads", "FOSSIL_RUNTIME_THREADS", None);
  }

  /** For those of its log. */
  lemma GetOfLogIds(pl: Platform, env: Environ)
    ensures Get(pl, env, Some("fossil.runtime.log.level")) == Getenv(env, "FOSSIL_RUNTIME_LOG_LEVEL")
    ensures Get(pl, env, Some("fossil.runtime.log.output")) == Getenv(env, "FOSSIL_RUNTIME_LOG_OUTPUT")
  {
    GetOfDelegate(pl, env, "fossil.runtime.log.level", "FOSSIL_RUNTIME_LOG_LEVEL", None);
    GetOfDelegate(pl, env, "fossil.runtime.log.output", "FOSSIL_RUNTIME_LOG_OUTPUT", None);
  }

  /** For those of the application. */
  lemma GetOfAppIds(pl: Platform, env: Environ)
    ensures Get(pl, env, Some("fossil.app.name")) == Getenv(env, "FOSSIL_APP_NAME")
    ensures Get(pl, env, Some("fossil.app.version")) == Getenv(env, "FOSSIL_APP_VERSION")
    ensures Get(pl, env, Some("fossil.app.instance")) == Getenv(env, "FOSSIL_APP_INSTANCE")
  {
    GetOfDelegate(pl, env, "fossil.app.name", "FOSSIL_APP_NAME", None);
    GetOfDelegate(pl, env, "fossil.app.version", "FOSSIL_APP_VERSION", None);
    GetOfDelegate(pl, env, "fossil.app.instance", "FOSSIL_APP_INSTANCE", None);
  }

  /** Four ids are answered without a variable. */
  lemma GetOfConstantIds(pl: Platform, env: Environ)
    ensures Get(pl, env, Some("fossil.sys.name")) == Some("linux")
    ensures Get(pl, env, Some("fossil.sys.arch")) == Some(pl.arch)
    ensures Get(pl, env, Some("fossil.sys.page_size")) == Some(pl.pageSize)
    ensures Get(pl, env, Some("fossil.sys.cpu_count")) == Some(pl.cpuCount)
  {
  }

  /** Every other key is the name of a variable. */
  lemma OtherKeysReadThemselves(pl: Platform, env: Environ, key: string)
    requires key != "fossil.sys.name" && key != "fossil.sys.arch" && key != "fossil.sys.page_size"
    requires key != "fossil.sys.cpu_count" && key != "fossil.sys.path" && key != "fossil.sys.home"
    requires key != "fossil.sys.tmp" && key != "fossil.user.name" && key != "fossil.user.id"
    requires key != "fossil.temp.dir" && key != "fossil.temp.cache" && key != "fossil.runtime.mode"
    requires key != "fossil.runtime.debug" && key != "fossil.runtime.log.level" && key != "fossil.runtime.log.output"
    requires key != "fossil.runtime.seed" && key != "fossil.runtime.threads" && key != "fossil.app.name"
    requires key != "fossil.app.version" && key != "fossil.app.instance"
    ensures Get(pl, env, Some(key)) == Getenv(env, key)
  {
    GetIsOneLookup(pl, env, key);
  }

  /** The variable a set writes to. */
  lemma WriteNames()
    ensures WriteName("fossil.sys.path") == "PATH"
    ensures WriteName("fossil.sys.home") == "HOME"
    ensures WriteName("fossil.user.name") == "USER"
    ensures WriteName("fossil.sys.tmp") == "TMPDIR"
    ensures WriteName("fossil.runtime.mode") == "FOSSIL_RUNTIME_MODE"
    ensures WriteName("fossil.runtime.debug") == "FOSSIL_RUNTIME_DEBUG"
    ensures WriteName("fossil.runtime.log.level") == "FOSSIL_RUNTIME_LOG_LEVEL"
    ensures WriteName("fossil.runtime.log.output") == "FOSSIL_RUNTIME_LOG_OUTPUT"
    ensures WriteName("fossil.runtime.seed") == "FOSSIL_RUNTIME_SEED"
    ensures WriteName("fossil.runtime.threads") == "FOSSIL_RUNTIME_THREADS"
    ensures WriteName("fossil.app.name") == "FOSSIL_APP_NAME"
    ensures WriteName("fossil.app.version") == "FOSSIL_APP_VERSION"
    ensures WriteName("fossil.app.instance") == "FOSSIL_APP_INSTANCE"
    ensures WriteName("fossil.temp.cache") == "FOSSIL_TEMP_CACHE"
  {
  }

  lemma OtherKeysWriteThemselves(key: string)
    requires key != "fossil.sys.path" && key != "fossil.sys.home" && key != "fossil.user.name"
    requires key != "fossil.sys.tmp" && key != "fossil.runtime.mode" && key != "fossil.runtime.debug"
    requires key != "fossil.runtime.log.level" && key != "fossil.runtime.log.output" && key != "fossil.runtime.seed"
    requires key != "fossil.runtime.threads" && key != "fossil.app.name" && key != "fossil.app.version"
    requires key != "fossil.app.instance" && key != "fossil.temp.cache"
    ensures WriteName(key) == key
  {
  }

  /** The two key maps agree on every key but the six. */
  lemma MapsAgree(pl: Platform, key: string)
    requires !ReadOnlyId(key)
    ensures ReadName(pl, key) == Some(WriteName(key))
  {
  }

  lemma ReadOnlyIdIsNotDirect(pl: Platform, key: string)
    requires ReadOnlyId(key)
    ensures !ReadAction(pl, key).Direct?
  {
  }

  lemma StartsLikeAnId(key: string)
    requires ReadOnlyId(key)
    ensures StartsWithF(key)
  {
  }

  lemma ReadOnlyIdIsNotRenamed(key: string)
    requires ReadOnlyId(key)
    ensures WriteName(key) == key
  {
  }

  /** The six are written under their own name, where no lookup of any key looks. */
  lemma {:induction false} ReadOnlyIdsAreNotMapped(pl: Platform, key: string, other: string)
    requires ReadOnlyId(key)
    ensures WriteName(key) == key && ReadName(pl, other) != Some(key)
  {
    ReadOnlyIdIsNotRenamed(key);
    ReadOnlyIdIsNotDirect(pl, key);
    StartsLikeAnId(key);
    var a := ReadAction(pl, other);
    assert a.Delegate? ==> !StartsWithF(a.name);
  }

  lemma FallbackOfTmp(pl: Platform, key: string)
    requires !ReadOnlyId(key)
    ensures Fallback(pl, key) == if key == "fossil.sys.tmp" then Some("/tmp") else None
  {
  }

  /** What fossil_sys_env_set leaves behind and returns; `outOfMemory` is the
      other way for setenv to fail. */
  function AfterSet(env: Environ, key: string, value: Option<string>, outOfMemory: bool): (Environ, int) {
    var name := WriteName(key);
    if !ValidName(name) then (env, -1)
    else if value.None? then (Unbound(env, name), 0)
    else if outOfMemory then (env, -1)
    else (Bound(env, name, value.value), 0)
  }

  /** A set succeeds exactly if it writes to a valid name, and setenv, if it is
      called, has memory; otherwise it answers -1 and nothing changes. */
  lemma SetSucceedsExactly(env: Environ, key: string, value: Option<string>, outOfMemory: bool)
    ensures var (env', r) := AfterSet(env, key, value, outOfMemory);
            && (r == 0 <==> WriteName(key) != "" && '=' !in WriteName(key) && (value.None? || !outOfMemory))
            && (r != 0 ==> env' == env && r == -1)
  {
  }

  lemma GetenvAfterSet(env: Environ, key: string, value: Option<string>, outOfMemory: bool, other: string)
    ensures var (env', r) := AfterSet(env, key, value, outOfMemory);
            Getenv(env', other) == if r == 0 && other == WriteName(key) then value else Getenv(env, other)
  {
    var name := WriteName(key);
    if ValidName(name) {
      if value.None? {
        GetenvAfterUnbound(env, name, other);
      } else {
        GetenvAfterBound(env, name, value.value, other);
      }
    }
  }

  /** A write shows through another key only when both stand for one variable. */
  lemma SetChangesOnlyAliases(pl: Platform, env: Environ, key: string, value: Option<string>, outOfMemory: bool,
                              other: string)
    requires ReadName(pl, other) != Some(WriteName(key)) || AfterSet(env, key, value, outOfMemory).1 != 0
    ensures Get(pl, AfterSet(env, key, value, outOfMemory).0, Some(other)) == Get(pl, env, Some(other))
  {
    var env' := AfterSet(env, key, value, outOfMemory).0;
    GetIsOneLookup(pl, env, other);
    GetIsOneLookup(pl, env', other);
    if ReadName(pl, other).Some? {
      GetenvAfterSet(env, key, value, outOfMemory, ReadName(pl, other).value);
    }
  }

  /** Reading back: a successful write is what every alias reads, except that
      unsetting leaves the default of the key that is read. */
  lemma SetReachesEveryAlias(pl: Platform, env: Environ, key: string, value: Option<string>, outOfMemory: bool,
                             other: string)
    requires ReadName(pl, other) == Some(WriteName(key)) && AfterSet(env, key, value, outOfMemory).1 == 0
    ensures Get(pl, AfterSet(env, key, value, outOfMemory).0, Some(other)) ==
            if value.Some? then value else Fallback(pl, other)
  {
    GetIsOneLookup(pl, AfterSet(env, key, value, outOfMemory).0, other);
    GetenvAfterSet(env, key, value, outOfMemory, WriteName(key));
  }

  /** Setting one of the six is seen by no get at all. */
  lemma ReadOnlySetIsNeverSeen(pl: Platform, env: Environ, key: string, value: Option<string>, outOfMemory: bool,
                               other: string)
    requires ReadOnlyId(key)
    ensures Get(pl, AfterSet(env, key, value, outOfMemory).0, Some(other)) == Get(pl, env, Some(other))
  {
    ReadOnlyIdsAreNotMapped(pl, key, other);
    SetChangesOnlyAliases(pl, env, key, value, outOfMemory, other);
  }

  /** Get after set, over all keys: the value for every key outside the six, and
      no effect for those; an unset key reads as NULL, except fossil.sys.tmp. */
  lemma GetAfterSet(pl: Platform, env: Environ, key: string, value: Option<string>, outOfMemory: bool)
    requires AfterSet(env, key, value, outOfMemory).1 == 0
    ensures Get(pl, AfterSet(env, key, value, outOfMemory).0, Some(key)) ==
            if ReadOnlyId(key) then Get(pl, env, Some(key))
            else if value.Some? then value
            else if key == "fossil.sys.tmp" then Some("/tmp")
            else None
  {
    if ReadOnlyId(key) {
      ReadOnlyIdsAreNotMapped(pl, key, key);
      SetChangesOnlyAliases(pl, env, key, value, outOfMemory, key);
    } else {
      MapsAgree(pl, key);
      FallbackOfTmp(pl, key);
      SetReachesEveryAlias(pl, env, key, value, outOfMemory, key);
    }
  }

  /** The process environment. */
  class Process {
    var environ: Environ
    const pl: Platform

    constructor (p: Platform, env: Environ)
      ensures pl == p && environ == env
    {
      pl, environ := p, env;
    }

    /** setenv with overwriting. */
    method Setenv(name: string, value: string, outOfMemory: bool) returns (r: int)
      modifies this
      ensures r == 0 || r == -1
      ensures r == 0 <==> ValidName(name) && !outOfMemory
      ensures environ == if r == 0 then Bound(old(environ), name, value) else old(environ)
    {
      if name == "" || '=' in name || outOfMemory {
        return -1;
      }
      var i := 0;
      while i < |environ| && !Binds(environ[i], name)
        invariant 0 <= i <= |environ|
        invariant environ == old(environ)
        invariant Bound(environ, name, value) == environ[..i] + Bound(environ[i..], name, value)
      {
        assert environ[i..][1..] == environ[i + 1..];
        i := i + 1;
      }
      if i < |environ| {
        assert environ[i..][1..] == environ[i + 1..];
        environ := environ[i := Pair(name, value)];
      } else {
        environ := environ + [Pair(name, value)];
      }
      return 0;
    }

    method Unsetenv(name: string) returns (r: int)
      modifies this
      ensures r == 0 || r == -1
      ensures r == 0 <==> ValidName(name)
      ensures environ == if r == 0 then Unbound(old(environ), name) else old(environ)
    {
      if name == "" || '=' in name {
        return -1;
      }
      var i := 0;
      while i < |environ|
        invariant 0 <= i <= |environ|
        invariant Unbound(old(environ), name) == environ[..i] + Unbound(environ[i..], name)
        decreases |environ| - i
      {
        if Binds(environ[i], name) {
          UnboundDrops(environ, i, name);
          environ := environ[..i] + environ[i + 1..];
        } else {
          UnboundKeeps(environ, i, name);
          i := i + 1;
        }
      }
      return 0;
    }

    /** fossil_sys_env_set; None is NULL. */
    method Set(key: Option<string>, value: Option<string>, outOfMemory: bool) returns (r: int)
      modifies this
      ensures key.None? ==> r == -1 && environ == old(environ)
      ensures key.Some? ==> (environ, r) == AfterSet(old(environ), key.value, value, outOfMemory)
      ensures key.Some? ==>
                && (r == 0 <==> ValidName(WriteName(key.value)) && (value.None? || !outOfMemory))
                && (r != 0 ==> r == -1 && environ == old(environ))
    {
      if key.None? {
        return -1;
      }
      var name := WriteName(key.value);
      if value.None? {
        r := Unsetenv(name);
      } else {
        r := Setenv(name, value.value, outOfMemory);
      }
    }
  }
}
