/**
 * The fixture library: finding fixture types in the assemblies of an application
 * directory, instantiating and compiling each one (an instantiation or compilation
 * failure becomes an invalid fixture rather than an error), and registering every
 * compiled fixture and its model under the fixture's key. Looking up a key that was never
 * registered gives a missing fixture for that key.
 *
 * Reflection is abstracted: a type is described by the facts the library asks of it and
 * by what activating it does; an assembly by its name, its references and its exported
 * types; loading an assembly from a file, and compiling a fixture, are parameters.
 */
module Fixtures {
  import opened Wrappers

  /** An exception: its type's full name and its message. */
  datatype Fault = Fault(typeName: string, message: string)

  /** What dereferencing the null produced by a failed cast raises. */
  const NullReference := Fault("System.NullReferenceException", "Object reference not set to an instance of an object.")

  /** What creating an instance with the default constructor does. */
  datatype Activation = Created | Threw(fault: Fault)

  /** A type as the library sees it. `key` is the key its fixture is registered under. */
  datatype TypeInfo = TypeInfo(
    fullName: string,
    key: string,
    castsToFixture: bool,
    hidden: bool,
    concreteWithDefaultCtor: bool,
    openGeneric: bool,
    activation: Activation)

  /** A fixture: an instance of a fixture type, the stand-in for a type that could not be
      instantiated or compiled, or the stand-in for a key nobody registered. */
  datatype Fixture = Instance(fixtureType: TypeInfo) | Invalid(fixtureType: TypeInfo, fault: Fault) | Missing(missingKey: string)

  function Key(f: Fixture): string
  {
    match f
    case Instance(t) => t.key
    case Invalid(t, _) => t.key
    case Missing(k) => k
  }

  /** What compiling a fixture produces, as far as the library touches it. */
  datatype FixtureModel = FixtureModel(key: string, implementation: string)

  datatype CompiledFixture = CompiledFixture(fixture: Fixture, model: FixtureModel)

  type Compiler = Fixture -> Result<FixtureModel, Fault>

  /** An assembly: its simple name, the names of the assemblies it references, and its
      exported types (None when enumerating them throws). */
  datatype Assembly = Assembly(name: string, references: seq<string>, exportedTypes: Option<seq<TypeInfo>>)

  // ---------------------------------------------------------------------------
  // Fixture types

  /** A fixture type can be cast to Fixture, is not hidden, is concrete with a default
      constructor and is not an open generic; each test can reject it on its own. */
  function IsFixtureType(t: TypeInfo): (r: bool)
    ensures r <==> t.castsToFixture && !t.hidden && t.concreteWithDefaultCtor && !t.openGeneric
  {
    if !t.castsToFixture then false
    else if t.hidden then false
    else if !t.concreteWithDefaultCtor then false
    else if t.openGeneric then false
    else true
  }

  /** The fixture types among `ts`, in their order. */
  function FixtureTypesAmong(ts: seq<TypeInfo>): (r: seq<TypeInfo>)
    ensures forall t :: t in r <==> t in ts && IsFixtureType(t)
    ensures |r| <= |ts|
  {
    if ts == [] then []
    else (if IsFixtureType(ts[0]) then [ts[0]] else []) + FixtureTypesAmong(ts[1..])
  }

  /** The exported fixture types of an assembly; none when its types cannot be listed. */
  function FixtureTypesFor(a: Assembly): (r: seq<TypeInfo>)
    ensures a.exportedTypes.None? ==> r == []
    ensures a.exportedTypes.Some? ==> forall t :: t in r <==> t in a.exportedTypes.value && IsFixtureType(t)
  {
    match a.exportedTypes
    case None => []
    case Some(ts) => FixtureTypesAmong(ts)
  }

  /** A filter keeps exactly the types it accepts, so filtering twice changes nothing. */
  lemma {:induction false} FixtureTypesAmongIdempotent(ts: seq<TypeInfo>)
    ensures FixtureTypesAmong(FixtureTypesAmong(ts)) == FixtureTypesAmong(ts)
  {
    if ts != [] {
      FixtureTypesAmongIdempotent(ts[1..]);
      var head := if IsFixtureType(ts[0]) then [ts[0]] else [];
      FixtureTypesAmongAppend(head, FixtureTypesAmong(ts[1..]));
      assert FixtureTypesAmong(head) == head by {
        if head != [] {
          assert head[1..] == [];
        }
      }
    }
  }

  lemma {:induction false} FixtureTypesAmongAppend(a: seq<TypeInfo>, b: seq<TypeInfo>)
    ensures FixtureTypesAmong(a + b) == FixtureTypesAmong(a) + FixtureTypesAmong(b)
  {
    if a == [] {
      assert a + b == b;
    } else {
      assert (a + b)[0] == a[0];
      assert (a + b)[1..] == a[1..] + b;
      FixtureTypesAmongAppend(a[1..], b);
    }
  }

  /** All fixture types of a list of assemblies, assembly by assembly. */
  function FixtureTypesOf(assemblies: seq<Assembly>): (r: seq<TypeInfo>)
    ensures forall t :: t in r ==> IsFixtureType(t)
  {
    if assemblies == [] then [] else FixtureTypesFor(assemblies[0]) + FixtureTypesOf(assemblies[1..])
  }

  /** Whether an assembly references the assembly named `selfName`. */
  function ReferencesAssembly(a: Assembly, selfName: string): (r: bool)
    ensures r <==> exists i :: 0 <= i < |a.references| && a.references[i] == selfName
  {
    selfName in a.references
  }

  // ---------------------------------------------------------------------------
  // Instantiating and compiling one type

  /** The static cache from type to the instance created for it; None is the null left by
      a cast that failed. */
  class FixtureCache {
    var entries: map<TypeInfo, Option<Fixture>>

    constructor ()
      ensures entries == map[]
    {
      entries := map[];
    }

    method Store(t: TypeInfo, f: Option<Fixture>)
      modifies this
      ensures entries == old(entries)[t := f]
    {
      entries := entries[t := f];
    }
  }

  /** The stand-in for a type that failed: compiled, then marked with the type's name as
      its implementation. Compiling the stand-in can itself raise. */
  function CompileInvalid(t: TypeInfo, e: Fault, compile: Compiler): (r: Result<CompiledFixture, Fault>)
    ensures r.Ok? ==> r.value.fixture == Invalid(t, e) && r.value.model.implementation == t.fullName
    ensures r.Err? <==> compile(Invalid(t, e)).Err?
  {
    match compile(Invalid(t, e))
    case Ok(m) => Ok(CompiledFixture(Invalid(t, e), m.(implementation := t.fullName)))
    case Err(e2) => Err(e2)
  }

  /** The outcome of CreateCompiledFixture for a type. */
  function Compiled(t: TypeInfo, compile: Compiler): Result<CompiledFixture, Fault>
  {
    match t.activation
    case Threw(e) => CompileInvalid(t, e, compile)
    case Created =>
      if !t.castsToFixture then CompileInvalid(t, NullReference, compile)
      else
        match compile(Instance(t))
        case Ok(m) => Ok(CompiledFixture(Instance(t), m))
        case Err(e) => CompileInvalid(t, e, compile)
  }

  /** The cache after CreateCompiledFixture: the created object (or the null of a failed
      cast) is stored before compiling, so it stays stored whatever compiling does. */
  function CachedAfter(entries: map<TypeInfo, Option<Fixture>>, t: TypeInfo): map<TypeInfo, Option<Fixture>>
  {
    match t.activation
    case Threw(_) => entries
    case Created => entries[t := if t.castsToFixture then Some(Instance(t)) else None]
  }

  /**
   * What a compiled fixture is: the instance and the model compiling it produced when both
   * steps succeed; otherwise the stand-in for the type, carrying the fault of the step that
   * failed; an error only when compiling the stand-in itself fails.
   */
  lemma CompiledOutcomes(t: TypeInfo, compile: Compiler)
    ensures t.activation.Created? && t.castsToFixture && compile(Instance(t)).Ok? ==>
              Compiled(t, compile) == Ok(CompiledFixture(Instance(t), compile(Instance(t)).value))
    ensures t.activation.Created? && t.castsToFixture && compile(Instance(t)).Err? ==>
              Compiled(t, compile) == CompileInvalid(t, compile(Instance(t)).error, compile)
    ensures t.activation.Created? && !t.castsToFixture ==> Compiled(t, compile) == CompileInvalid(t, NullReference, compile)
    ensures t.activation.Threw? ==> Compiled(t, compile) == CompileInvalid(t, t.activation.fault, compile)
    ensures Compiled(t, compile).Ok? ==> Key(Compiled(t, compile).value.fixture) == t.key
    ensures Compiled(t, compile).Ok? && Compiled(t, compile).value.fixture.Invalid? ==>
              Compiled(t, compile).value.model.implementation == t.fullName
  {
  }

  /** A type whose instance was created and cast stays cached even when compiling fails. */
  lemma CachedBeforeCompile(entries: map<TypeInfo, Option<Fixture>>, t: TypeInfo, compile: Compiler)
    requires t.activation.Created? && t.castsToFixture
    ensures CachedAfter(entries, t)[t] == Some(Instance(t))
    ensures compile(Instance(t)).Err? ==> Compiled(t, compile).Err? || Compiled(t, compile).value.fixture.Invalid?
  {
  }

  method CreateCompiledFixture(cache: FixtureCache, t: TypeInfo, compile: Compiler) returns (r: Result<CompiledFixture, Fault>)
    modifies cache
    ensures r == Compiled(t, compile)
    ensures cache.entries == CachedAfter(old(cache.entries), t)
  {
    var failure: Fault;
    match t.activation {
      case Threw(e) =>
        failure := e;
      case Created =>
        var fixture: Option<Fixture> := if t.castsToFixture then Some(Instance(t)) else None;
        cache.Store(t, fixture);
        if fixture.None? {
          failure := NullReference;
        } else {
          match compile(fixture.value) {
            case Ok(m) =>
              return Ok(CompiledFixture(fixture.value, m));
            case Err(e) =>
              failure := e;
          }
        }
    }
    var invalid := Invalid(t, failure);
    match compile(invalid) {
      case Ok(m) =>
        var model := m.(implementation := t.fullName);
        r := Ok(CompiledFixture(invalid, model));
      case Err(e) =>
        r := Err(e);
    }
  }

  // ---------------------------------------------------------------------------
  // The library

  /** Writing each compiled fixture, in order, into both maps under its fixture's key. */
  function RegisterAll(fixtures: map<string, Fixture>, models: map<string, FixtureModel>, cs: seq<CompiledFixture>)
    : (map<string, Fixture>, map<string, FixtureModel>)
    decreases cs
  {
    if cs == [] then (fixtures, models)
    else
      var k := Key(cs[0].fixture);
      RegisterAll(fixtures[k := cs[0].fixture], models[k := cs[0].model], cs[1..])
  }

  /** Whether some compiled fixture has key `k`. */
  predicate HasKey(cs: seq<CompiledFixture>, k: string)
  {
    exists i :: 0 <= i < |cs| && Key(cs[i].fixture) == k
  }

  /** The position of the last compiled fixture with key `k`. */
  function LastWithKey(cs: seq<CompiledFixture>, k: string): (i: nat)
    requires HasKey(cs, k)
    ensures i < |cs| && Key(cs[i].fixture) == k
    ensures forall j :: i < j < |cs| ==> Key(cs[j].fixture) != k
    decreases |cs|
  {
    var n := |cs| - 1;
    if Key(cs[n].fixture) == k then n
    else
      assert HasKey(cs[..n], k) by {
        var i :| 0 <= i < |cs| && Key(cs[i].fixture) == k;
        assert i < n && cs[..n][i] == cs[i];
      }
      var i := LastWithKey(cs[..n], k);
      assert cs[..n][i] == cs[i];
      i
  }

  /**
   * Registration keeps fixtures and models paired: for a key some compiled fixture has,
   * both maps hold the fixture and the model of the LAST compiled fixture with that key; a
   * key none has keeps what it had.
   */
  lemma {:induction false} RegisterAllPairs(
      fixtures: map<string, Fixture>, models: map<string, FixtureModel>, cs: seq<CompiledFixture>, k: string)
    ensures var r := RegisterAll(fixtures, models, cs);
            HasKey(cs, k) ==>
              k in r.0 && k in r.1 &&
              r.0[k] == cs[LastWithKey(cs, k)].fixture && r.1[k] == cs[LastWithKey(cs, k)].model
    ensures var r := RegisterAll(fixtures, models, cs);
            !HasKey(cs, k) ==>
              (k in r.0 <==> k in fixtures) && (k in fixtures ==> r.0[k] == fixtures[k]) &&
              (k in r.1 <==> k in models) && (k in models ==> r.1[k] == models[k])
    decreases cs
  {
    if cs != [] {
      var k0 := Key(cs[0].fixture);
      var tail := cs[1..];
      RegisterAllPairs(fixtures[k0 := cs[0].fixture], models[k0 := cs[0].model], tail, k);
      if HasKey(tail, k) {
        var i := LastWithKey(tail, k);
        assert tail[i] == cs[i + 1];
        assert HasKey(cs, k);
        assert LastWithKey(cs, k) == i + 1;
      } else if k0 == k {
        assert forall j :: 0 < j < |cs| ==> Key(cs[j].fixture) != k by {
          forall j | 0 < j < |cs|
            ensures Key(cs[j].fixture) != k
          {
            assert tail[j - 1] == cs[j];
          }
        }
        assert HasKey(cs, k);
        assert LastWithKey(cs, k) == 0;
      } else {
        forall j | 0 <= j < |cs|
          ensures Key(cs[j].fixture) != k
        {
          if j > 0 {
            assert tail[j - 1] == cs[j];
          }
        }
        assert !HasKey(cs, k);
      }
    }
  }

  /** Registration gives both maps the same keys when they start with the same keys. */
  lemma {:induction false} RegisterAllSameKeys(
      fixtures: map<string, Fixture>, models: map<string, FixtureModel>, cs: seq<CompiledFixture>)
    requires fixtures.Keys == models.Keys
    ensures RegisterAll(fixtures, models, cs).0.Keys == RegisterAll(fixtures, models, cs).1.Keys
    decreases cs
  {
    if cs != [] {
      var k := Key(cs[0].fixture);
      RegisterAllSameKeys(fixtures[k := cs[0].fixture], models[k := cs[0].model], cs[1..]);
    }
  }

  /** A read of the fixtures cache: the registered fixture, or on a miss a new missing
      fixture for the key, which the cache keeps from then on. */
  function Lookup(fixtures: map<string, Fixture>, key: string): (r: (Fixture, map<string, Fixture>))
    ensures key in r.1 && r.1[key] == r.0
    ensures r.1.Keys == fixtures.Keys + {key}
    ensures forall k :: k in fixtures ==> r.1[k] == fixtures[k]
    ensures key !in fixtures ==> r.0 == Missing(key)
  {
    if key in fixtures then (fixtures[key], fixtures) else (Missing(key), fixtures[key := Missing(key)])
  }

  /** Reading a key again gives the same fixture and leaves the cache as the first read left it. */
  lemma {:induction false} LookupIsStable(fixtures: map<string, Fixture>, key: string)
    ensures var (f, after) := Lookup(fixtures, key);
            Lookup(after, key) == (f, after)
  {
    var (f, after) := Lookup(fixtures, key);
    assert key in after;
    assert after[key] == f;
  }

  class FixtureLibrary {
    var fixtures: map<string, Fixture>
    var models: map<string, FixtureModel>

    /** Every registered key has both a fixture and a model; a key read without being
        registered holds a missing fixture and no model. */
    ghost predicate Valid()
      reads this
    {
      models.Keys <= fixtures.Keys &&
      forall k :: k in fixtures && k !in models ==> fixtures[k] == Missing(k)
    }

    constructor ()
      ensures Valid() && fixtures == map[] && models == map[]
    {
      fixtures := map[];
      models := map[];
    }

    /** Fixtures[key]: the fixture registered under `key`, or a missing fixture for that key,
        which the cache then keeps. */
    method FixtureFor(key: string) returns (f: Fixture)
      requires Valid()
      modifies this
      ensures Valid()
      ensures (f, fixtures) == Lookup(old(fixtures), key)
      ensures models == old(models)
    {
      if key in fixtures {
        f := fixtures[key];
      } else {
        f := Missing(key);
        fixtures := fixtures[key := f];
      }
    }

    /** One step of the population loop: the fixture and its model under the same key. */
    method Register(c: CompiledFixture)
      requires Valid()
      modifies this
      ensures Valid()
      ensures fixtures == old(fixtures)[Key(c.fixture) := c.fixture]
      ensures models == old(models)[Key(c.fixture) := c.model]
    {
      var k := Key(c.fixture);
      fixtures := fixtures[k := c.fixture];
      models := models[k := c.model];
    }

    method RegisterEach(cs: seq<CompiledFixture>)
      requires Valid()
      modifies this
      ensures Valid()
      ensures (fixtures, models) == RegisterAll(old(fixtures), old(models), cs)
    {
      var i := 0;
      while i < |cs|
        invariant 0 <= i <= |cs|
        invariant Valid()
        invariant RegisterAll(fixtures, models, cs[i..]) == RegisterAll(old(fixtures), old(models), cs)
      {
        assert cs[i..][1..] == cs[i + 1..];
        Register(cs[i]);
        i := i + 1;
      }
    }
  }

  /** The outcomes of compiling each type in order, up to the first one whose stand-in
      could not be compiled either. */
  function CompileAll(types: seq<TypeInfo>, compile: Compiler): (r: Result<seq<CompiledFixture>, Fault>)
    ensures r.Ok? ==> |r.value| == |types| && forall i :: 0 <= i < |types| ==> Compiled(types[i], compile) == Ok(r.value[i])
    ensures r.Err? <==> exists i :: 0 <= i < |types| && Compiled(types[i], compile).Err?
  {
    if types == [] then Ok([])
    else
      match Compiled(types[0], compile)
      case Err(e) => Err(e)
      case Ok(c) =>
        match CompileAll(types[1..], compile)
        case Err(e) => Err(e)
        case Ok(cs) => Ok([c] + cs)
  }

  /** The cache after compiling every type in order. */
  function CachedAfterAll(entries: map<TypeInfo, Option<Fixture>>, types: seq<TypeInfo>): map<TypeInfo, Option<Fixture>>
    decreases types
  {
    if types == [] then entries else CachedAfterAll(CachedAfter(entries, types[0]), types[1..])
  }

  /** The fixture types of the application directory's assemblies that reference this
      library, in file order. */
  method FixtureTypesForAll(assemblies: seq<Assembly>) returns (types: seq<TypeInfo>)
    ensures types == FixtureTypesOf(assemblies)
  {
    types := [];
    var i := |assemblies|;
    while i > 0
      invariant 0 <= i <= |assemblies|
      invariant types == FixtureTypesOf(assemblies[i..])
    {
      i := i - 1;
      assert assemblies[i..][1..] == assemblies[i + 1..];
      types := FixtureTypesFor(assemblies[i]) + types;
    }
  }

  /**
   * CreateForAppDomain: the assemblies of the directory's files that reference this
   * library, their fixture types, each compiled, each registered under its key. An error
   * compiling a stand-in aborts the whole construction.
   */
  method CreateForAppDomain(
      files: seq<string>, loaded: seq<Assembly>, loadFrom: string -> Option<Assembly>, selfName: string,
      cache: FixtureCache, compile: Compiler)
    returns (r: Result<FixtureLibrary, Fault>)
    modifies cache
    ensures var types := FixtureTypesOf(AssembliesFrom(files, loaded, loadFrom, a => ReferencesAssembly(a, selfName)));
            match CompileAll(types, compile)
            case Err(e) => r.Err?
            case Ok(cs) =>
              r.Ok? && fresh(r.value) && r.value.Valid() &&
              (r.value.fixtures, r.value.models) == RegisterAll(map[], map[], cs) &&
              cache.entries == CachedAfterAll(old(cache.entries), types)
  {
    var assemblies, _ := AssembliesFromPath(files, loaded, loadFrom, a => ReferencesAssembly(a, selfName));
    var types := FixtureTypesForAll(assemblies);
    r := CompileAndRegister(types, cache, compile);
  }

  /** The library of the given fixture types: each compiled in order and registered under
      its key, or the error of the first stand-in that could not be compiled. */
  method CompileAndRegister(types: seq<TypeInfo>, cache: FixtureCache, compile: Compiler)
    returns (r: Result<FixtureLibrary, Fault>)
    modifies cache
    ensures match CompileAll(types, compile)
            case Err(e) => r.Err?
            case Ok(cs) =>
              r.Ok? && fresh(r.value) && r.value.Valid() &&
              (r.value.fixtures, r.value.models) == RegisterAll(map[], map[], cs) &&
              cache.entries == CachedAfterAll(old(cache.entries), types)
  {
    var library := new FixtureLibrary();
    var i := 0;
    ghost var done: seq<CompiledFixture> := [];
    while i < |types|
      invariant 0 <= i <= |types|
      invariant library.Valid() && fresh(library)
      invariant CompileAll(types[..i], compile) == Ok(done)
      invariant (library.fixtures, library.models) == RegisterAll(map[], map[], done)
      invariant CachedAfterAll(old(cache.entries), types) == CachedAfterAll(cache.entries, types[i..])
    {
      assert types[i..][1..] == types[i + 1..];
      var c := CreateCompiledFixture(cache, types[i], compile);
      CompileAllStep(types, i, compile);
      if c.Err? {
        CompileAllFails(types, i, compile);
        return Err(c.error);
      }
      RegisterAllSnoc(map[], map[], done, c.value);
      library.Register(c.value);
      done := done + [c.value];
      i := i + 1;
    }
    assert types[..i] == types;
    r := Ok(library);
  }

  lemma {:induction false} CompileAllStep(types: seq<TypeInfo>, i: nat, compile: Compiler)
    requires i < |types|
    ensures CompileAll(types[..i + 1], compile) ==
              match CompileAll(types[..i], compile)
              case Err(e) => Err(e)
              case Ok(cs) =>
                match Compiled(types[i], compile)
                case Err(e) => Err(e)
                case Ok(c) => Ok(cs + [c])
    decreases i
  {
    var p := types[..i + 1];
    if i > 0 {
      assert p[1..] == types[1..][..i];
      assert types[..i][1..] == types[1..][..i - 1];
      assert types[1..][i - 1] == types[i];
      CompileAllStep(types[1..], i - 1, compile);
      match Compiled(types[0], compile) {
        case Err(e) =>
        case Ok(c0) =>
          match CompileAll(types[1..][..i - 1], compile) {
            case Err(e) =>
            case Ok(cs) =>
              match Compiled(types[i], compile) {
                case Err(e) =>
                case Ok(c) => assert [c0] + (cs + [c]) == ([c0] + cs) + [c];
              }
          }
      }
    } else {
      assert p[1..] == [] && p[0] == types[0];
      assert types[..0] == [];
      match Compiled(types[0], compile) {
        case Err(e) =>
        case Ok(c) => assert [c] + [] == [] + [c];
      }
    }
  }

  lemma CompileAllFails(types: seq<TypeInfo>, i: nat, compile: Compiler)
    requires i < |types| && Compiled(types[i], compile).Err?
    ensures CompileAll(types, compile).Err?
  {
  }

  lemma {:induction false} RegisterAllSnoc(
      fixtures: map<string, Fixture>, models: map<string, FixtureModel>, cs: seq<CompiledFixture>, c: CompiledFixture)
    ensures var r := RegisterAll(fixtures, models, cs);
            RegisterAll(fixtures, models, cs + [c]) == (r.0[Key(c.fixture) := c.fixture], r.1[Key(c.fixture) := c.model])
    decreases cs
  {
    if cs == [] {
      assert (cs + [c])[1..] == [];
    } else {
      var k := Key(cs[0].fixture);
      assert (cs + [c])[1..] == cs[1..] + [c];
      RegisterAllSnoc(fixtures[k := cs[0].fixture], models[k := cs[0].model], cs[1..], c);
    }
  }

  // ---------------------------------------------------------------------------
  // Assemblies of a directory

  /** The directory, alternate directory and volume separators. */
  predicate IsSeparator(c: char)
  {
    c == '\\' || c == '/' || c == ':'
  }

  /** Scanning back from position `i`: the index of a '.' reached before any separator. */
  function DotBefore(path: string, i: nat): (r: Option<nat>)
    requires i <= |path|
    ensures r.Some? ==> r.value < i && path[r.value] == '.'
    ensures r.Some? ==> forall k :: r.value < k < i ==> path[k] != '.' && !IsSeparator(path[k])
    ensures r.None? ==> forall k :: 0 <= k < i && path[k] == '.' ==> exists j :: k < j < i && IsSeparator(path[j])
    decreases i
  {
    if i == 0 then None
    else if path[i - 1] == '.' then Some(i - 1)
    else if IsSeparator(path[i - 1]) then None
    else DotBefore(path, i - 1)
  }

  /** Path.GetExtension: from the last '.' of the file name to the end, or empty when the
      name has no '.' or ends with it. */
  function GetExtension(path: string): (ext: string)
    ensures ext != [] ==> 2 <= |ext| <= |path| && ext[0] == '.' && path[|path| - |ext|..] == ext
    ensures ext != [] ==> forall k :: 1 <= k < |ext| ==> ext[k] != '.' && !IsSeparator(ext[k])
  {
    match DotBefore(path, |path|)
    case None => ""
    case Some(i) => if i == |path| - 1 then "" else path[i..]
  }

  /** Ordinal case-insensitive comparison, folding the ASCII letters. */
  function UpperAscii(c: char): char
  {
    if 'a' <= c <= 'z' then (c as int - 32) as char else c
  }

  predicate EqualsIgnoreCase(a: string, b: string)
  {
    |a| == |b| && forall i :: 0 <= i < |a| ==> UpperAscii(a[i]) == UpperAscii(b[i])
  }

  predicate HasAssemblyExtension(file: string)
  {
    EqualsIgnoreCase(GetExtension(file), ".exe") || EqualsIgnoreCase(GetExtension(file), ".dll")
  }

  /** A text equal to ".exe" or ".dll" up to case. */
  predicate IsAssemblySuffix(s: string)
  {
    EqualsIgnoreCase(s, ".exe") || EqualsIgnoreCase(s, ".dll")
  }

  lemma AssemblySuffixShape(s: string)
    requires IsAssemblySuffix(s)
    ensures |s| == 4 && s[0] == '.'
    ensures forall k :: 1 <= k < 4 ==> s[k] != '.' && !IsSeparator(s[k])
  {
    assert UpperAscii(s[0]) == '.';
    forall k | 1 <= k < 4
      ensures s[k] != '.' && !IsSeparator(s[k])
    {
      assert UpperAscii(s[k]) != '.' && UpperAscii(s[k]) != '\\' && UpperAscii(s[k]) != '/' && UpperAscii(s[k]) != ':';
    }
  }

  /** A file is an assembly file exactly when its name ends in ".exe" or ".dll", in any case. */
  lemma AssemblyExtensionIff(file: string)
    ensures HasAssemblyExtension(file) <==> |file| >= 4 && IsAssemblySuffix(file[|file| - 4..])
  {
    var ext := GetExtension(file);
    if HasAssemblyExtension(file) {
      assert |ext| == 4;
      assert file[|file| - 4..] == ext;
    }
    if |file| >= 4 && IsAssemblySuffix(file[|file| - 4..]) {
      var n := |file|;
      AssemblySuffixShape(file[n - 4..]);
      assert forall k :: n - 4 < k < n ==> file[k] == file[n - 4..][k - (n - 4)];
      DotBeforeFinds(file, n - 4, n);
      assert ext == file[n - 4..];
    }
  }

  lemma {:induction false} DotBeforeFinds(path: string, d: nat, i: nat)
    requires d < i <= |path| && path[d] == '.'
    requires forall k :: d < k < i ==> path[k] != '.' && !IsSeparator(path[k])
    ensures DotBefore(path, i) == Some(d)
    decreases i
  {
    if i - 1 != d {
      DotBeforeFinds(path, d, i - 1);
    }
  }

  lemma SampleSuffixes()
    ensures IsAssemblySuffix(".dll") && IsAssemblySuffix(".EXE") && !IsAssemblySuffix("nfig")
  {
    assert EqualsIgnoreCase(".dll", ".dll");
    assert UpperAscii('e') == 'E' && UpperAscii('x') == 'X';
    assert EqualsIgnoreCase(".EXE", ".exe");
    assert UpperAscii("nfig"[0]) != UpperAscii('.');
  }

  /** Whatever the rest of the name: ".dll" and ".EXE" files are considered, a
      ".dll.config" file is not, and neither is a bare "dll". */
  lemma AssemblyFileNames(base: string)
    ensures HasAssemblyExtension(base + ".dll") && HasAssemblyExtension(base + ".EXE")
    ensures !HasAssemblyExtension(base + ".dll.config") && !HasAssemblyExtension("dll")
  {
    SampleSuffixes();
    ConsideredBySuffix(base, ".dll");
    ConsideredBySuffix(base, ".EXE");
    ConfigNotConsidered(base);
    AssemblyExtensionIff("dll");
  }

  lemma ConfigNotConsidered(base: string)
    ensures !HasAssemblyExtension(base + ".dll.config")
  {
    SampleSuffixes();
    ConsideredBySuffix(base + ".dll.co", "nfig");
    ConfigSpelling(base);
  }

  lemma ConfigSpelling(base: string)
    ensures base + ".dll.co" + "nfig" == base + ".dll.config"
  {
    assert ".dll.co" + "nfig" == ".dll.config";
    AppendAssociates(base, ".dll.co", "nfig");
  }

  lemma ConsideredBySuffix(base: string, suffix: string)
    requires |suffix| == 4
    ensures HasAssemblyExtension(base + suffix) <==> IsAssemblySuffix(suffix)
  {
    var f := base + suffix;
    AssemblyExtensionIff(f);
    assert f[|f| - 4..] == suffix;
  }

  /** The index where the file name starts: just after the last separator. */
  function NameStart(path: string, i: nat): (r: nat)
    requires i <= |path|
    ensures r <= i
    ensures forall k :: r <= k < i ==> !IsSeparator(path[k])
    ensures r > 0 ==> IsSeparator(path[r - 1])
    decreases i
  {
    if i == 0 then 0
    else if IsSeparator(path[i - 1]) then i
    else NameStart(path, i - 1)
  }

  /** The index of the last '.' of `path` from position `start` up to position `i`. */
  function LastDot(path: string, start: nat, i: nat): (r: Option<nat>)
    requires start <= i <= |path|
    ensures r.Some? ==> start <= r.value < i && path[r.value] == '.' && forall k :: r.value < k < i ==> path[k] != '.'
    ensures r.None? ==> forall k :: start <= k < i ==> path[k] != '.'
    decreases i
  {
    if i == start then None
    else if path[i - 1] == '.' then Some(i - 1)
    else LastDot(path, start, i - 1)
  }

  /** Path.GetFileNameWithoutExtension: the file name (what follows the last separator), up
      to its last '.'. */
  function FileNameWithoutExtension(path: string): string
  {
    var start := NameStart(path, |path|);
    match LastDot(path, start, |path|)
    case None => path[start..]
    case Some(d) => path[start..d]
  }

  /** The file name without extension is the text after the last separator, cut just before
      its last '.', or all of that text when it holds no '.'. */
  lemma FileNameWithoutExtensionShape(path: string)
    ensures var start, r := NameStart(path, |path|), FileNameWithoutExtension(path);
            start + |r| <= |path| && r == path[start..start + |r|] &&
            (start + |r| == |path| <==> forall k :: start <= k < |path| ==> path[k] != '.') &&
            (start + |r| < |path| ==> path[start + |r|] == '.' && forall k :: start + |r| < k < |path| ==> path[k] != '.')
  {
  }

  /** The first already loaded assembly named `name`, as FirstOrDefault finds it. */
  function FirstNamed(loaded: seq<Assembly>, name: string): (r: Option<Assembly>)
    ensures r.Some? ==> exists i :: 0 <= i < |loaded| && loaded[i] == r.value && r.value.name == name &&
                          forall j :: 0 <= j < i ==> loaded[j].name != name
    ensures r.None? ==> forall a :: a in loaded ==> a.name != name
  {
    if loaded == [] then None
    else if loaded[0].name == name then Some(loaded[0])
    else
      var r := FirstNamed(loaded[1..], name);
      if r.Some? then
        var i :| 0 <= i < |loaded[1..]| && loaded[1..][i] == r.value && r.value.name == name &&
                 forall j :: 0 <= j < i ==> loaded[1..][j].name != name;
        assert loaded[i + 1] == r.value && forall j :: 0 <= j < i + 1 ==> loaded[j].name != name by {
          forall j | 0 <= j < i + 1
            ensures loaded[j].name != name
          {
            if j > 0 {
              assert loaded[j] == loaded[1..][j - 1];
            }
          }
        }
        r
      else
        r
  }

  /** The assembly for a file: the loaded one of that name, else the file loaded, else none
      (a load failure is swallowed). */
  function AssemblyFor(file: string, loaded: seq<Assembly>, loadFrom: string -> Option<Assembly>): (r: Option<Assembly>)
    ensures FirstNamed(loaded, FileNameWithoutExtension(file)).Some? ==> r == FirstNamed(loaded, FileNameWithoutExtension(file))
    ensures FirstNamed(loaded, FileNameWithoutExtension(file)).None? ==> r == loadFrom(file)
    ensures r.Some? ==> r.value in loaded || loadFrom(file) == r
  {
    match FirstNamed(loaded, FileNameWithoutExtension(file))
    case Some(a) => Some(a)
    case None => loadFrom(file)
  }

  /**
   * The assemblies loaded into the application domain once a file has been considered:
   * loading a considered file whose name is not yet loaded adds the assembly it gives, so
   * the files after it find that assembly by name.
   */
  function LoadedAfter(file: string, loaded: seq<Assembly>, loadFrom: string -> Option<Assembly>): seq<Assembly>
  {
    if HasAssemblyExtension(file) && FirstNamed(loaded, FileNameWithoutExtension(file)).None? then
      match loadFrom(file)
      case None => loaded
      case Some(a) => loaded + [a]
    else
      loaded
  }

  /** Considering a file adds to the loaded assemblies exactly the assembly loaded from it,
      and only when it is considered, no assembly of its name is loaded yet and the load
      succeeds. */
  lemma LoadedAfterGrows(file: string, loaded: seq<Assembly>, loadFrom: string -> Option<Assembly>)
    ensures var r := LoadedAfter(file, loaded, loadFrom);
            loaded <= r && |r| <= |loaded| + 1 &&
            (|r| == |loaded| + 1 <==>
               HasAssemblyExtension(file) && FirstNamed(loaded, FileNameWithoutExtension(file)).None? && loadFrom(file).Some?) &&
            (|r| == |loaded| + 1 ==> r[|loaded|] == loadFrom(file).value)
  {
  }

  /** The loaded assemblies when file `i` is reached. */
  function LoadedBefore(files: seq<string>, loaded: seq<Assembly>, loadFrom: string -> Option<Assembly>, i: nat)
    : seq<Assembly>
    requires i <= |files|
    decreases i
  {
    if i == 0 then loaded else LoadedBefore(files[1..], LoadedAfter(files[0], loaded, loadFrom), loadFrom, i - 1)
  }

  /** Whether a file has an assembly extension and gives assembly `a`. */
  predicate FileYields(file: string, loaded: seq<Assembly>, loadFrom: string -> Option<Assembly>, a: Assembly)
  {
    HasAssemblyExtension(file) && AssemblyFor(file, loaded, loadFrom) == Some(a)
  }

  /** What one file contributes to AssembliesFromPath. */
  function FromFile(file: string, loaded: seq<Assembly>, loadFrom: string -> Option<Assembly>, accept: Assembly -> bool)
    : seq<Assembly>
  {
    if !HasAssemblyExtension(file) then []
    else
      match AssemblyFor(file, loaded, loadFrom)
      case None => []
      case Some(a) => if accept(a) then [a] else []
  }

  /** The assemblies of the files in order, each file seeing the assemblies the files before
      it loaded. */
  function AssembliesFrom(files: seq<string>, loaded: seq<Assembly>, loadFrom: string -> Option<Assembly>, accept: Assembly -> bool)
    : seq<Assembly>
  {
    if files == [] then []
    else FromFile(files[0], loaded, loadFrom, accept) + AssembliesFrom(files[1..], LoadedAfter(files[0], loaded, loadFrom), loadFrom, accept)
  }

  /**
   * The assemblies found are, in file order, those of the files with an assembly extension
   * that could be found or loaded and that pass the filter: every one yielded comes from
   * such a file, and every such file yields its assembly, looked up among the assemblies
   * loaded when that file is reached.
   */
  lemma {:induction false} AssembliesFromExactly(
      files: seq<string>, loaded: seq<Assembly>, loadFrom: string -> Option<Assembly>, accept: Assembly -> bool)
    ensures forall a :: a in AssembliesFrom(files, loaded, loadFrom, accept) <==>
              accept(a) && exists i :: 0 <= i < |files| && FileYields(files[i], LoadedBefore(files, loaded, loadFrom, i), loadFrom, a)
  {
    if files != [] {
      var tail := files[1..];
      var next := LoadedAfter(files[0], loaded, loadFrom);
      var head := FromFile(files[0], loaded, loadFrom, accept);
      AssembliesFromExactly(tail, next, loadFrom, accept);
      assert AssembliesFrom(files, loaded, loadFrom, accept) == head + AssembliesFrom(tail, next, loadFrom, accept);
      assert forall a :: a in head <==> accept(a) && FileYields(files[0], loaded, loadFrom, a);
      forall a
        ensures a in AssembliesFrom(files, loaded, loadFrom, accept) <==>
                accept(a) && exists i :: 0 <= i < |files| && FileYields(files[i], LoadedBefore(files, loaded, loadFrom, i), loadFrom, a)
      {
        if accept(a) && exists i :: 0 <= i < |files| && FileYields(files[i], LoadedBefore(files, loaded, loadFrom, i), loadFrom, a) {
          var i :| 0 <= i < |files| && FileYields(files[i], LoadedBefore(files, loaded, loadFrom, i), loadFrom, a);
          if i > 0 {
            YieldShifts(files, loaded, loadFrom, a, i);
          }
        }
        if a in AssembliesFrom(tail, next, loadFrom, accept) {
          var i :| 0 <= i < |tail| && FileYields(tail[i], LoadedBefore(tail, next, loadFrom, i), loadFrom, a);
          YieldShifts(files, loaded, loadFrom, a, i + 1);
        }
      }
    }
  }

  lemma YieldShifts(files: seq<string>, loaded: seq<Assembly>, loadFrom: string -> Option<Assembly>, a: Assembly, i: nat)
    requires 0 < i < |files|
    ensures FileYields(files[i], LoadedBefore(files, loaded, loadFrom, i), loadFrom, a) ==
              FileYields(files[1..][i - 1], LoadedBefore(files[1..], LoadedAfter(files[0], loaded, loadFrom), loadFrom, i - 1), loadFrom, a)
  {
    assert files[1..][i - 1] == files[i];
  }

  /**
   * An assembly loaded from one file is found by name for a later file of the same name:
   * when the first file loads assembly `a`, named as both files are, and nothing was loaded
   * before, both files yield `a`.
   */
  lemma LoadedAssemblyFoundAgain(f1: string, f2: string, a: Assembly, loadFrom: string -> Option<Assembly>, accept: Assembly -> bool)
    requires HasAssemblyExtension(f1) && HasAssemblyExtension(f2)
    requires FileNameWithoutExtension(f1) == a.name && FileNameWithoutExtension(f2) == a.name
    requires loadFrom(f1) == Some(a) && accept(a)
    ensures AssembliesFrom([f1, f2], [], loadFrom, accept) == [a, a]
  {
    FirstFileLoads(f1, a, loadFrom, accept);
    LaterFileFinds(f2, a, loadFrom, accept);
    PairOfFiles(f1, f2, [], loadFrom, accept);
  }

  lemma PairOfFiles(f1: string, f2: string, loaded: seq<Assembly>, loadFrom: string -> Option<Assembly>, accept: Assembly -> bool)
    ensures AssembliesFrom([f1, f2], loaded, loadFrom, accept) ==
              FromFile(f1, loaded, loadFrom, accept) + AssembliesFrom([f2], LoadedAfter(f1, loaded, loadFrom), loadFrom, accept)
  {
    assert [f1, f2][1..] == [f2];
  }

  lemma FirstFileLoads(f: string, a: Assembly, loadFrom: string -> Option<Assembly>, accept: Assembly -> bool)
    requires HasAssemblyExtension(f) && loadFrom(f) == Some(a) && accept(a)
    ensures FromFile(f, [], loadFrom, accept) == [a] && LoadedAfter(f, [], loadFrom) == [a]
  {
    assert FirstNamed([], FileNameWithoutExtension(f)) == None;
  }

  lemma LaterFileFinds(f: string, a: Assembly, loadFrom: string -> Option<Assembly>, accept: Assembly -> bool)
    requires HasAssemblyExtension(f) && FileNameWithoutExtension(f) == a.name && accept(a)
    ensures AssembliesFrom([f], [a], loadFrom, accept) == [a]
  {
    var one := [a];
    assert one[0] == a;
    assert FirstNamed(one, a.name) == Some(a);
    assert AssemblyFor(f, one, loadFrom) == Some(a);
    assert FromFile(f, one, loadFrom, accept) == [a];
    var files := [f];
    assert files[0] == f && files[1..] == [];
    assert AssembliesFrom(files[1..], LoadedAfter(f, one, loadFrom), loadFrom, accept) == [];
  }

  /** With "Foo.dll" loading assembly `a` named "Foo" and nothing loaded before, the files
      "Foo.dll" and "Foo.EXE" of one directory both yield `a`. */
  lemma FooFoundTwice(dir: string, a: Assembly, loadFrom: string -> Option<Assembly>, accept: Assembly -> bool)
    requires dir == [] || IsSeparator(dir[|dir| - 1])
    requires a.name == "Foo" && accept(a) && loadFrom(dir + "Foo.dll") == Some(a)
    ensures AssembliesFrom([dir + "Foo.dll", dir + "Foo.EXE"], [], loadFrom, accept) == [a, a]
  {
    SampleFilesShareName(dir);
    LoadedAssemblyFoundAgain(dir + "Foo.dll", dir + "Foo.EXE", a, loadFrom, accept);
  }

  /** "Foo.dll" and "Foo.EXE" in any directory are both assembly files named "Foo". */
  lemma SampleFilesShareName(dir: string)
    requires dir == [] || IsSeparator(dir[|dir| - 1])
    ensures HasAssemblyExtension(dir + "Foo.dll") && HasAssemblyExtension(dir + "Foo.EXE")
    ensures FileNameWithoutExtension(dir + "Foo.dll") == "Foo" && FileNameWithoutExtension(dir + "Foo.EXE") == "Foo"
  {
    AssemblyFileNames(dir + "Foo");
    SampleSpelling(dir);
    SampleParts();
    FileNameOf(dir, "Foo", ".dll");
    FileNameOf(dir, "Foo", ".EXE");
  }

  lemma SampleSpelling(dir: string)
    ensures dir + "Foo" + ".dll" == dir + "Foo.dll" && dir + "Foo" + ".EXE" == dir + "Foo.EXE"
  {
    assert "Foo" + ".dll" == "Foo.dll" && "Foo" + ".EXE" == "Foo.EXE";
    AppendAssociates(dir, "Foo", ".dll");
    AppendAssociates(dir, "Foo", ".EXE");
  }

  lemma SampleParts()
    ensures forall k :: 0 <= k < |"Foo"| ==> "Foo"[k] != '.' && !IsSeparator("Foo"[k])
    ensures forall k :: 1 <= k < |".dll"| ==> ".dll"[k] != '.' && !IsSeparator(".dll"[k])
    ensures forall k :: 1 <= k < |".EXE"| ==> ".EXE"[k] != '.' && !IsSeparator(".EXE"[k])
  {
  }

  /** The file name without extension of a name and extension under a directory. */
  lemma FileNameOf(dir: string, name: string, ext: string)
    requires dir == [] || IsSeparator(dir[|dir| - 1])
    requires forall k :: 0 <= k < |name| ==> name[k] != '.' && !IsSeparator(name[k])
    requires |ext| > 0 && ext[0] == '.' && forall k :: 1 <= k < |ext| ==> ext[k] != '.' && !IsSeparator(ext[k])
    ensures FileNameWithoutExtension(dir + name + ext) == name
  {
    var path := dir + name + ext;
    assert forall k :: |dir| <= k < |dir| + |name| ==> path[k] == name[k - |dir|];
    assert forall k :: |dir| + |name| <= k < |path| ==> path[k] == ext[k - |dir| - |name|];
    NameStartAfter(path, |dir|, |path|);
    FileNameWithoutExtensionShape(path);
    var r := FileNameWithoutExtension(path);
    var d := |dir| + |name|;
    assert path[d] == '.';
    assert |dir| + |r| < |path|;
    assert |dir| + |r| == d;
    assert path[|dir|..|dir| + |name|] == name;
  }

  lemma {:induction false} NameStartAfter(path: string, d: nat, i: nat)
    requires d <= i <= |path| && (d == 0 || IsSeparator(path[d - 1]))
    requires forall k :: d <= k < i ==> !IsSeparator(path[k])
    ensures NameStart(path, i) == d
    decreases i
  {
    if i > d {
      NameStartAfter(path, d, i - 1);
    }
  }

  /** The assembly of one file: an assembly already loaded under the file's name, else the
      file loaded, else none when loading it fails. */
  method LocateAssembly(file: string, loaded: seq<Assembly>, loadFrom: string -> Option<Assembly>)
    returns (assembly: Option<Assembly>)
    ensures assembly == AssemblyFor(file, loaded, loadFrom)
  {
    assembly := FirstNamed(loaded, FileNameWithoutExtension(file));
    if assembly.None? {
      assembly := loadFrom(file);
    }
  }

  lemma AppendAssociates<T>(a: seq<T>, b: seq<T>, c: seq<T>)
    ensures a + b + c == a + (b + c)
  {
  }

  /** One iteration of AssembliesFromPath: the assembly of a considered file, when it can
      be found or loaded and passes the filter, and the loaded assemblies afterwards. */
  method ConsiderFile(file: string, loaded: seq<Assembly>, loadFrom: string -> Option<Assembly>, accept: Assembly -> bool)
    returns (yielded: seq<Assembly>, domain: seq<Assembly>)
    ensures yielded == FromFile(file, loaded, loadFrom, accept)
    ensures domain == LoadedAfter(file, loaded, loadFrom)
  {
    yielded := [];
    domain := loaded;
    if HasAssemblyExtension(file) {
      var assembly := FirstNamed(loaded, FileNameWithoutExtension(file));
      if assembly.None? {
        assembly := loadFrom(file);
        if assembly.Some? {
          domain := loaded + [assembly.value];
        }
      }
      if assembly.Some? && accept(assembly.value) {
        yielded := [assembly.value];
      }
    }
  }

  /** AssembliesFromPath, over the directory's file names in order; the application domain's
      loaded assemblies are re-read for each file and grow with each assembly loaded. */
  method AssembliesFromPath(files: seq<string>, loaded: seq<Assembly>, loadFrom: string -> Option<Assembly>, accept: Assembly -> bool)
    returns (found: seq<Assembly>, domain: seq<Assembly>)
    ensures found == AssembliesFrom(files, loaded, loadFrom, accept)
    ensures domain == LoadedBefore(files, loaded, loadFrom, |files|)
  {
    found := [];
    domain := loaded;
    RemainingFrom(files, 0, loaded, loadFrom, accept);
    assert files[0..] == files;
    var i := 0;
    while i < |files|
      invariant 0 <= i <= |files|
      invariant domain == LoadedBefore(files, loaded, loadFrom, i)
      invariant found + Remaining(files, i, domain, loadFrom, accept) == AssembliesFrom(files, loaded, loadFrom, accept)
    {
      found, domain := PassFile(files, loaded, loadFrom, accept, i, found, domain);
      i := i + 1;
    }
  }

  /** One pass of the loop of AssembliesFromPath: file `i` is considered, and what it yields
      is appended to what the files before it yielded. */
  method PassFile(
      files: seq<string>, loaded: seq<Assembly>, loadFrom: string -> Option<Assembly>, accept: Assembly -> bool,
      i: nat, found: seq<Assembly>, domain: seq<Assembly>)
    returns (found': seq<Assembly>, domain': seq<Assembly>)
    requires i < |files|
    requires domain == LoadedBefore(files, loaded, loadFrom, i)
    ensures domain' == LoadedBefore(files, loaded, loadFrom, i + 1)
    ensures found' + Remaining(files, i + 1, domain', loadFrom, accept) == found + Remaining(files, i, domain, loadFrom, accept)
  {
    var here, next := ConsiderFile(files[i], domain, loadFrom, accept);
    LoadedBeforeStep(files, loaded, loadFrom, i);
    AppendAssociates(found, here, Remaining(files, i + 1, next, loadFrom, accept));
    found' := found + here;
    domain' := next;
  }

  /** The assemblies of the files from index `i` on, with `loaded` loaded when file `i` is
      reached. */
  function Remaining(files: seq<string>, i: nat, loaded: seq<Assembly>, loadFrom: string -> Option<Assembly>, accept: Assembly -> bool)
    : seq<Assembly>
    requires i <= |files|
    decreases |files| - i
  {
    if i == |files| then []
    else FromFile(files[i], loaded, loadFrom, accept) + Remaining(files, i + 1, LoadedAfter(files[i], loaded, loadFrom), loadFrom, accept)
  }

  /** The files from index `i` on yield what their suffix yields. */
  lemma {:induction false} RemainingFrom(
      files: seq<string>, i: nat, loaded: seq<Assembly>, loadFrom: string -> Option<Assembly>, accept: Assembly -> bool)
    requires i <= |files|
    ensures Remaining(files, i, loaded, loadFrom, accept) == AssembliesFrom(files[i..], loaded, loadFrom, accept)
    decreases |files| - i
  {
    if i < |files| {
      RemainingFrom(files, i + 1, LoadedAfter(files[i], loaded, loadFrom), loadFrom, accept);
      AssembliesFromAt(files, i, loaded, loadFrom, accept);
    }
  }

  lemma AssembliesFromAt(
      files: seq<string>, i: nat, loaded: seq<Assembly>, loadFrom: string -> Option<Assembly>, accept: Assembly -> bool)
    requires i < |files|
    ensures AssembliesFrom(files[i..], loaded, loadFrom, accept) ==
              FromFile(files[i], loaded, loadFrom, accept) + AssembliesFrom(files[i + 1..], LoadedAfter(files[i], loaded, loadFrom), loadFrom, accept)
  {
    assert files[i..][0] == files[i] && files[i..][1..] == files[i + 1..];
  }

  lemma {:induction false} LoadedBeforeStep(files: seq<string>, loaded: seq<Assembly>, loadFrom: string -> Option<Assembly>, i: nat)
    requires i < |files|
    ensures LoadedBefore(files, loaded, loadFrom, i + 1) == LoadedAfter(files[i], LoadedBefore(files, loaded, loadFrom, i), loadFrom)
    decreases i
  {
    if i > 0 {
      LoadedBeforeLater(files, loaded, loadFrom, i);
    }
  }

  lemma {:induction false} LoadedBeforeLater(files: seq<string>, loaded: seq<Assembly>, loadFrom: string -> Option<Assembly>, i: nat)
    requires 0 < i < |files|
    ensures LoadedBefore(files, loaded, loadFrom, i + 1) == LoadedAfter(files[i], LoadedBefore(files, loaded, loadFrom, i), loadFrom)
    decreases i, 0
  {
    var tail := files[1..];
    var next := LoadedAfter(files[0], loaded, loadFrom);
    assert tail[i - 1] == files[i];
    LoadedBeforeStep(tail, next, loadFrom, i - 1);
  }

}
