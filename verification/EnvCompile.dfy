/** How the compiler settles the `x-zane-env` section: overrides first, then generated values,
    then one pass of expansion (backend/compose/processor.py). */
module EnvCompile {
  import opened Values

  datatype EnvVar = EnvVar(key: string, value: Value)

  /** `exposed` values are stored as new overrides after the deployment. */
  datatype EnvSpec = EnvSpec(key: string, value: Value, exposed: bool)

  /** The section is a dictionary: no key appears twice. */
  ghost predicate DistinctNames(envs: seq<EnvVar>) {
    forall i, j :: 0 <= i < j < |envs| ==> envs[i].key != envs[j].key
  }

  /** The value of one variable before expansion; `gen` is what the generators return in this
      compile. */
  function Raw(e: EnvVar, overrides: map<string, Value>, gen: string -> Value): EnvSpec {
    if e.key in overrides then EnvSpec(e.key, overrides[e.key], false)
    else if IsTemplate(e.value) then EnvSpec(e.key, gen(e.key), true)
    else EnvSpec(e.key, e.value, "__" <= e.key)
  }

  /** What `${...}` refers to: the overrides, and every variable of the section. */
  function Environ(envs: seq<EnvVar>, overrides: map<string, Value>, gen: string -> Value): map<string, Value> {
    if envs == [] then overrides
    else
      var n := |envs| - 1;
      Environ(envs[..n], overrides, gen)[envs[n].key := Raw(envs[n], overrides, gen).value]
  }

  function Settled(e: EnvVar, envs: seq<EnvVar>, overrides: map<string, Value>, gen: string -> Value,
                   shared: map<string, Value>): EnvSpec {
    var raw := Raw(e, overrides, gen);
    raw.(value := Substitute(Expand(raw.value, Environ(envs, overrides, gen)), shared))
  }

  ghost predicate Named(envs: seq<EnvVar>, k: string) {
    exists i :: 0 <= i < |envs| && envs[i].key == k
  }

  lemma {:induction false} EnvironAt(envs: seq<EnvVar>, overrides: map<string, Value>, gen: string -> Value, i: nat)
    requires DistinctNames(envs) && i < |envs|
    ensures var m := Environ(envs, overrides, gen);
            envs[i].key in m && m[envs[i].key] == Raw(envs[i], overrides, gen).value
  {
    var n := |envs| - 1;
    if i < n {
      assert envs[i].key != envs[n].key;
      EnvironAt(envs[..n], overrides, gen, i);
    }
  }

  lemma {:induction false} EnvironElsewhere(envs: seq<EnvVar>, overrides: map<string, Value>, gen: string -> Value,
                                            k: string)
    requires !Named(envs, k)
    ensures var m := Environ(envs, overrides, gen); (k in m <==> k in overrides) && (k in m ==> m[k] == overrides[k])
  {
    if envs != [] {
      var n := |envs| - 1;
      assert envs[n].key != k;
      forall i | 0 <= i < n ensures envs[..n][i].key != k { assert envs[i].key != k; }
      EnvironElsewhere(envs[..n], overrides, gen, k);
    }
  }

  /** One turn of the first loop: what it looks up is what the overrides held before the loop. */
  lemma FirstLoopTurn(envs: seq<EnvVar>, overrides: map<string, Value>, gen: string -> Value, i: nat)
    requires DistinctNames(envs) && i < |envs|
    ensures var m := Environ(envs[..i], overrides, gen);
            && (envs[i].key in m <==> envs[i].key in overrides)
            && (envs[i].key in m ==> m[envs[i].key] == overrides[envs[i].key])
    ensures Environ(envs[..i + 1], overrides, gen)
         == Environ(envs[..i], overrides, gen)[envs[i].key := Raw(envs[i], overrides, gen).value]
  {
    forall j | 0 <= j < i ensures envs[..i][j].key != envs[i].key { assert envs[j].key != envs[i].key; }
    EnvironElsewhere(envs[..i], overrides, gen, envs[i].key);
    assert envs[..i + 1][..i] == envs[..i];
  }

  /** The two loops of the compiler over the section. */
  method CompileEnv(envs: seq<EnvVar>, overrides: map<string, Value>, gen: string -> Value, shared: map<string, Value>)
    returns (specs: seq<EnvSpec>, environ: map<string, Value>)
    requires DistinctNames(envs)
    ensures environ == Environ(envs, overrides, gen)
    ensures |specs| == |envs|
    ensures forall i :: 0 <= i < |envs| ==> specs[i] == Settled(envs[i], envs, overrides, gen, shared)
  {
    specs, environ := CollectSpecs(envs, overrides, gen);
    specs := ExpandSpecs(specs, environ, shared);
  }

  /** The first loop: overrides, generated values and exposure. */
  method CollectSpecs(envs: seq<EnvVar>, overrides: map<string, Value>, gen: string -> Value)
    returns (specs: seq<EnvSpec>, environ: map<string, Value>)
    requires DistinctNames(envs)
    ensures environ == Environ(envs, overrides, gen)
    ensures |specs| == |envs| && forall i :: 0 <= i < |envs| ==> specs[i] == Raw(envs[i], overrides, gen)
  {
    environ := overrides;
    specs := [];
    for i := 0 to |envs|
      invariant |specs| == i && environ == Environ(envs[..i], overrides, gen)
      invariant forall j :: 0 <= j < i ==> specs[j] == Raw(envs[j], overrides, gen)
    {
      var env := EnvSpec(envs[i].key, envs[i].value, false);
      FirstLoopTurn(envs, overrides, gen, i);
      if env.key in environ {
        env := env.(value := environ[env.key]);
      } else if IsTemplate(env.value) {
        env := env.(value := gen(env.key), exposed := true);
      } else if "__" <= env.key {
        env := env.(exposed := true);
      }
      environ := environ[env.key := env.value];
      specs := specs + [env];
    }
    assert envs[..|envs|] == envs;
  }

  /** The second loop: each value is expanded and filled with shared variables. */
  method ExpandSpecs(raw: seq<EnvSpec>, environ: map<string, Value>, shared: map<string, Value>)
    returns (specs: seq<EnvSpec>)
    ensures |specs| == |raw|
    ensures forall i :: 0 <= i < |raw| ==>
              specs[i] == raw[i].(value := Substitute(Expand(raw[i].value, environ), shared))
  {
    specs := raw;
    for i := 0 to |raw|
      invariant |specs| == |raw|
      invariant forall j :: 0 <= j < i ==>
                  specs[j] == raw[j].(value := Substitute(Expand(raw[j].value, environ), shared))
      invariant forall j :: i <= j < |raw| ==> specs[j] == raw[j]
    {
      var value := Substitute(Expand(specs[i].value, environ), shared);
      specs := specs[i := specs[i].(value := value)];
    }
  }

  // ---------------------------------------------------------------- what a variable settles to

  /** A variable without an override that is written as one piece settles to what the piece stands
      for: a shared variable to its value, or to itself if it is not set; another variable of the
      section to what that one was given, an unset one to nothing; a text to itself. */
  lemma OnePieceSettles(e: EnvVar, p: Piece, envs: seq<EnvVar>, overrides: map<string, Value>, gen: string -> Value,
                        shared: map<string, Value>)
    requires e.key !in overrides && e.value == [p]
    ensures var v, environ := Settled(e, envs, overrides, gen, shared).value, Environ(envs, overrides, gen);
            match p
            case Shared(n) => v == if n in shared then shared[n] else [p]
            case Var(n) => (n !in environ ==> v == []) && (n in environ && Closed(environ[n]) ==> v == environ[n])
            case Lit(_) => v == [p]
            case Template(_) => Closed(gen(e.key)) ==> v == gen(e.key)
  {
    var environ := Environ(envs, overrides, gen);
    ExpandOne(p, environ);
    SubstituteOne(p, shared);
    if p.Var? && p.name in environ && Closed(environ[p.name]) { ClosedIsFixed(environ[p.name], environ, shared); }
    if p.Template? && Closed(gen(e.key)) { ClosedIsFixed(gen(e.key), environ, shared); }
  }

  /** Only a value that is one template expression, and has no override, is generated: any other
      settles to the same whatever the generators would return for it. */
  lemma OnlyTemplatesGenerate(e: EnvVar, overrides: map<string, Value>, gen: string -> Value, gen': string -> Value)
    requires e.key in overrides || |e.value| != 1 || !e.value[0].Template?
    ensures Raw(e, overrides, gen) == Raw(e, overrides, gen')
    ensures Raw(e, overrides, gen).value == if e.key in overrides then overrides[e.key] else e.value
  {}

  /** A value put together from two settles to what the two settle to, one behind the other. */
  lemma PartsSettle(a: Value, b: Value, envs: seq<EnvVar>, overrides: map<string, Value>, gen: string -> Value,
                    shared: map<string, Value>, k: string)
    requires k !in overrides && !IsTemplate(a) && !IsTemplate(b) && !IsTemplate(a + b)
    ensures Settled(EnvVar(k, a + b), envs, overrides, gen, shared).value
         == Settled(EnvVar(k, a), envs, overrides, gen, shared).value
            + Settled(EnvVar(k, b), envs, overrides, gen, shared).value
  {
    var environ := Environ(envs, overrides, gen);
    ExpandConcat(a, b, environ);
    SubstituteConcat(Expand(a, environ), Expand(b, environ), shared);
  }

  /** With closed shared values no settled variable holds a shared variable that is set. */
  lemma SettledIsFilled(e: EnvVar, envs: seq<EnvVar>, overrides: map<string, Value>, gen: string -> Value,
                        shared: map<string, Value>, k: nat)
    requires forall n :: n in shared ==> Closed(shared[n])
    requires k < |Settled(e, envs, overrides, gen, shared).value|
    ensures var p := Settled(e, envs, overrides, gen, shared).value[k]; p.Shared? ==> p.name !in shared
  {
    NoSharedIsLeft(Expand(Raw(e, overrides, gen).value, Environ(envs, overrides, gen)), shared, k);
  }

  // ---------------------------------------------------------------- what is stored

  /** The overrides as they are after the exposed values of a compile were stored. */
  ghost predicate StoredAfter(after: map<string, Value>, envs: seq<EnvVar>, overrides: map<string, Value>,
                              gen: string -> Value, shared: map<string, Value>) {
    && (forall k :: k in overrides ==> k in after && after[k] == overrides[k])
    && (forall i :: 0 <= i < |envs| && Raw(envs[i], overrides, gen).exposed ==>
          envs[i].key in after && after[envs[i].key] == Settled(envs[i], envs, overrides, gen, shared).value)
    && (forall k :: k in after && k !in overrides ==>
          exists i :: 0 <= i < |envs| && envs[i].key == k && Raw(envs[i], overrides, gen).exposed)
  }

  /** A stored value never lands on a key that already has an override. */
  lemma NewOverridesAreNew(e: EnvVar, overrides: map<string, Value>, gen: string -> Value)
    requires Raw(e, overrides, gen).exposed
    ensures e.key !in overrides
  {}

  /** Compiling the same section again, whatever the generators would say now, generates
      nothing and exposes nothing. */
  lemma RecompileGeneratesNothing(envs: seq<EnvVar>, overrides: map<string, Value>, gen: string -> Value,
                                  shared: map<string, Value>, after: map<string, Value>, gen': string -> Value, i: nat)
    requires DistinctNames(envs) && StoredAfter(after, envs, overrides, gen, shared) && i < |envs|
    ensures var r, r' := Raw(envs[i], overrides, gen), Raw(envs[i], after, gen');
            && !r'.exposed
            && r'.value == if r.exposed then Settled(envs[i], envs, overrides, gen, shared).value else r.value
  {
    var e := envs[i];
    if e.key in after && e.key !in overrides {
      var j :| 0 <= j < |envs| && envs[j].key == e.key && Raw(envs[j], overrides, gen).exposed;
      assert i == j;
    }
  }

  /** Every exposed value is what its own expansion gives back. */
  ghost predicate ExposedAreFixed(envs: seq<EnvVar>, overrides: map<string, Value>, gen: string -> Value,
                                  shared: map<string, Value>) {
    forall i :: 0 <= i < |envs| && Raw(envs[i], overrides, gen).exposed ==>
      Settled(envs[i], envs, overrides, gen, shared).value == Raw(envs[i], overrides, gen).value
  }

  lemma ElsewhereUnchanged(envs: seq<EnvVar>, overrides: map<string, Value>, gen: string -> Value,
                           shared: map<string, Value>, after: map<string, Value>, gen': string -> Value, k: string)
    requires StoredAfter(after, envs, overrides, gen, shared) && !Named(envs, k)
    ensures var m, m' := Environ(envs, overrides, gen), Environ(envs, after, gen');
            (k in m <==> k in m') && (k in m ==> m[k] == m'[k])
  {
    EnvironElsewhere(envs, overrides, gen, k);
    EnvironElsewhere(envs, after, gen', k);
  }

  /** The values at variable `i` in the two environments agree unless it was exposed and its
      expansion changed it. */
  lemma NamedUnchangedIff(envs: seq<EnvVar>, overrides: map<string, Value>, gen: string -> Value,
                          shared: map<string, Value>, after: map<string, Value>, gen': string -> Value, i: nat)
    requires DistinctNames(envs) && StoredAfter(after, envs, overrides, gen, shared) && i < |envs|
    ensures var m, m', k := Environ(envs, overrides, gen), Environ(envs, after, gen'), envs[i].key;
            k in m && k in m' &&
            (m'[k] == m[k] <==> (Raw(envs[i], overrides, gen).exposed ==>
                                   Settled(envs[i], envs, overrides, gen, shared).value ==
                                   Raw(envs[i], overrides, gen).value))
  {
    EnvironAt(envs, overrides, gen, i);
    EnvironAt(envs, after, gen', i);
    RecompileGeneratesNothing(envs, overrides, gen, shared, after, gen', i);
  }

  /** The next compile expands the file in the same environment exactly when every exposed
      value was left unchanged by its own expansion. */
  lemma RecompileSeesSameEnvironIff(envs: seq<EnvVar>, overrides: map<string, Value>, gen: string -> Value,
                                    shared: map<string, Value>, after: map<string, Value>, gen': string -> Value)
    requires DistinctNames(envs) && StoredAfter(after, envs, overrides, gen, shared)
    ensures Environ(envs, after, gen') == Environ(envs, overrides, gen)
            <==> ExposedAreFixed(envs, overrides, gen, shared)
  {
    var m, m' := Environ(envs, overrides, gen), Environ(envs, after, gen');
    if ExposedAreFixed(envs, overrides, gen, shared) {
      forall k ensures (k in m <==> k in m') && (k in m ==> m[k] == m'[k]) {
        if Named(envs, k) {
          var i :| 0 <= i < |envs| && envs[i].key == k;
          NamedUnchangedIff(envs, overrides, gen, shared, after, gen', i);
        } else {
          ElsewhereUnchanged(envs, overrides, gen, shared, after, gen', k);
        }
      }
    }
    if m' == m {
      forall i | 0 <= i < |envs| && Raw(envs[i], overrides, gen).exposed
        ensures Settled(envs[i], envs, overrides, gen, shared).value == Raw(envs[i], overrides, gen).value
      {
        NamedUnchangedIff(envs, overrides, gen, shared, after, gen', i);
      }
    }
  }

  /** Then every value of the section is what it was. */
  lemma RecompileIsStable(envs: seq<EnvVar>, overrides: map<string, Value>, gen: string -> Value,
                          shared: map<string, Value>, after: map<string, Value>, gen': string -> Value, i: nat)
    requires DistinctNames(envs) && StoredAfter(after, envs, overrides, gen, shared)
    requires ExposedAreFixed(envs, overrides, gen, shared) && i < |envs|
    ensures Settled(envs[i], envs, after, gen', shared).value == Settled(envs[i], envs, overrides, gen, shared).value
  {
    RecompileSeesSameEnvironIff(envs, overrides, gen, shared, after, gen');
    RecompileGeneratesNothing(envs, overrides, gen, shared, after, gen', i);
  }

  /** Values without placeholders are fixed, so what the generators return always is. */
  lemma ClosedExposedAreFixed(envs: seq<EnvVar>, overrides: map<string, Value>, gen: string -> Value,
                              shared: map<string, Value>)
    requires forall i :: 0 <= i < |envs| && Raw(envs[i], overrides, gen).exposed ==>
             Closed(Raw(envs[i], overrides, gen).value)
    ensures ExposedAreFixed(envs, overrides, gen, shared)
  {
    forall i | 0 <= i < |envs| && Raw(envs[i], overrides, gen).exposed
      ensures Settled(envs[i], envs, overrides, gen, shared).value == Raw(envs[i], overrides, gen).value
    {
      ClosedIsFixed(Raw(envs[i], overrides, gen).value, Environ(envs, overrides, gen), shared);
    }
  }

  /** An exposed `__` variable that refers to another one does change what its readers see:
      expansion is one pass, so they read `${B}` the first time and B's value from then on. */
  lemma OpenExposedValueDrifts(gen: string -> Value)
    ensures var envs := [EnvVar("__A", [Var("B")]), EnvVar("B", [Lit("x")]), EnvVar("C", [Var("__A")])];
            && Settled(envs[2], envs, map[], gen, map[]).value == [Var("B")]
            && Settled(envs[0], envs, map[], gen, map[]) == EnvSpec("__A", [Lit("x")], true)
            && Settled(envs[2], envs, map["__A" := [Lit("x")]], gen, map[]).value == [Lit("x")]
  {
    var envs := [EnvVar("__A", [Var("B")]), EnvVar("B", [Lit("x")]), EnvVar("C", [Var("__A")])];
    var after := map["__A" := [Lit("x")]];
    EnvironAt(envs, map[], gen, 0);
    EnvironAt(envs, map[], gen, 1);
    EnvironAt(envs, after, gen, 0);
    ExpandOne(Var("__A"), Environ(envs, map[], gen));
    ExpandOne(Var("B"), Environ(envs, map[], gen));
    ExpandOne(Var("__A"), Environ(envs, after, gen));
    assert Raw(envs[0], map[], gen) == EnvSpec("__A", [Var("B")], true);
    assert Raw(envs[1], map[], gen).value == [Lit("x")];
    assert Raw(envs[2], map[], gen).value == [Var("__A")] && Raw(envs[2], after, gen).value == [Var("__A")];
    NothingShared([Var("B")]);
    NothingShared([Lit("x")]);
  }

  lemma {:induction false} NothingShared(v: Value)
    ensures Substitute(v, map[]) == v
  {
    if v != [] { NothingShared(v[1..]); }
  }
}
