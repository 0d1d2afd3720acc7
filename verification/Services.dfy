/** Renaming a stack's services and merging the computed services back into what the user wrote
    (backend/compose/processor.py). */
module Services {
  import opened Text

  // ---------------------------------------------------------------- names

  /** `f"{stack.hash_prefix}_{name}"` */
  function Hashed(hash: string, name: string): string {
    hash + "_" + name
  }

  /** `str.removeprefix` */
  function RemovePrefix(s: string, prefix: string): string {
    if prefix <= s then s[|prefix|..] else s
  }

  lemma NamesInvert(hash: string, name: string, other: string)
    ensures RemovePrefix(Hashed(hash, name), hash + "_") == name
    ensures Hashed(hash, name) == Hashed(hash, other) ==> name == other
  {
    var p := hash + "_";
    assert Hashed(hash, name) == p + name && Hashed(hash, other) == p + other;
    assert (p + name)[|p|..] == name && (p + other)[|p|..] == other;
  }

  // ---------------------------------------------------------------- renaming

  /** `rest` is all that renaming leaves alone. */
  datatype Service = Service(name: string, dependsOn: seq<string>, rest: string)

  ghost predicate DistinctServices(ss: seq<Service>) {
    forall i, j :: 0 <= i < j < |ss| ==> ss[i].name != ss[j].name
  }

  ghost predicate IsService(ss: seq<Service>, name: string) {
    exists i :: 0 <= i < |ss| && ss[i].name == name
  }

  /** What a dependency is called after renaming: only services of the file are renamed. */
  ghost function NewDependency(ss: seq<Service>, hash: string, d: string): string {
    if IsService(ss, d) then Hashed(hash, d) else d
  }

  ghost function NewDependencies(ss: seq<Service>, hash: string, ds: seq<string>): seq<string> {
    seq(|ds|, i requires 0 <= i < |ds| => NewDependency(ss, hash, ds[i]))
  }

  /** The service as it stands under its new name. */
  ghost function RenamedService(ss: seq<Service>, hash: string, s: Service): Service {
    Service(Hashed(hash, s.name), NewDependencies(ss, hash, s.dependsOn), s.rest)
  }

  /** `m` has the services of the file under their new names, and no others. */
  ghost predicate HasNames(m: map<string, Service>, ss: seq<Service>, hash: string) {
    forall k :: k in m <==> exists i :: 0 <= i < |ss| && k == Hashed(hash, ss[i].name)
  }

  lemma InMapIff(m: map<string, Service>, ss: seq<Service>, hash: string, d: string)
    requires HasNames(m, ss, hash)
    ensures Hashed(hash, d) in m <==> IsService(ss, d)
  {
    if Hashed(hash, d) in m {
      var i :| 0 <= i < |ss| && Hashed(hash, d) == Hashed(hash, ss[i].name);
      NamesInvert(hash, d, ss[i].name);
    }
    if i :| 0 <= i < |ss| && ss[i].name == d { assert Hashed(hash, d) == Hashed(hash, ss[i].name); }
  }

  /** The loop that fills `renamed_services`. */
  method RenameServices(ss: seq<Service>, hash: string) returns (renamed: map<string, Service>)
    requires DistinctServices(ss)
    ensures HasNames(renamed, ss, hash)
    ensures forall i :: 0 <= i < |ss| ==> renamed[Hashed(hash, ss[i].name)] == ss[i].(name := Hashed(hash, ss[i].name))
  {
    renamed := map[];
    for i := 0 to |ss|
      invariant forall k :: k in renamed <==> exists j :: 0 <= j < i && k == Hashed(hash, ss[j].name)
      invariant forall j :: 0 <= j < i ==> renamed[Hashed(hash, ss[j].name)] == ss[j].(name := Hashed(hash, ss[j].name))
    {
      var hashedName := Hashed(hash, ss[i].name);
      forall j | 0 <= j < i ensures Hashed(hash, ss[j].name) != hashedName {
        assert ss[j].name != ss[i].name;
        NamesInvert(hash, ss[j].name, ss[i].name);
      }
      renamed := renamed[hashedName := ss[i].(name := hashedName)];
    }
  }

  /** The dependency loop of one service. */
  method RenameDependencies(renamed: map<string, Service>, ghost ss: seq<Service>, hash: string, dependsOn: seq<string>)
    returns (dependencies: seq<string>)
    requires HasNames(renamed, ss, hash)
    ensures dependencies == NewDependencies(ss, hash, dependsOn)
  {
    dependencies := [];
    for i := 0 to |dependsOn|
      invariant |dependencies| == i
      invariant forall j :: 0 <= j < i ==> dependencies[j] == NewDependency(ss, hash, dependsOn[j])
    {
      var dependency := dependsOn[i];
      InMapIff(renamed, ss, hash, dependency);
      if Hashed(hash, dependency) in renamed { dependency := Hashed(hash, dependency); }
      dependencies := dependencies + [dependency];
    }
  }

  /** The renaming steps of `process_compose_spec`. */
  method ProcessServices(ss: seq<Service>, hash: string) returns (services: map<string, Service>)
    requires DistinctServices(ss)
    ensures HasNames(services, ss, hash)
    ensures forall i :: 0 <= i < |ss| ==> services[Hashed(hash, ss[i].name)] == RenamedService(ss, hash, ss[i])
  {
    services := RenameServices(ss, hash);
    for i := 0 to |ss|
      invariant HasNames(services, ss, hash)
      invariant forall j :: 0 <= j < i ==> services[Hashed(hash, ss[j].name)] == RenamedService(ss, hash, ss[j])
      invariant forall j :: i <= j < |ss| ==>
                services[Hashed(hash, ss[j].name)] == ss[j].(name := Hashed(hash, ss[j].name))
    {
      var name := Hashed(hash, ss[i].name);
      forall j | 0 <= j < |ss| && j != i ensures Hashed(hash, ss[j].name) != name {
        assert ss[j].name != ss[i].name;
        NamesInvert(hash, ss[j].name, ss[i].name);
      }
      var service := services[name];
      var dependencies := RenameDependencies(services, ss, hash, service.dependsOn);
      services := services[name := service.(dependsOn := dependencies)];
    }
  }

  // ---------------------------------------------------------------- the dependency graph

  /** Service `a` depends on `d` and already spells another service's new name out, without
      depending on that service under its own name. */
  ghost predicate SpellsNewName(ss: seq<Service>, hash: string, a: Service, b: string) {
    Hashed(hash, b) in a.dependsOn && !IsService(ss, Hashed(hash, b)) && b !in a.dependsOn
  }

  lemma EdgeIs(ss: seq<Service>, hash: string, a: Service, b: string)
    requires IsService(ss, b)
    ensures Hashed(hash, b) in NewDependencies(ss, hash, a.dependsOn)
            <==> b in a.dependsOn || SpellsNewName(ss, hash, a, b)
  {
    var ds := a.dependsOn;
    var es := NewDependencies(ss, hash, ds);
    if b in ds {
      var i :| 0 <= i < |ds| && ds[i] == b;
      assert es[i] == Hashed(hash, b);
    } else if SpellsNewName(ss, hash, a, b) {
      var i :| 0 <= i < |ds| && ds[i] == Hashed(hash, b);
      assert es[i] == Hashed(hash, b);
    }
    if Hashed(hash, b) in es {
      var i :| 0 <= i < |es| && es[i] == Hashed(hash, b);
      NamesInvert(hash, ds[i], b);
    }
  }

  /** Renaming is an isomorphism of the dependency graph: renamed services depend on one another
      exactly as the originals did, if and only if no service spells out a new name. */
  lemma EdgesPreservedIff(ss: seq<Service>, hash: string)
    ensures (forall i, j :: 0 <= i < |ss| && 0 <= j < |ss| ==>
               (ss[j].name in ss[i].dependsOn <==>
                Hashed(hash, ss[j].name) in RenamedService(ss, hash, ss[i]).dependsOn))
            <==> forall i, j :: 0 <= i < |ss| && 0 <= j < |ss| ==> !SpellsNewName(ss, hash, ss[i], ss[j].name)
  {
    forall i, j | 0 <= i < |ss| && 0 <= j < |ss|
      ensures (ss[j].name in ss[i].dependsOn <==> Hashed(hash, ss[j].name) in RenamedService(ss, hash, ss[i]).dependsOn)
              <==> !SpellsNewName(ss, hash, ss[i], ss[j].name)
    {
      EdgeIs(ss, hash, ss[i], ss[j].name);
    }
  }

  /** A dependency that spells out a new name becomes an edge the file did not have. */
  lemma SpelledNameAddsEdge(hash: string)
    requires hash != ""
    ensures var ss := [Service("a", [Hashed(hash, "b")], ""), Service("b", [], "")];
            && SpellsNewName(ss, hash, ss[0], "b") && "b" !in ss[0].dependsOn
            && Hashed(hash, "b") in RenamedService(ss, hash, ss[0]).dependsOn
  {
    var ss := [Service("a", [Hashed(hash, "b")], ""), Service("b", [], "")];
    assert |Hashed(hash, "b")| > 1;
    assert ss[0].dependsOn[0] == Hashed(hash, "b");
    assert RenamedService(ss, hash, ss[0]).dependsOn[0] == Hashed(hash, "b");
  }

  /** A file whose dependencies all name services of the file, as Docker demands, is safe. */
  lemma ClosedFileIsSafe(ss: seq<Service>, hash: string, i: nat, b: string)
    requires i < |ss| && forall k :: 0 <= k < |ss[i].dependsOn| ==> IsService(ss, ss[i].dependsOn[k])
    ensures !SpellsNewName(ss, hash, ss[i], b)
  {
    if Hashed(hash, b) in ss[i].dependsOn {
      var k :| 0 <= k < |ss[i].dependsOn| && ss[i].dependsOn[k] == Hashed(hash, b);
      assert IsService(ss, ss[i].dependsOn[k]);
    }
  }

  // ---------------------------------------------------------------- reconciliation

  /** A scalar of an `environment` section. */
  datatype Scalar = Bool(b: bool) | Other(text: string) | Quoted(text: string)

  /** A field of a service; `Null` is YAML's null. */
  datatype Field = Null | Envs(envs: map<string, Scalar>) | Plain(text: string)

  datatype UserField = UserField(key: string, value: Field)

  datatype UserService = UserService(name: string, fields: seq<UserField>)

  ghost predicate DistinctKeys(fs: seq<UserField>) {
    forall i, j :: 0 <= i < j < |fs| ==> fs[i].key != fs[j].key
  }

  ghost predicate DistinctUsers(us: seq<UserService>) {
    forall i, j :: 0 <= i < j < |us| ==> us[i].name != us[j].name
  }

  const ENVIRONMENT := "environment"

  function QuotedScalar(v: Scalar): Scalar {
    match v
    case Bool(b) => Quoted(if b then "true" else "false")
    case Other(t) => Quoted(t)
    case Quoted(t) => Quoted(t)
  }

  function QuotedField(f: Field): Field {
    match f
    case Envs(m) => Envs(map k | k in m :: QuotedScalar(m[k]))
    case _ => f
  }

  /** `d.get(key)` */
  function Get(m: map<string, Field>, key: string): Field {
    if key in m then m[key] else Null
  }

  /** One turn of the field loop. */
  function MergedField(m: map<string, Field>, f: UserField): map<string, Field> {
    if f.key == ENVIRONMENT then (if Get(m, f.key).Null? then m else m[f.key := QuotedField(m[f.key])])
    else if Get(m, f.key).Null? then m[f.key := f.value]
    else m
  }

  function Merged(computed: map<string, Field>, fs: seq<UserField>): map<string, Field> {
    if fs == [] then computed else MergedField(Merged(computed, fs[..|fs| - 1]), fs[|fs| - 1])
  }

  method MergeFields(computed: map<string, Field>, fs: seq<UserField>) returns (service: map<string, Field>)
    ensures service == Merged(computed, fs)
  {
    service := computed;
    for i := 0 to |fs|
      invariant service == Merged(computed, fs[..i])
    {
      assert fs[..i + 1][..i] == fs[..i];
      var key, value := fs[i].key, fs[i].value;
      if key == ENVIRONMENT {
        if !Get(service, key).Null? { service := service[key := QuotedField(service[key])]; }
      } else if Get(service, key).Null? {
        service := service[key := value];
      }
    }
    assert fs[..|fs|] == fs;
  }

  /** The computed service of a user service, or `{}`. */
  function ComputedOf(computed: map<string, map<string, Field>>, hash: string, u: UserService): map<string, Field> {
    if Hashed(hash, u.name) in computed then computed[Hashed(hash, u.name)] else map[]
  }

  /** The service section that is deployed. */
  function Reconciled(users: seq<UserService>, computed: map<string, map<string, Field>>,
                      hash: string): map<string, map<string, Field>> {
    if users == [] then map[]
    else
      var u := users[|users| - 1];
      var before := Reconciled(users[..|users| - 1], computed, hash);
      before[Hashed(hash, u.name) := Merged(ComputedOf(computed, hash, u), u.fields)]
  }

  /** The service loop of `_reconcile_computed_spec_with_user_content`. */
  method Reconcile(users: seq<UserService>, computed: map<string, map<string, Field>>, hash: string)
    returns (services: map<string, map<string, Field>>)
    ensures services == Reconciled(users, computed, hash)
  {
    services := map[];
    for i := 0 to |users|
      invariant services == Reconciled(users[..i], computed, hash)
    {
      assert users[..i + 1][..i] == users[..i];
      var service := MergeFields(ComputedOf(computed, hash, users[i]), users[i].fields);
      services := services[Hashed(hash, users[i].name) := service];
    }
    assert users[..|users|] == users;
  }

  lemma {:induction false} ReconciledFrom(users: seq<UserService>, computed: map<string, map<string, Field>>,
                                          hash: string, name: string) returns (i: nat)
    requires name in Reconciled(users, computed, hash)
    ensures i < |users| && name == Hashed(hash, users[i].name)
  {
    var n := |users| - 1;
    if name == Hashed(hash, users[n].name) { i := n; } else { i := ReconciledFrom(users[..n], computed, hash, name); }
  }

  lemma LastIsNew(users: seq<UserService>, computed: map<string, map<string, Field>>, hash: string)
    requires DistinctUsers(users) && users != []
    ensures Hashed(hash, users[|users| - 1].name) !in Reconciled(users[..|users| - 1], computed, hash)
  {
    var n := |users| - 1;
    if Hashed(hash, users[n].name) in Reconciled(users[..n], computed, hash) {
      var j := ReconciledFrom(users[..n], computed, hash, Hashed(hash, users[n].name));
      NamesInvert(hash, users[n].name, users[j].name);
    }
  }

  /** There are as many deployed services as the user wrote. */
  lemma {:induction false} OneServiceEach(users: seq<UserService>, computed: map<string, map<string, Field>>,
                                          hash: string)
    requires DistinctUsers(users)
    ensures |Reconciled(users, computed, hash)| == |users|
  {
    if users != [] {
      OneServiceEach(users[..|users| - 1], computed, hash);
      LastIsNew(users, computed, hash);
    }
  }

  /** And each of the user's is there under its new name, merged with its computed self. */
  lemma {:induction false} EveryServiceIsThere(users: seq<UserService>, computed: map<string, map<string, Field>>,
                                               hash: string, i: nat)
    requires DistinctUsers(users) && i < |users|
    ensures var services, name := Reconciled(users, computed, hash), Hashed(hash, users[i].name);
            name in services && services[name] == Merged(ComputedOf(computed, hash, users[i]), users[i].fields)
  {
    var n := |users| - 1;
    if i < n {
      EveryServiceIsThere(users[..n], computed, hash, i);
      assert users[i].name != users[n].name;
      NamesInvert(hash, users[i].name, users[n].name);
    }
  }

  /** Nothing the user wrote is lost: a field the user set is the computed one where there is
      one, and the user's otherwise; fields the user did not set stay computed. Only
      `environment` is never taken from the user. */
  lemma {:induction false} MergedIs(computed: map<string, Field>, fs: seq<UserField>, key: string)
    requires DistinctKeys(fs)
    ensures forall i :: 0 <= i < |fs| && fs[i].key == key && key != ENVIRONMENT ==>
              Get(Merged(computed, fs), key) == if Get(computed, key).Null? then fs[i].value else computed[key]
    ensures (forall i :: 0 <= i < |fs| ==> fs[i].key != key) ==> Get(Merged(computed, fs), key) == Get(computed, key)
    ensures key == ENVIRONMENT ==>
              Get(Merged(computed, fs), key) == Get(computed, key)
                || Get(Merged(computed, fs), key) == QuotedField(Get(computed, key))
    ensures key == ENVIRONMENT && (exists i :: 0 <= i < |fs| && fs[i].key == key) ==>
              Get(Merged(computed, fs), key) == QuotedField(Get(computed, key))
    decreases |fs|
  {
    if fs != [] {
      var n := |fs| - 1;
      MergedIs(computed, fs[..n], key);
      assert forall i :: 0 <= i < n ==> fs[..n][i] == fs[i];
    }
  }

  /** What is deployed of a user service, field by field: a field that was computed for the service
      of its new name; else what the user set; else nothing. `environment` is the computed one, quoted,
      and never the user's. A service that was not computed is as the user wrote it. */
  lemma DeployedFields(users: seq<UserService>, computed: map<string, map<string, Field>>, hash: string, i: nat,
                       key: string)
    requires DistinctUsers(users) && i < |users| && DistinctKeys(users[i].fields)
    ensures var services, name, fs := Reconciled(users, computed, hash), Hashed(hash, users[i].name), users[i].fields;
            var done := name in computed && key in computed[name] && !computed[name][key].Null?;
            && name in services
            && (key != ENVIRONMENT && done ==> Get(services[name], key) == computed[name][key])
            && (key != ENVIRONMENT && !done ==>
                  forall j :: 0 <= j < |fs| && fs[j].key == key ==> Get(services[name], key) == fs[j].value)
            && (!done && (forall j :: 0 <= j < |fs| ==> fs[j].key != key) ==> Get(services[name], key).Null?)
            && (key == ENVIRONMENT && !done ==> Get(services[name], key).Null?)
            && (key == ENVIRONMENT && done && (exists j :: 0 <= j < |fs| && fs[j].key == key) ==>
                  Get(services[name], key) == QuotedField(computed[name][key]))
  {
    EveryServiceIsThere(users, computed, hash, i);
    MergedIs(ComputedOf(computed, hash, users[i]), users[i].fields, key);
  }

  // ---------------------------------------------------------------- the environment section

  /** One entry of a service's `environment`; `None` is the list form `NAME` without a value. */
  datatype EnvEntry = EnvEntry(key: string, value: Option<Scalar>)

  /** `extract_service_environment`: a later entry of one name replaces an earlier one. */
  function Extracted(es: seq<EnvEntry>): map<string, Option<Scalar>> {
    if es == [] then map[] else Extracted(es[..|es| - 1])[es[|es| - 1].key := es[|es| - 1].value]
  }

  /** The `environment` field of the computed service: absent when no name has a value. */
  function ComputedEnvironment(es: seq<EnvEntry>): Field {
    var m := Extracted(es);
    var present := map k | k in m && m[k].Some? :: m[k].value;
    if present == map[] then Null else Envs(present)
  }

  ghost predicate IsLast(es: seq<EnvEntry>, i: int) {
    0 <= i < |es| && forall j :: i < j < |es| ==> es[j].key != es[i].key
  }

  lemma {:induction false} ExtractedIs(es: seq<EnvEntry>, i: nat)
    requires IsLast(es, i)
    ensures es[i].key in Extracted(es) && Extracted(es)[es[i].key] == es[i].value
  {
    var n := |es| - 1;
    if i < n { ExtractedIs(es[..n], i); }
  }

  lemma {:induction false} ExtractedFrom(es: seq<EnvEntry>, k: string) returns (i: nat)
    requires k in Extracted(es)
    ensures IsLast(es, i) && es[i].key == k
  {
    var n := |es| - 1;
    if es[n].key == k {
      i := n;
    } else {
      i := ExtractedFrom(es[..n], k);
    }
  }

  /** Every variable the user gave a value last is in the deployed environment, quoted; one left
      without a value last is not. */
  lemma EnvironmentIsUsers(computed: map<string, Field>, fs: seq<UserField>, es: seq<EnvEntry>, i: nat)
    requires DistinctKeys(fs) && (exists j :: 0 <= j < |fs| && fs[j].key == ENVIRONMENT)
    requires Get(computed, ENVIRONMENT) == ComputedEnvironment(es) && IsLast(es, i)
    ensures var f := Get(Merged(computed, fs), ENVIRONMENT);
            match es[i].value
            case Some(v) =>
              var text := match v case Bool(b) => if b then "true" else "false" case Other(t) => t case Quoted(t) => t;
              f.Envs? && es[i].key in f.envs && f.envs[es[i].key] == Scalar.Quoted(text)
            case None => f.Envs? ==> es[i].key !in f.envs
  {
    MergedIs(computed, fs, ENVIRONMENT);
    ExtractedIs(es, i);
    var m := Extracted(es);
    var present := map k | k in m && m[k].Some? :: m[k].value;
    assert es[i].value.Some? ==> es[i].key in present;
  }

  /** The user's `environment` disappears exactly when no variable ends with a value. */
  lemma EnvironmentLostIff(computed: map<string, Field>, fs: seq<UserField>, es: seq<EnvEntry>)
    requires DistinctKeys(fs) && Get(computed, ENVIRONMENT) == ComputedEnvironment(es)
    ensures Get(Merged(computed, fs), ENVIRONMENT).Null? <==> forall i :: IsLast(es, i) ==> es[i].value.None?
  {
    MergedIs(computed, fs, ENVIRONMENT);
    var m := Extracted(es);
    var present := map k | k in m && m[k].Some? :: m[k].value;
    forall i | IsLast(es, i) ensures es[i].key in m && m[es[i].key] == es[i].value { ExtractedIs(es, i); }
    assert forall i :: IsLast(es, i) && es[i].value.Some? ==> es[i].key in present;
    if present != map[] {
      var k :| k in present;
      var i := ExtractedFrom(es, k);
      assert IsLast(es, i) && es[i].value.Some?;
    }
  }
}
