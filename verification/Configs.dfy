/** Inline configs of a stack: how their versions advance from one deployment to the next, and
    how the versioned names are put into the spec (backend/compose/processor.py). */
module Configs {
  import opened Text
  import opened Values

  datatype Versioned = Versioned(content: Value, version: nat)

  /** A config of the spec; `content` is absent for external configs. `rest` is what the
      compiler does not look at. */
  datatype Config = Config(name: string, content: Option<Value>, file: string, rest: string)

  ghost predicate DistinctConfigs(cs: seq<Config>) {
    forall i, j :: 0 <= i < j < |cs| ==> cs[i].name != cs[j].name
  }

  function NextVersion(stored: map<string, Versioned>, name: string, content: Value): Versioned {
    if name !in stored then Versioned(content, 1)
    else if stored[name].content != content then Versioned(content, stored[name].version + 1)
    else Versioned(content, stored[name].version)
  }

  /** The expanded contents of the inline configs. */
  function Contents(cs: seq<Config>, environ: map<string, Value>): map<string, Value> {
    if cs == [] then map[]
    else
      var n := |cs| - 1;
      if cs[n].content.Some? then Contents(cs[..n], environ)[cs[n].name := Expand(cs[n].content.value, environ)]
      else Contents(cs[..n], environ)
  }

  function Advance(stored: map<string, Versioned>, contents: map<string, Value>): (m: map<string, Versioned>)
    ensures m.Keys == contents.Keys && forall n :: n in contents ==> m[n] == NextVersion(stored, n, contents[n])
  {
    map n | n in contents :: NextVersion(stored, n, contents[n])
  }

  /** `extract_config_contents`: a new config starts at version 1, a changed one goes up by one,
      an unchanged one keeps its version. */
  method ExtractConfigContents(cs: seq<Config>, stored: map<string, Versioned>, environ: map<string, Value>)
    returns (newConfigs: map<string, Versioned>)
    ensures newConfigs == Advance(stored, Contents(cs, environ))
  {
    newConfigs := map[];
    for i := 0 to |cs|
      invariant newConfigs == Advance(stored, Contents(cs[..i], environ))
    {
      var config := cs[i];
      assert cs[..i + 1][..i] == cs[..i];
      if config.content.Some? {
        var expanded := Expand(config.content.value, environ);
        if config.name !in stored {
          newConfigs := newConfigs[config.name := Versioned(expanded, 1)];
        } else {
          var previous := stored[config.name];
          if previous.content != expanded {
            newConfigs := newConfigs[config.name := Versioned(expanded, previous.version + 1)];
          } else {
            newConfigs := newConfigs[config.name := Versioned(expanded, previous.version)];
          }
        }
      }
    }
    assert cs[..|cs|] == cs;
  }

  lemma {:induction false} ContentsAre(cs: seq<Config>, environ: map<string, Value>, i: nat)
    requires DistinctConfigs(cs) && i < |cs|
    ensures var m := Contents(cs, environ);
            match cs[i].content
            case Some(v) => cs[i].name in m && m[cs[i].name] == Expand(v, environ)
            case None => cs[i].name !in m
  {
    var n := |cs| - 1;
    if i < n {
      assert cs[i].name != cs[n].name;
      ContentsAre(cs[..n], environ, i);
    } else if cs[n].content.None? {
      OnlyNamed(cs[..n], environ, cs[n].name);
    }
  }

  lemma {:induction false} OnlyNamed(cs: seq<Config>, environ: map<string, Value>, name: string)
    requires forall i :: 0 <= i < |cs| && cs[i].content.Some? ==> cs[i].name != name
    ensures name !in Contents(cs, environ)
  {
    if cs != [] { OnlyNamed(cs[..|cs| - 1], environ, name); }
  }

  /** What is stored of the file's configs: each inline one, with its content as expanded in the
      environment it is given, and nothing of an external one. */
  lemma StoredIsExpanded(cs: seq<Config>, stored: map<string, Versioned>, environ: map<string, Value>, i: nat)
    requires DistinctConfigs(cs) && i < |cs|
    ensures var m := Advance(stored, Contents(cs, environ));
            match cs[i].content
            case None => cs[i].name !in m
            case Some(v) =>
              && cs[i].name in m && m[cs[i].name].content == Expand(v, environ)
              && forall n :: v == [Var(n)] && n in environ ==> m[cs[i].name].content == environ[n]
  {
    ContentsAre(cs, environ, i);
    if cs[i].content.Some? && |cs[i].content.value| == 1 { ExpandOne(cs[i].content.value[0], environ); }
  }

  // ---------------------------------------------------------------- versions over a run

  /** What is stored after a run of deployments, each given by its inline contents. */
  function Stored(deploys: seq<map<string, Value>>): map<string, Versioned> {
    if deploys == [] then map[]
    else Advance(Stored(deploys[..|deploys| - 1]), deploys[|deploys| - 1])
  }

  ghost predicate PresentFrom(deploys: seq<map<string, Value>>, name: string, i: int) {
    0 <= i && forall m :: i <= m < |deploys| ==> name in deploys[m]
  }

  /** How often the content of `name` changed after deployment `i`. */
  ghost function ChangesSince(deploys: seq<map<string, Value>>, name: string, i: nat): nat
    requires PresentFrom(deploys, name, i)
  {
    var n := |deploys| - 1;
    if n <= i then 0
    else ChangesSince(deploys[..n], name, i) + if deploys[n][name] != deploys[n - 1][name] then 1 else 0
  }

  lemma StoredContent(deploys: seq<map<string, Value>>, name: string)
    requires deploys != [] && name in deploys[|deploys| - 1]
    ensures name in Stored(deploys) && Stored(deploys)[name].content == deploys[|deploys| - 1][name]
  {}

  /** While a config stays present its version rises by exactly the number of times its content
      changed. */
  lemma {:induction false} VersionCountsChanges(deploys: seq<map<string, Value>>, name: string, i: nat)
    requires i < |deploys| && PresentFrom(deploys, name, i)
    ensures name in Stored(deploys) && name in Stored(deploys[..i + 1])
    ensures Stored(deploys)[name].version == Stored(deploys[..i + 1])[name].version + ChangesSince(deploys, name, i)
  {
    var n := |deploys| - 1;
    if n == i {
      assert deploys[..i + 1] == deploys;
    } else {
      VersionCountsChanges(deploys[..n], name, i);
      assert deploys[..n][..i + 1] == deploys[..i + 1];
      StoredContent(deploys[..n], name);
    }
  }

  lemma {:induction false} NoChangesIff(deploys: seq<map<string, Value>>, name: string, i: nat)
    requires i < |deploys| && PresentFrom(deploys, name, i)
    ensures ChangesSince(deploys, name, i) == 0
            <==> forall m :: i <= m < |deploys| ==> deploys[m][name] == deploys[i][name]
  {
    var n := |deploys| - 1;
    if n > i {
      NoChangesIff(deploys[..n], name, i);
      assert forall m :: i <= m < n ==> deploys[..n][m] == deploys[m];
    }
  }

  /** Two deployments between which a config stayed present give it one version, and so one
      versioned name, exactly when its content never changed in between. */
  lemma SameVersionIffSameContent(deploys: seq<map<string, Value>>, name: string, i: nat)
    requires i < |deploys| && PresentFrom(deploys, name, i)
    ensures name in Stored(deploys) && name in Stored(deploys[..i + 1])
    ensures VersionedName(name, Stored(deploys)[name].version)
            == VersionedName(name, Stored(deploys[..i + 1])[name].version)
            <==> forall m :: i <= m < |deploys| ==> deploys[m][name] == deploys[i][name]
  {
    VersionCountsChanges(deploys, name, i);
    NoChangesIff(deploys, name, i);
    var v, w := Stored(deploys)[name].version, Stored(deploys[..i + 1])[name].version;
    if VersionedName(name, v) == VersionedName(name, w) { NumberSuffixUnique(name + "_v", name + "_v", v, w); }
  }

  /** The deployment with which a config that is present now last came in. */
  function CameIn(deploys: seq<map<string, Value>>, name: string): (i: nat)
    requires deploys != [] && name in deploys[|deploys| - 1]
    ensures i < |deploys| && (i > 0 ==> name !in deploys[i - 1])
    ensures PresentFrom(deploys, name, i)
  {
    var n := |deploys| - 1;
    if n > 0 && name in deploys[n - 1] then
      assert deploys[..n][n - 1] == deploys[n - 1];
      CameIn(deploys[..n], name)
    else n
  }

  /** How often its content changed since then. */
  ghost function ChangesNow(deploys: seq<map<string, Value>>, name: string): nat
    requires deploys != [] && name in deploys[|deploys| - 1]
  {
    ChangesSince(deploys, name, CameIn(deploys, name))
  }

  /** The version of a config is one more than the number of times its content changed since it
      last came in. */
  lemma VersionIs(deploys: seq<map<string, Value>>, name: string)
    requires deploys != [] && name in deploys[|deploys| - 1]
    ensures name in Stored(deploys) && Stored(deploys)[name].version == 1 + ChangesNow(deploys, name)
  {
    var i := CameIn(deploys, name);
    VersionCountsChanges(deploys, name, i);
    assert deploys[..i + 1][..i] == deploys[..i];
    assert Stored(deploys[..i + 1]) == Advance(Stored(deploys[..i]), deploys[i]);
    if i > 0 { NotStored(deploys[..i], name); }
  }

  lemma NotStored(deploys: seq<map<string, Value>>, name: string)
    requires deploys != [] && name !in deploys[|deploys| - 1]
    ensures name !in Stored(deploys)
  {}

  /** Two deployments of a history, with or without the config being dropped in between, give a
      config one versioned name exactly when its content had changed equally often since it
      last came in. */
  lemma SameNameIff(deploys: seq<map<string, Value>>, name: string, m: nat, n: nat)
    requires 0 < m <= |deploys| && 0 < n <= |deploys| && name in deploys[m - 1] && name in deploys[n - 1]
    ensures name in Stored(deploys[..m]) && name in Stored(deploys[..n])
    ensures VersionedName(name, Stored(deploys[..m])[name].version)
            == VersionedName(name, Stored(deploys[..n])[name].version)
            <==> ChangesNow(deploys[..m], name) == ChangesNow(deploys[..n], name)
  {
    VersionIs(deploys[..m], name);
    VersionIs(deploys[..n], name);
    var v, w := Stored(deploys[..m])[name].version, Stored(deploys[..n])[name].version;
    if VersionedName(name, v) == VersionedName(name, w) { NumberSuffixUnique(name + "_v", name + "_v", v, w); }
  }

  /** A config that is dropped and comes back starts over, so its first names mean two things. */
  lemma DroppedConfigReusesName()
    ensures var deploys := [map["c" := [Lit("a")]], map[], map["c" := [Lit("b")]]];
            Stored(deploys)["c"] == Versioned([Lit("b")], 1) && Stored(deploys[..1])["c"] == Versioned([Lit("a")], 1)
  {
    var deploys: seq<map<string, Value>> := [map["c" := [Lit("a")]], map[], map["c" := [Lit("b")]]];
    assert deploys[..1][..0] == [] && deploys[..2][..1] == deploys[..1];
    assert Stored(deploys[..2]) == Advance(Stored(deploys[..1]), deploys[1]);
    assert deploys[..2] == deploys[..|deploys| - 1];
  }

  // ---------------------------------------------------------------- versioned names

  function VersionedName(name: string, version: nat): string {
    name + "_v" + Decimal(version)
  }

  function NewName(c: Config, versions: map<string, Versioned>): string {
    if c.name in versions then VersionedName(c.name, versions[c.name].version) else c.name
  }

  /** The config as the versioned spec holds it. */
  function Updated(c: Config, versions: map<string, Versioned>, prefix: string): Config {
    if c.name in versions && c.content.Some? then c.(file := "./" + prefix + "_" + NewName(c, versions) + ".conf")
    else c
  }

  /** `renamed_configs`, filled in the order of the section: a later config of the same new name
      replaces an earlier one. */
  function Renamed(cs: seq<Config>, versions: map<string, Versioned>, prefix: string): map<string, Config> {
    if cs == [] then map[]
    else
      var c := cs[|cs| - 1];
      Renamed(cs[..|cs| - 1], versions, prefix)[NewName(c, versions) := Updated(c, versions, prefix)]
  }

  /** What a service's reference to `source` becomes. */
  function NewSource(source: string, cs: seq<Config>, versions: map<string, Versioned>): string {
    if source in versions && (exists i :: 0 <= i < |cs| && cs[i].name == source)
    then VersionedName(source, versions[source].version) else source
  }

  /** `mapping` has the new name of each versioned config of the file, and nothing else. */
  ghost predicate MappingOf(mapping: map<string, string>, cs: seq<Config>, versions: map<string, Versioned>) {
    forall n :: NewSource(n, cs, versions) == if n in mapping then mapping[n] else n
  }

  lemma NewSourceSnoc(n: string, cs: seq<Config>, c: Config, versions: map<string, Versioned>)
    ensures NewSource(n, cs + [c], versions) == if n == c.name then NewName(c, versions) else NewSource(n, cs, versions)
  {
    var ds := cs + [c];
    assert ds[|cs|] == c;
    if i :| 0 <= i < |cs| && cs[i].name == n { assert ds[i].name == n; }
    if i :| 0 <= i < |ds| && ds[i].name == n { assert i < |cs| ==> cs[i].name == n; }
  }

  lemma MappingStep(mapping: map<string, string>, cs: seq<Config>, c: Config, versions: map<string, Versioned>)
    requires MappingOf(mapping, cs, versions)
    ensures var grown := if c.name in versions then mapping[c.name := NewName(c, versions)] else mapping;
            MappingOf(grown, cs + [c], versions)
  {
    forall n
      ensures NewSource(n, cs + [c], versions)
           == if n == c.name then NewName(c, versions) else NewSource(n, cs, versions)
    {
      NewSourceSnoc(n, cs, c, versions);
    }
    assert c.name !in versions ==> NewSource(c.name, cs, versions) == c.name;
  }

  /** `_apply_config_versioning_to_spec` */
  method ApplyConfigVersioning(cs: seq<Config>, versions: map<string, Versioned>, prefix: string,
                               services: seq<seq<string>>)
    returns (configs: map<string, Config>, updated: seq<seq<string>>)
    ensures configs == Renamed(cs, versions, prefix)
    ensures |updated| == |services| && forall s :: 0 <= s < |services| ==> |updated[s]| == |services[s]|
    ensures forall s, k :: 0 <= s < |services| && 0 <= k < |services[s]| ==>
            updated[s][k] == NewSource(services[s][k], cs, versions)
  {
    var mapping;
    configs, mapping := RenameConfigs(cs, versions, prefix);
    updated := RenameReferences(cs, versions, mapping, services);
  }

  method RenameConfigs(cs: seq<Config>, versions: map<string, Versioned>, prefix: string)
    returns (configs: map<string, Config>, mapping: map<string, string>)
    ensures configs == Renamed(cs, versions, prefix) && MappingOf(mapping, cs, versions)
  {
    mapping := map[];
    configs := map[];
    for i := 0 to |cs|
      invariant configs == Renamed(cs[..i], versions, prefix) && MappingOf(mapping, cs[..i], versions)
    {
      var config := cs[i];
      assert cs[..i + 1] == cs[..i] + [config] && cs[..i + 1][..i] == cs[..i];
      MappingStep(mapping, cs[..i], config, versions);
      if config.name in versions {
        var newName := VersionedName(config.name, versions[config.name].version);
        mapping := mapping[config.name := newName];
        if config.content.Some? { config := config.(file := "./" + prefix + "_" + newName + ".conf"); }
        configs := configs[newName := config];
      } else {
        configs := configs[config.name := config];
      }
    }
    assert cs[..|cs|] == cs;
  }

  method RenameReferences(ghost cs: seq<Config>, ghost versions: map<string, Versioned>, mapping: map<string, string>,
                          services: seq<seq<string>>)
    returns (updated: seq<seq<string>>)
    requires MappingOf(mapping, cs, versions)
    ensures |updated| == |services| && forall s :: 0 <= s < |services| ==> |updated[s]| == |services[s]|
    ensures forall s, k :: 0 <= s < |services| && 0 <= k < |services[s]| ==>
            updated[s][k] == NewSource(services[s][k], cs, versions)
  {
    updated := [];
    for s := 0 to |services|
      invariant |updated| == s
      invariant forall t :: 0 <= t < s ==> |updated[t]| == |services[t]|
      invariant forall t, k :: 0 <= t < s && 0 <= k < |services[t]| ==>
                updated[t][k] == NewSource(services[t][k], cs, versions)
    {
      var sources: seq<string> := [];
      for k := 0 to |services[s]|
        invariant |sources| == k && forall j :: 0 <= j < k ==> sources[j] == NewSource(services[s][j], cs, versions)
      {
        var source := services[s][k];
        sources := sources + [if source in mapping then mapping[source] else source];
      }
      updated := updated + [sources];
    }
  }

  /** No config that keeps its name is called like the versioned name of another. */
  ghost predicate NoVersionLookalike(cs: seq<Config>, versions: map<string, Versioned>) {
    forall c, d :: c in cs && d in cs && c.name in versions && d.name !in versions ==> d.name != NewName(c, versions)
  }

  lemma NewNamesClashOnlyByLookalike(cs: seq<Config>, versions: map<string, Versioned>, c: Config, d: Config)
    requires DistinctConfigs(cs) && NoVersionLookalike(cs, versions) && c in cs && d in cs
    requires NewName(c, versions) == NewName(d, versions)
    ensures c == d
  {
    if c.name in versions && d.name in versions {
      NumberSuffixUnique(c.name + "_v", d.name + "_v", versions[c.name].version, versions[d.name].version);
      assert c.name == (c.name + "_v")[..|c.name + "_v"| - 2] && d.name == (d.name + "_v")[..|d.name + "_v"| - 2];
    }
    assert c.name == d.name;
    var i :| 0 <= i < |cs| && cs[i] == c;
    var j :| 0 <= j < |cs| && cs[j] == d;
  }

  lemma {:induction false} RenamedKeeps(cs: seq<Config>, versions: map<string, Versioned>, prefix: string, i: nat)
    requires i < |cs|
    requires forall j :: i < j < |cs| ==> NewName(cs[j], versions) != NewName(cs[i], versions)
    ensures var n := NewName(cs[i], versions);
            n in Renamed(cs, versions, prefix) && Renamed(cs, versions, prefix)[n] == Updated(cs[i], versions, prefix)
  {
    var m := |cs| - 1;
    if i < m { RenamedKeeps(cs[..m], versions, prefix, i); }
  }

  lemma ResolvesWhenNoLookalike(cs: seq<Config>, versions: map<string, Versioned>, prefix: string, i: nat)
    requires DistinctConfigs(cs) && NoVersionLookalike(cs, versions) && i < |cs|
    ensures var n := NewName(cs[i], versions);
            n in Renamed(cs, versions, prefix) && Renamed(cs, versions, prefix)[n] == Updated(cs[i], versions, prefix)
  {
    forall j | i < j < |cs| ensures NewName(cs[j], versions) != NewName(cs[i], versions) {
      assert cs[i].name != cs[j].name;
      if NewName(cs[j], versions) == NewName(cs[i], versions) {
        NewNamesClashOnlyByLookalike(cs, versions, cs[j], cs[i]);
      }
    }
    RenamedKeeps(cs, versions, prefix, i);
  }

  /** Every reference of a service to a config of the file resolves, after renaming, to that
      same config, exactly when no config that keeps its name looks like another's versioned
      name. (With inline configs only, none keeps its name.) */
  lemma ReferencesResolveIff(cs: seq<Config>, versions: map<string, Versioned>, prefix: string)
    requires DistinctConfigs(cs)
    ensures (forall i :: 0 <= i < |cs| ==>
               var n := NewSource(cs[i].name, cs, versions);
               n in Renamed(cs, versions, prefix)
                 && Renamed(cs, versions, prefix)[n] == Updated(cs[i], versions, prefix))
            <==> NoVersionLookalike(cs, versions)
  {
    var r := Renamed(cs, versions, prefix);
    assert forall i :: 0 <= i < |cs| ==> NewSource(cs[i].name, cs, versions) == NewName(cs[i], versions);
    if NoVersionLookalike(cs, versions) {
      forall i | 0 <= i < |cs|
        ensures NewName(cs[i], versions) in r && r[NewName(cs[i], versions)] == Updated(cs[i], versions, prefix)
      {
        ResolvesWhenNoLookalike(cs, versions, prefix, i);
      }
    }
    if forall i :: 0 <= i < |cs| ==>
         NewName(cs[i], versions) in r && r[NewName(cs[i], versions)] == Updated(cs[i], versions, prefix)
    {
      forall c, d | c in cs && d in cs && c.name in versions && d.name !in versions
        ensures d.name != NewName(c, versions)
      {
        var i :| 0 <= i < |cs| && cs[i] == c;
        var j :| 0 <= j < |cs| && cs[j] == d;
        assert Updated(c, versions, prefix).name == c.name && Updated(d, versions, prefix).name == d.name;
      }
    }
  }

  /** An external config named like the first version of an inline one takes its place: the
      reference to the inline one then leads to the external one. */
  lemma LookalikeLosesConfig(prefix: string)
    ensures var cs := [Config("a", Some([]), "", ""), Config("a_v1", None, "", "")];
            var versions := map["a" := Versioned([], 1)];
            && DistinctConfigs(cs) && !NoVersionLookalike(cs, versions)
            && NewSource("a", cs, versions) == "a_v1"
            && Renamed(cs, versions, prefix) == map["a_v1" := cs[1]]
  {
    var cs := [Config("a", Some([]), "", ""), Config("a_v1", None, "", "")];
    var versions := map["a" := Versioned([], 1)];
    assert Decimal(1) == "1";
    assert NewName(cs[0], versions) == "a_v1" && NewName(cs[1], versions) == "a_v1";
    assert cs[0] in cs && cs[1] in cs;
    assert cs[..1][..0] == [] && cs[0].name == "a";
    assert Renamed(cs[..1], versions, prefix) == map["a_v1" := Updated(cs[0], versions, prefix)];
  }
}
