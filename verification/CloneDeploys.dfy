/** The first deployment of a clone: the overrides that hold generated domains are not copied
    (backend/compose/models.py), so its routes get new ones. */
module CloneDeploys {
  import opened Values
  import opened EnvCompile
  import opened Deployments
  import opened CloneUrls

  /** The overrides `clone` carries over: all but those of `generate_domain` variables. */
  function CopiedOverrides(overrides: map<string, Value>, section: map<string, Value>): map<string, Value> {
    map k | k in overrides && !Holds(section, k) :: overrides[k]
  }

  /** In a clone every route whose label is one variable gets a newly generated domain, whatever
      domain the original had generated for that variable. */
  lemma ClonedRouteIsFresh(ls: Labels, environ: map<string, Value>, overrides: map<string, Value>, i: nat,
                           name: string, envs: seq<EnvVar>, k: nat, gen: string -> Value, shared: map<string, Value>)
    requires var p := Rewrite(ls, environ); |p.labels| == |ls| && i < |ls| && AllGenerated(p.labels, p.environ)
    requires Rewrite(ls, environ).labels[i].key.Domain? && Rewrite(ls, environ).labels[i].value == [Var(name)]
    requires DistinctNames(envs) && k < |envs| && Closed(gen(name))
    requires name in Rewrite(ls, environ).environ && envs[k] == EnvVar(name, Rewrite(ls, environ).environ[name])
    ensures var copied := CopiedOverrides(overrides, Rewrite(ls, environ).environ);
            && Settled(envs[k], envs, copied, gen, shared) == EnvSpec(name, gen(name), true)
            && Expand(Rewrite(ls, environ).labels[i].value, Dict(Specs(envs, copied, gen, shared))) == gen(name)
  {
    var p := Rewrite(ls, environ);
    var copied := CopiedOverrides(overrides, p.environ);
    VariableResolves(name, p.environ);
    assert Holds(p.environ, name);
    FreshValue(envs, copied, k, name, gen, shared);
  }

  /** A template variable that has no override settles to what was generated for it. */
  lemma FreshValue(envs: seq<EnvVar>, overrides: map<string, Value>, k: nat, name: string,
                   gen: string -> Value, shared: map<string, Value>)
    requires DistinctNames(envs) && k < |envs| && envs[k].key == name && IsTemplate(envs[k].value)
    requires name !in overrides && Closed(gen(name))
    ensures Settled(envs[k], envs, overrides, gen, shared) == EnvSpec(name, gen(name), true)
    ensures Expand([Var(name)], Dict(Specs(envs, overrides, gen, shared))) == gen(name)
  {
    ClosedIsFixed(gen(name), Environ(envs, overrides, gen), shared);
    DictAt(Specs(envs, overrides, gen, shared), k);
    VariableResolves(name, Dict(Specs(envs, overrides, gen, shared)));
  }

  /** Every other override comes along: the clone uses its value as it is and generates nothing
      for it. */
  lemma CopiedOverrideStays(section: map<string, Value>, overrides: map<string, Value>, envs: seq<EnvVar>, k: nat,
                            gen: string -> Value, shared: map<string, Value>)
    requires DistinctNames(envs) && k < |envs| && envs[k].key in overrides && Closed(overrides[envs[k].key])
    requires envs[k].key in section ==> section[envs[k].key] != [Template("generate_domain")]
    ensures var name := envs[k].key;
            Settled(envs[k], envs, CopiedOverrides(overrides, section), gen, shared) ==
            EnvSpec(name, overrides[name], false)
  {
    var copied := CopiedOverrides(overrides, section);
    ClosedIsFixed(overrides[envs[k].key], Environ(envs, copied, gen), shared);
  }
}
