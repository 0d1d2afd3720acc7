/** Values of a compose file's `x-zane-env` section, with the two substitutions the compiler
    makes. A value is a list of pieces; substitution is one pass over them. */
module Values {

  /** Literal text, `${name}`, `{{ env.name }}`, and a template expression such as
      `{{ generate_domain }}`. */
  datatype Piece = Lit(text: string) | Var(name: string) | Shared(name: string) | Template(func: string)

  type Value = seq<Piece>

  function ExpandPiece(p: Piece, env: map<string, Value>): Value {
    if p.Var? then (if p.name in env then env[p.name] else []) else [p]
  }

  /** `expand(text, environ=env, surrounded_vars_only=True)`: an unset variable is empty, and
      what is put in is not expanded again. */
  function Expand(v: Value, env: map<string, Value>): Value {
    if v == [] then [] else ExpandPiece(v[0], env) + Expand(v[1..], env)
  }

  /** `replace_placeholders` with the environment's shared variables: unknown names stay. */
  function Substitute(v: Value, shared: map<string, Value>): Value {
    if v == [] then []
    else (if v[0].Shared? && v[0].name in shared then shared[v[0].name] else [v[0]]) + Substitute(v[1..], shared)
  }

  /** No `${...}` and no `{{ env... }}` placeholder. */
  predicate Closed(v: Value) {
    forall i :: 0 <= i < |v| ==> !v[i].Var? && !v[i].Shared?
  }

  /** `extract_template_expression` is not None: the whole value is one template expression. */
  predicate IsTemplate(v: Value) {
    |v| == 1 && v[0].Template?
  }

  lemma {:induction false} ClosedIsFixed(v: Value, env: map<string, Value>, shared: map<string, Value>)
    requires Closed(v)
    ensures Expand(v, env) == v && Substitute(v, shared) == v
  {
    if v != [] { ClosedIsFixed(v[1..], env, shared); }
  }

  lemma {:induction false} VariableGoes(v: Value, i: nat)
    requires i < |v| && v[i].Var?
    ensures |Expand(v, map[])| < |v|
  {
    ExpandShrinks(v[1..]);
    if i > 0 { VariableGoes(v[1..], i - 1); }
  }

  lemma {:induction false} ExpandShrinks(v: Value)
    ensures |Expand(v, map[])| <= |v|
  {
    if v != [] { ExpandShrinks(v[1..]); }
  }

  lemma {:induction false} SharedGoes(v: Value, name: string, i: nat)
    requires i < |v| && v[i] == Shared(name)
    ensures |Substitute(v, map[name := []])| < |v|
  {
    SubstituteShrinks(v[1..], name);
    if i > 0 { SharedGoes(v[1..], name, i - 1); }
  }

  lemma {:induction false} SubstituteShrinks(v: Value, name: string)
    ensures |Substitute(v, map[name := []])| <= |v|
  {
    if v != [] { SubstituteShrinks(v[1..], name); }
  }

  ghost predicate Unchanged(v: Value, env: map<string, Value>, shared: map<string, Value>) {
    Expand(v, env) == v && Substitute(v, shared) == v
  }

  /** The closed values are just those that no substitution changes. */
  lemma ClosedIff(v: Value)
    ensures Closed(v) <==> forall env: map<string, Value>, shared: map<string, Value> :: Unchanged(v, env, shared)
  {
    if Closed(v) {
      forall env: map<string, Value>, shared: map<string, Value> ensures Unchanged(v, env, shared) {
        ClosedIsFixed(v, env, shared);
      }
    } else {
      var i :| 0 <= i < |v| && (v[i].Var? || v[i].Shared?);
      if v[i].Var? {
        VariableGoes(v, i);
        assert !Unchanged(v, map[], map[]);
      } else {
        SharedGoes(v, v[i].name, i);
        assert !Unchanged(v, map[], map[v[i].name := []]);
      }
    }
  }

  // ---------------------------------------------------------------- piece by piece

  /** Both substitutions go through a value piece by piece, from left to right. */
  lemma {:induction false} ExpandConcat(a: Value, b: Value, env: map<string, Value>)
    ensures Expand(a + b, env) == Expand(a, env) + Expand(b, env)
  {
    if a == [] {
      assert a + b == b;
    } else {
      assert (a + b)[1..] == a[1..] + b;
      ExpandConcat(a[1..], b, env);
    }
  }

  lemma {:induction false} SubstituteConcat(a: Value, b: Value, shared: map<string, Value>)
    ensures Substitute(a + b, shared) == Substitute(a, shared) + Substitute(b, shared)
  {
    if a == [] {
      assert a + b == b;
    } else {
      assert (a + b)[1..] == a[1..] + b;
      SubstituteConcat(a[1..], b, shared);
    }
  }

  /** The first puts in variables and nothing else. */
  lemma ExpandOne(p: Piece, env: map<string, Value>)
    ensures p.Var? && p.name in env ==> Expand([p], env) == env[p.name]
    ensures p.Var? && p.name !in env ==> Expand([p], env) == []
    ensures !p.Var? ==> Expand([p], env) == [p]
  {
    assert [p][1..] == [];
    assert Expand([p], env) == ExpandPiece(p, env) + Expand([], env);
  }

  /** The second puts in shared variables and nothing else. */
  lemma SubstituteOne(p: Piece, shared: map<string, Value>)
    ensures p.Shared? && p.name in shared ==> Substitute([p], shared) == shared[p.name]
    ensures !(p.Shared? && p.name in shared) ==> Substitute([p], shared) == [p]
  {
    assert [p][1..] == [];
    assert Substitute([], shared) == [];
  }

  /** Once closed values are put in, no shared variable that is set is left. */
  lemma {:induction false} NoSharedIsLeft(v: Value, shared: map<string, Value>, k: nat)
    requires (forall n :: n in shared ==> Closed(shared[n])) && k < |Substitute(v, shared)|
    ensures Substitute(v, shared)[k].Shared? ==> Substitute(v, shared)[k].name !in shared
  {
    var first := if v[0].Shared? && v[0].name in shared then shared[v[0].name] else [v[0]];
    assert Substitute(v, shared) == first + Substitute(v[1..], shared);
    if k >= |first| { NoSharedIsLeft(v[1..], shared, k - |first|); }
  }

  /** Only the variables a value mentions matter to its expansion. */
  lemma {:induction false} ExpandDependsOn(v: Value, a: map<string, Value>, b: map<string, Value>)
    requires forall i :: 0 <= i < |v| && v[i].Var? ==>
               (v[i].name in a <==> v[i].name in b) && (v[i].name in a ==> a[v[i].name] == b[v[i].name])
    ensures Expand(v, a) == Expand(v, b)
  {
    if v != [] { ExpandDependsOn(v[1..], a, b); }
  }
}
