/** Cloning a stack: every fixed route domain is replaced by a generated one
    (backend/compose/processor.py). */
module CloneUrls {
  import opened Text
  import opened Values
  import opened EnvCompile

  /** `zane.http.routes.<index>.domain`, or any other label. */
  datatype LabelKey = Domain(route: string) | Other(name: string)

  datatype Label = Label(key: LabelKey, value: Value)

  /** The labels of each service, in file order. */
  type Labels = seq<Label>

  /** `{{ generate_domain }}` */
  const GENERATED: Value := [Template("generate_domain")]

  function VariableName(index: nat, route: string): string {
    "__zane_override_" + Decimal(index) + "_routes_" + route
  }

  datatype Pass = Pass(labels: Labels, environ: map<string, Value>, index: nat)

  predicate Resolves(v: Value, environ: map<string, Value>) {
    Expand(v, environ) == GENERATED
  }

  /** Whether the pass replaces this label. */
  predicate Fixed(l: Label, environ: map<string, Value>) {
    l.key.Domain? && !Resolves(l.value, environ)
  }

  /** One turn of the label loop. */
  function Turn(p: Pass, l: Label): Pass {
    if Fixed(l, p.environ) then
      var name := VariableName(p.index, l.key.route);
      Pass(p.labels + [Label(l.key, [Var(name)])], p.environ[name := GENERATED], p.index + 1)
    else Pass(p.labels + [l], p.environ, p.index)
  }

  /** The labels of all services, one after the other, go through one pass. */
  function Rewrite(ls: Labels, environ: map<string, Value>): Pass {
    if ls == [] then Pass([], environ, 0) else Turn(Rewrite(ls[..|ls| - 1], environ), ls[|ls| - 1])
  }

  function Flat(services: seq<Labels>): Labels {
    if services == [] then [] else Flat(services[..|services| - 1]) + services[|services| - 1]
  }

  lemma RewriteSnoc(ls: Labels, l: Label, environ: map<string, Value>)
    ensures Rewrite(ls + [l], environ) == Turn(Rewrite(ls, environ), l)
  {
    assert (ls + [l])[..|ls|] == ls;
  }

  /** The loop over one service's labels. */
  method RewriteLabels(labels: Labels, ghost before: Labels, ghost environ: map<string, Value>, start: Pass)
    returns (p: Pass)
    requires start == Rewrite(before, environ)
    ensures p == Rewrite(before + labels, environ) && |p.labels| == |start.labels| + |labels|
  {
    p := start;
    assert before + labels[..0] == before;
    for i := 0 to |labels|
      invariant p == Rewrite(before + labels[..i], environ) && |p.labels| == |start.labels| + i
    {
      var l := labels[i];
      RewriteSnoc(before + labels[..i], l, environ);
      assert before + labels[..i + 1] == before + labels[..i] + [l];
      if l.key.Domain? {
        var domainValue := Expand(l.value, p.environ);
        if domainValue != GENERATED {
          var name := VariableName(p.index, l.key.route);
          p := Pass(p.labels + [Label(l.key, [Var(name)])], p.environ[name := GENERATED], p.index + 1);
        } else {
          p := p.(labels := p.labels + [l]);
        }
      } else {
        p := p.(labels := p.labels + [l]);
      }
    }
    assert labels[..|labels|] == labels;
  }

  /** `replace_stack_urls_in_compose`: the index runs on from service to service. */
  method ReplaceStackUrls(services: seq<Labels>, environ: map<string, Value>)
    returns (cloned: seq<Labels>, section: map<string, Value>)
    ensures |cloned| == |services| && forall i :: 0 <= i < |services| ==> |cloned[i]| == |services[i]|
    ensures Flat(cloned) == Rewrite(Flat(services), environ).labels
    ensures section == Rewrite(Flat(services), environ).environ
  {
    cloned := [];
    var p := Pass([], environ, 0);
    for i := 0 to |services|
      invariant |cloned| == i && forall j :: 0 <= j < i ==> |cloned[j]| == |services[j]|
      invariant p == Rewrite(Flat(services[..i]), environ) && Flat(cloned) == p.labels
    {
      var done := |p.labels|;
      assert services[..i + 1][..i] == services[..i];
      ghost var start := p;
      p := RewriteLabels(services[i], Flat(services[..i]), environ, p);
      RewriteExtends(Flat(services[..i]), services[i], environ);
      cloned := cloned + [p.labels[done..]];
      assert cloned[..i] + [cloned[i]] == cloned;
      assert start.labels + p.labels[done..] == p.labels;
    }
    section := p.environ;
    assert services[..|services|] == services;
  }

  /** Labels once passed are settled. */
  lemma {:induction false} RewriteExtends(a: Labels, b: Labels, environ: map<string, Value>)
    ensures Rewrite(a, environ).labels <= Rewrite(a + b, environ).labels
    decreases |b|
  {
    if b == [] {
      assert a + b == a;
    } else {
      var n := |b| - 1;
      RewriteExtends(a, b[..n], environ);
      assert a + b == (a + b[..n]) + [b[n]];
      RewriteSnoc(a + b[..n], b[n], environ);
    }
  }

  lemma {:induction false} RewriteLength(ls: Labels, environ: map<string, Value>)
    ensures |Rewrite(ls, environ).labels| == |ls|
  {
    if ls != [] { RewriteLength(ls[..|ls| - 1], environ); }
  }

  // ---------------------------------------------------------------- the second pass

  /** Every route domain resolves to a `generate_domain` template. */
  ghost predicate AllGenerated(ls: Labels, environ: map<string, Value>) {
    forall i :: 0 <= i < |ls| && ls[i].key.Domain? ==> Resolves(ls[i].value, environ)
  }

  lemma {:induction false} NothingReplaced(ls: Labels, environ: map<string, Value>)
    requires AllGenerated(ls, environ)
    ensures Rewrite(ls, environ) == Pass(ls, environ, 0)
  {
    if ls != [] {
      var n := |ls| - 1;
      NothingReplaced(ls[..n], environ);
      assert ls == ls[..n] + [ls[n]];
    }
  }

  lemma {:induction false} IndexZero(ls: Labels, environ: map<string, Value>)
    requires Rewrite(ls, environ).index == 0
    ensures Rewrite(ls, environ).environ == environ && AllGenerated(ls, environ)
  {
    if ls != [] {
      var n := |ls| - 1;
      IndexZero(ls[..n], environ);
      forall i | 0 <= i < |ls| && ls[i].key.Domain? ensures Resolves(ls[i].value, environ) {
        if i < n { assert ls[..n][i] == ls[i]; }
      }
    }
  }

  /** A pass changes nothing exactly when every route domain is a generated one already. */
  lemma PassIsIdleIff(ls: Labels, environ: map<string, Value>)
    ensures Rewrite(ls, environ) == Pass(ls, environ, 0) <==> AllGenerated(ls, environ)
  {
    if AllGenerated(ls, environ) { NothingReplaced(ls, environ); }
    if Rewrite(ls, environ).index == 0 { IndexZero(ls, environ); }
  }

  // ---------------------------------------------------------------- what one label becomes

  /** What the pass knows when it comes to label `i`. */
  function Upto(ls: Labels, environ: map<string, Value>, i: nat): Pass
    requires i <= |ls|
  {
    Rewrite(ls[..i], environ)
  }

  /** The pass replaces label `i`, by a variable of this name. */
  predicate Replaced(ls: Labels, environ: map<string, Value>, i: nat)
    requires i < |ls|
  {
    Fixed(ls[i], Upto(ls, environ, i).environ)
  }

  function NameAt(ls: Labels, environ: map<string, Value>, i: nat): string
    requires i < |ls| && ls[i].key.Domain?
  {
    VariableName(Upto(ls, environ, i).index, ls[i].key.route)
  }

  lemma UptoNext(ls: Labels, environ: map<string, Value>, i: nat)
    requires i < |ls|
    ensures Upto(ls, environ, i + 1) == Turn(Upto(ls, environ, i), ls[i])
  {
    assert ls[..i + 1] == ls[..i] + [ls[i]];
    RewriteSnoc(ls[..i], ls[i], environ);
  }

  lemma LabelAt(ls: Labels, environ: map<string, Value>, i: nat)
    requires i < |ls|
    ensures |Rewrite(ls, environ).labels| == |ls|
    ensures Rewrite(ls, environ).labels[i]
         == if Replaced(ls, environ, i) then Label(ls[i].key, [Var(NameAt(ls, environ, i))]) else ls[i]
  {
    RewriteLength(ls, environ);
    RewriteLength(ls[..i], environ);
    UptoNext(ls, environ, i);
    RewriteExtends(ls[..i + 1], ls[i + 1..], environ);
    assert ls == ls[..i + 1] + ls[i + 1..];
    assert Upto(ls, environ, i + 1).labels[i] == Rewrite(ls, environ).labels[i];
  }

  /** A variable that holds the template keeps holding it. */
  lemma {:induction false} GeneratedStays(ls: Labels, environ: map<string, Value>, name: string, i: nat, n: nat)
    requires i <= n <= |ls|
    requires name in Upto(ls, environ, i).environ && Upto(ls, environ, i).environ[name] == GENERATED
    ensures name in Upto(ls, environ, n).environ && Upto(ls, environ, n).environ[name] == GENERATED
    decreases n
  {
    if i < n {
      GeneratedStays(ls, environ, name, i, n - 1);
      UptoNext(ls, environ, n - 1);
    }
  }

  // ---------------------------------------------------------------- completeness

  predicate Holds(environ: map<string, Value>, name: string) {
    name in environ && environ[name] == GENERATED
  }

  ghost predicate Mentions(v: Value, name: string) {
    exists k :: 0 <= k < |v| && v[k] == Var(name)
  }

  /** Each variable of `v` is unset, empty, or the template. */
  ghost predicate Light(v: Value, environ: map<string, Value>) {
    forall k :: 0 <= k < |v| && v[k].Var? && v[k].name in environ ==>
      environ[v[k].name] == [] || environ[v[k].name] == GENERATED
  }

  lemma {:induction false} ResolvedIsLight(v: Value, environ: map<string, Value>)
    requires Expand(v, environ) == [] || Expand(v, environ) == GENERATED
    ensures Light(v, environ)
  {
    if v != [] {
      var a, b := ExpandPiece(v[0], environ), Expand(v[1..], environ);
      assert a + b == Expand(v, environ);
      assert a != [] ==> (a + b)[0] == a[0] && (b != [] ==> |a + b| > 1);
      assert b != [] ==> (a + b)[|a|] == b[0];
      assert a == [] || a == GENERATED;
      assert b == [] || b == GENERATED;
      ResolvedIsLight(v[1..], environ);
      forall k | 0 <= k < |v| && v[k].Var? && v[k].name in environ
        ensures environ[v[k].name] == [] || environ[v[k].name] == GENERATED
      {
        if k > 0 { assert v[1..][k - 1] == v[k]; }
      }
    }
  }

  lemma MentionsTail(v: Value, name: string)
    requires v != []
    ensures Mentions(v, name) <==> v[0] == Var(name) || Mentions(v[1..], name)
  {
    if Mentions(v, name) && v[0] != Var(name) {
      var k :| 0 <= k < |v| && v[k] == Var(name);
      assert v[1..][k - 1] == Var(name);
    }
    if Mentions(v[1..], name) {
      var k :| 0 <= k < |v[1..]| && v[1..][k] == Var(name);
      assert v[k + 1] == Var(name);
    }
  }

  /** Setting a variable to the template leaves a light value alone if it does not mention the
      variable or the variable held the template, and makes it longer otherwise. */
  lemma {:induction false} LightGrows(v: Value, environ: map<string, Value>, name: string)
    requires Light(v, environ)
    ensures var after := environ[name := GENERATED];
            && Light(v, after) && |Expand(v, after)| >= |Expand(v, environ)|
            && (!Mentions(v, name) || Holds(environ, name) ==> Expand(v, after) == Expand(v, environ))
            && (Mentions(v, name) && !Holds(environ, name) ==> |Expand(v, after)| > |Expand(v, environ)|)
  {
    if v != [] {
      assert Light(v[1..], environ) by {
        assert forall k :: 0 <= k < |v[1..]| ==> v[1..][k] == v[k + 1];
      }
      LightGrows(v[1..], environ, name);
      MentionsTail(v, name);
    }
  }

  /** Label `i` was kept, and label `j` after it gets a variable that label `i` mentions and that
      does not hold the template yet. */
  ghost predicate Late(ls: Labels, environ: map<string, Value>, i: nat, j: nat)
    requires i < j < |ls|
  {
    && ls[i].key.Domain? && !Replaced(ls, environ, i) && Replaced(ls, environ, j)
    && Mentions(ls[i].value, NameAt(ls, environ, j)) && !Holds(Upto(ls, environ, j).environ, NameAt(ls, environ, j))
  }

  lemma KeptStep(ls: Labels, environ: map<string, Value>, i: nat, n: nat)
    requires i < n < |ls| && ls[i].key.Domain? && !Replaced(ls, environ, i)
    requires Light(ls[i].value, Upto(ls, environ, n).environ) && Expand(ls[i].value, Upto(ls, environ, n).environ) != []
    ensures Light(ls[i].value, Upto(ls, environ, n + 1).environ)
            && Expand(ls[i].value, Upto(ls, environ, n + 1).environ) != []
    ensures Resolves(ls[i].value, Upto(ls, environ, n + 1).environ)
            <==> Resolves(ls[i].value, Upto(ls, environ, n).environ) && !Late(ls, environ, i, n)
  {
    UptoNext(ls, environ, n);
    if Replaced(ls, environ, n) { LightGrows(ls[i].value, Upto(ls, environ, n).environ, NameAt(ls, environ, n)); }
  }

  /** No label from `i + 1` up to `n` is late for label `i`. */
  ghost predicate NoneLate(ls: Labels, environ: map<string, Value>, i: nat, n: nat)
    requires i < n <= |ls|
  {
    n == i + 1 || (NoneLate(ls, environ, i, n - 1) && !Late(ls, environ, i, n - 1))
  }

  lemma {:induction false} NoneLateIff(ls: Labels, environ: map<string, Value>, i: nat, n: nat)
    requires i < n <= |ls|
    ensures NoneLate(ls, environ, i, n) <==> forall j :: i < j < n ==> !Late(ls, environ, i, j)
  {
    if n > i + 1 { NoneLateIff(ls, environ, i, n - 1); }
  }

  lemma KeptBase(ls: Labels, environ: map<string, Value>, i: nat)
    requires i < |ls| && ls[i].key.Domain? && !Replaced(ls, environ, i)
    ensures Light(ls[i].value, Upto(ls, environ, i + 1).environ)
            && Resolves(ls[i].value, Upto(ls, environ, i + 1).environ)
  {
    UptoNext(ls, environ, i);
    ResolvedIsLight(ls[i].value, Upto(ls, environ, i).environ);
  }

  lemma {:induction false} KeptIff(ls: Labels, environ: map<string, Value>, i: nat, n: nat)
    requires i < n <= |ls| && ls[i].key.Domain? && !Replaced(ls, environ, i)
    ensures Light(ls[i].value, Upto(ls, environ, n).environ) && Expand(ls[i].value, Upto(ls, environ, n).environ) != []
    ensures Resolves(ls[i].value, Upto(ls, environ, n).environ) <==> NoneLate(ls, environ, i, n)
    decreases n
  {
    if n == i + 1 {
      KeptBase(ls, environ, i);
    } else {
      KeptIff(ls, environ, i, n - 1);
      KeptStep(ls, environ, i, n - 1);
    }
  }

  lemma VariableResolves(name: string, environ: map<string, Value>)
    requires name in environ
    ensures Expand([Var(name)], environ) == environ[name]
  {
    ExpandOne(Var(name), environ);
  }

  /** After the pass label `i` resolves to the template, unless some later label was given a
      variable that it mentions. */
  lemma LabelResolvesIff(ls: Labels, environ: map<string, Value>, i: nat)
    requires i < |ls| && ls[i].key.Domain?
    ensures var p := Rewrite(ls, environ);
            && |p.labels| == |ls|
            && (Resolves(p.labels[i].value, p.environ) <==> forall j :: i < j < |ls| ==> !Late(ls, environ, i, j))
  {
    LabelAt(ls, environ, i);
    assert ls[..|ls|] == ls;
    if Replaced(ls, environ, i) {
      UptoNext(ls, environ, i);
      GeneratedStays(ls, environ, NameAt(ls, environ, i), i + 1, |ls|);
      VariableResolves(NameAt(ls, environ, i), Rewrite(ls, environ).environ);
    } else {
      KeptIff(ls, environ, i, |ls|);
      NoneLateIff(ls, environ, i, |ls|);
    }
  }

  /** The rewriting is complete, and a second pass idle, exactly when no label that was kept
      mentions a variable that the pass sets only later. */
  lemma CloneIsCompleteIff(ls: Labels, environ: map<string, Value>)
    ensures var p := Rewrite(ls, environ);
            && (AllGenerated(p.labels, p.environ) <==> forall i, j :: 0 <= i < j < |ls| ==> !Late(ls, environ, i, j))
            && (Rewrite(p.labels, p.environ) == Pass(p.labels, p.environ, 0) <==> AllGenerated(p.labels, p.environ))
  {
    var p := Rewrite(ls, environ);
    PassIsIdleIff(p.labels, p.environ);
    RewriteLength(ls, environ);
    forall i | 0 <= i < |ls|
      ensures p.labels[i].key == ls[i].key
      ensures ls[i].key.Domain? ==>
              (Resolves(p.labels[i].value, p.environ) <==> forall j :: i < j < |ls| ==> !Late(ls, environ, i, j))
    {
      LabelAt(ls, environ, i);
      if ls[i].key.Domain? { LabelResolvesIff(ls, environ, i); }
    }
    forall i, j | 0 <= i < j < |ls| && !ls[i].key.Domain? ensures !Late(ls, environ, i, j) {}
  }

  /** A domain label in the usual form: no variable, or one variable and nothing else. */
  predicate Plain(v: Value) {
    |v| == 1 || forall k :: 0 <= k < |v| ==> !v[k].Var?
  }

  lemma OneVariableStays(ls: Labels, environ: map<string, Value>, name: string, i: nat, j: nat)
    requires i <= j <= |ls| && Resolves([Var(name)], Upto(ls, environ, i).environ)
    ensures Holds(Upto(ls, environ, j).environ, name)
  {
    var before := Upto(ls, environ, i).environ;
    OnePiece(Var(name), before);
    VariableResolves(name, before);
    GeneratedStays(ls, environ, name, i, j);
  }

  lemma PlainIsNotLate(ls: Labels, environ: map<string, Value>, i: nat, j: nat)
    requires i < j < |ls| && ls[i].key.Domain? && Plain(ls[i].value)
    ensures !Late(ls, environ, i, j)
  {
    if Late(ls, environ, i, j) {
      assert ls[i].value == [Var(NameAt(ls, environ, j))];
      OneVariableStays(ls, environ, NameAt(ls, environ, j), i, j);
    }
  }

  /** With labels in the usual form the rewriting is always complete. */
  lemma PlainLabelsAreComplete(ls: Labels, environ: map<string, Value>)
    requires forall i :: 0 <= i < |ls| && ls[i].key.Domain? ==> Plain(ls[i].value)
    ensures var p := Rewrite(ls, environ);
            AllGenerated(p.labels, p.environ) && Rewrite(p.labels, p.environ) == Pass(p.labels, p.environ, 0)
  {
    forall i, j | 0 <= i < j < |ls| ensures !Late(ls, environ, i, j) {
      if ls[i].key.Domain? { PlainIsNotLate(ls, environ, i, j); }
    }
    CloneIsCompleteIff(ls, environ);
  }

  /** The names the pass makes up all start like this. */
  const RESERVED := "__zane_override_"

  /** Every reserved name that a label of several pieces mentions has a value in the section. */
  ghost predicate ReservedAreSet(ls: Labels, environ: map<string, Value>) {
    forall i, k :: 0 <= i < |ls| && ls[i].key.Domain? && |ls[i].value| > 1 && 0 <= k < |ls[i].value|
                   && ls[i].value[k].Var? && RESERVED <= ls[i].value[k].name ==>
      ls[i].value[k].name in environ && environ[ls[i].value[k].name] != []
  }

  /** A variable with a value never loses it: it keeps its own or holds the template. */
  lemma {:induction false} ValueStays(ls: Labels, environ: map<string, Value>, name: string, n: nat)
    requires n <= |ls| && name in environ
    ensures var after := Upto(ls, environ, n).environ;
            name in after && (after[name] == environ[name] || after[name] == GENERATED)
    decreases n
  {
    if n > 0 {
      ValueStays(ls, environ, name, n - 1);
      UptoNext(ls, environ, n - 1);
    } else {
      assert ls[..0] == [];
    }
  }

  lemma SetIsNotLate(ls: Labels, environ: map<string, Value>, i: nat, j: nat)
    requires i < j < |ls| && ls[i].key.Domain? && |ls[i].value| > 1 && ReservedAreSet(ls, environ)
    ensures !Late(ls, environ, i, j)
  {
    if Late(ls, environ, i, j) {
      var name := NameAt(ls, environ, j);
      var k :| 0 <= k < |ls[i].value| && ls[i].value[k] == Var(name);
      assert RESERVED <= name;
      ValueStays(ls, environ, name, i);
      ResolvedIsLight(ls[i].value, Upto(ls, environ, i).environ);
      GeneratedStays(ls, environ, name, i, j);
    }
  }

  /** A condition one can read off the file: the rewriting is complete, and a second pass idle,
      if no label of several pieces mentions a reserved name that the section lacks or leaves
      empty. */
  lemma SetNamesAreComplete(ls: Labels, environ: map<string, Value>)
    requires ReservedAreSet(ls, environ)
    ensures var p := Rewrite(ls, environ);
            AllGenerated(p.labels, p.environ) && Rewrite(p.labels, p.environ) == Pass(p.labels, p.environ, 0)
  {
    forall i, j | 0 <= i < j < |ls| ensures !Late(ls, environ, i, j) {
      if ls[i].key.Domain? {
        if |ls[i].value| > 1 { SetIsNotLate(ls, environ, i, j); } else { PlainIsNotLate(ls, environ, i, j); }
      }
    }
    CloneIsCompleteIff(ls, environ);
  }

  /** A label put together from two variables can be resolved when the pass comes to it, and no
      longer be once the pass has set the second one. */
  lemma CompositeLabelIsMissed()
    ensures var v := "__zane_override_0_routes_1";
            var ls := [Label(Domain("0"), [Var("D"), Var(v)]), Label(Domain("1"), [Lit("x.io")])];
            var environ := map["D" := GENERATED];
            Late(ls, environ, 0, 1) && !AllGenerated(Rewrite(ls, environ).labels, Rewrite(ls, environ).environ)
  {
    var v := "__zane_override_0_routes_1";
    var ls := [Label(Domain("0"), [Var("D"), Var(v)]), Label(Domain("1"), [Lit("x.io")])];
    var environ := map["D" := GENERATED];
    assert Decimal(0) == "0";
    assert VariableName(0, "1") == v;
    TwoPieces(Var("D"), Var(v), environ);
    OnePiece(Lit("x.io"), environ);
    SecondLabel(ls[0], ls[1], environ);
    assert ls[0].value[1] == Var(v);
    assert Late(ls, environ, 0, 1);
    CloneIsCompleteIff(ls, environ);
  }

  /** What the pass knows at the second of two labels, when it kept the first. */
  lemma SecondLabel(a: Label, b: Label, environ: map<string, Value>)
    requires !Fixed(a, environ)
    ensures !Replaced([a, b], environ, 0) && Upto([a, b], environ, 1) == Pass([a], environ, 0)
  {
    assert [a, b][..0] == [] && [a, b][..1] == [a];
    UptoNext([a, b], environ, 0);
  }

  lemma OnePiece(a: Piece, environ: map<string, Value>)
    ensures Expand([a], environ) == ExpandPiece(a, environ)
  {
    assert [a][1..] == [];
  }

  lemma TwoPieces(a: Piece, b: Piece, environ: map<string, Value>)
    ensures Expand([a, b], environ) == ExpandPiece(a, environ) + ExpandPiece(b, environ)
  {
    assert [a, b][1..] == [b];
    OnePiece(b, environ);
  }

  // ---------------------------------------------------------------- the new variables

  lemma {:induction false} IndexRises(ls: Labels, environ: map<string, Value>, i: nat, j: nat)
    requires i <= j <= |ls|
    ensures Upto(ls, environ, i).index <= Upto(ls, environ, j).index
    decreases j
  {
    if i < j {
      IndexRises(ls, environ, i, j - 1);
      UptoNext(ls, environ, j - 1);
    }
  }

  lemma NumberPrefixUnique(m: nat, n: nat, a: string, b: string)
    requires a != "" && b != "" && !IsDigit(a[0]) && !IsDigit(b[0])
    requires Decimal(m) + a == Decimal(n) + b
    ensures m == n
  {
    var s := Decimal(m) + a;
    assert forall i :: 0 <= i < |Decimal(m)| ==> s[i] == Decimal(m)[i];
    assert forall i :: 0 <= i < |Decimal(n)| ==> s[i] == Decimal(n)[i];
    assert s[|Decimal(m)|] == a[0] && s[|Decimal(n)|] == b[0];
    assert |Decimal(m)| == |Decimal(n)|;
    assert Decimal(m) == s[..|Decimal(m)|] && Decimal(n) == s[..|Decimal(m)|];
    DecimalInjective(m, n);
  }

  lemma VariableNamesDiffer(m: nat, n: nat, route: string, other: string)
    requires VariableName(m, route) == VariableName(n, other)
    ensures m == n
  {
    var p, a, b := "__zane_override_", "_routes_" + route, "_routes_" + other;
    assert VariableName(m, route) == p + (Decimal(m) + a) && VariableName(n, other) == p + (Decimal(n) + b);
    assert (p + (Decimal(m) + a))[|p|..] == Decimal(m) + a && (p + (Decimal(n) + b))[|p|..] == Decimal(n) + b;
    NumberPrefixUnique(m, n, a, b);
  }

  /** No two labels replaced in one pass share a variable. */
  lemma NewVariablesDiffer(ls: Labels, environ: map<string, Value>, i: nat, j: nat)
    requires i < j < |ls| && Replaced(ls, environ, i) && Replaced(ls, environ, j)
    ensures NameAt(ls, environ, i) != NameAt(ls, environ, j)
  {
    UptoNext(ls, environ, i);
    IndexRises(ls, environ, i + 1, j);
    if NameAt(ls, environ, i) == NameAt(ls, environ, j) {
      VariableNamesDiffer(Upto(ls, environ, i).index, Upto(ls, environ, j).index, ls[i].key.route, ls[j].key.route);
    }
  }

  /** How many of the labels before `i` the pass replaces. */
  function ReplacedBefore(ls: Labels, environ: map<string, Value>, i: nat): nat
    requires i <= |ls|
  {
    if i == 0 then 0
    else ReplacedBefore(ls, environ, i - 1) + if Replaced(ls, environ, i - 1) then 1 else 0
  }

  lemma {:induction false} IndexCounts(ls: Labels, environ: map<string, Value>, i: nat)
    requires i <= |ls|
    ensures Upto(ls, environ, i).index == ReplacedBefore(ls, environ, i)
  {
    if i == 0 {
      assert ls[..0] == [];
    } else {
      IndexCounts(ls, environ, i - 1);
      UptoNext(ls, environ, i - 1);
    }
  }

  /** Two values mention one variable. */
  ghost predicate Share(v: Value, w: Value) {
    exists name :: Mentions(v, name) && Mentions(w, name)
  }

  lemma MentionsOne(name: string, other: string)
    ensures Mentions([Var(name)], other) <==> name == other
  {
    assert [Var(name)][0] == Var(name);
  }

  lemma SharesWithOne(v: Value, name: string)
    ensures Share(v, [Var(name)]) <==> Mentions(v, name)
    ensures Share([Var(name)], v) <==> Mentions(v, name)
  {
    forall other ensures Mentions([Var(name)], other) <==> name == other { MentionsOne(name, other); }
    if Mentions(v, name) { assert Mentions([Var(name)], name); }
  }

  /** Label `i` stays and mentions the variable label `j` is given: number so and so of its route,
      after the labels replaced before it. */
  ghost predicate MentionsNewOf(ls: Labels, environ: map<string, Value>, i: nat, j: nat)
    requires i < |ls| && j < |ls|
  {
    && !Replaced(ls, environ, i) && Replaced(ls, environ, j)
    && Mentions(ls[i].value, VariableName(ReplacedBefore(ls, environ, j), ls[j].key.route))
  }

  /** After a pass two labels share a variable exactly when both stayed and shared one before, or
      one stayed and already mentioned the variable the other was given. */
  lemma LabelsShareIff(ls: Labels, environ: map<string, Value>, i: nat, j: nat)
    requires i < |ls| && j < |ls| && i != j
    ensures var out := Rewrite(ls, environ).labels;
            |out| == |ls| &&
            (Share(out[i].value, out[j].value) <==>
               || (!Replaced(ls, environ, i) && !Replaced(ls, environ, j) && Share(ls[i].value, ls[j].value))
               || MentionsNewOf(ls, environ, i, j) || MentionsNewOf(ls, environ, j, i))
  {
    LabelAt(ls, environ, i);
    LabelAt(ls, environ, j);
    IndexCounts(ls, environ, i);
    IndexCounts(ls, environ, j);
    if Replaced(ls, environ, i) {
      SharesWithOne(Rewrite(ls, environ).labels[j].value, NameAt(ls, environ, i));
      if Replaced(ls, environ, j) {
        if i < j { NewVariablesDiffer(ls, environ, i, j); } else { NewVariablesDiffer(ls, environ, j, i); }
        MentionsOne(NameAt(ls, environ, j), NameAt(ls, environ, i));
      }
    } else if Replaced(ls, environ, j) {
      SharesWithOne(ls[i].value, NameAt(ls, environ, j));
    }
  }

  /** No label of the file mentions a reserved name. */
  ghost predicate NoReserved(ls: Labels) {
    forall i, k :: 0 <= i < |ls| && 0 <= k < |ls[i].value| && ls[i].value[k].Var? ==> !(RESERVED <= ls[i].value[k].name)
  }

  /** In a file that mentions no reserved name, a replaced label shares its variable with no other
      label, so each gets a domain of its own. */
  lemma NewVariablesAreOwn(ls: Labels, environ: map<string, Value>, i: nat, j: nat)
    requires NoReserved(ls) && i < |ls| && j < |ls| && i != j && Replaced(ls, environ, j)
    ensures |Rewrite(ls, environ).labels| == |ls|
    ensures !Share(Rewrite(ls, environ).labels[i].value, Rewrite(ls, environ).labels[j].value)
  {
    LabelsShareIff(ls, environ, i, j);
    var name := VariableName(ReplacedBefore(ls, environ, j), ls[j].key.route);
    assert RESERVED <= name;
    assert !Mentions(ls[i].value, name);
  }

  /** But the index starts over with each pass: cloning a clone that got a new fixed domain can
      give it the variable an earlier pass gave to another route, so both get one domain. */
  lemma CloneOfCloneSharesVariable()
    ensures var v := "__zane_override_0_routes_0";
            var ls := [Label(Domain("0"), [Lit("x.io")]), Label(Domain("0"), [Var(v)])];
            var p := Rewrite(ls, map[v := GENERATED]);
            p.labels == [Label(Domain("0"), [Var(v)]), Label(Domain("0"), [Var(v)])]
  {
    var v := "__zane_override_0_routes_0";
    var ls := [Label(Domain("0"), [Lit("x.io")]), Label(Domain("0"), [Var(v)])];
    var environ := map[v := GENERATED];
    assert Decimal(0) == "0";
    assert VariableName(0, "0") == v;
    assert ls[..0] == [] && Upto(ls, environ, 0) == Pass([], environ, 0);
    OnePiece(Lit("x.io"), environ);
    UptoNext(ls, environ, 0);
    assert environ[v := GENERATED] == environ;
    VariableResolves(v, environ);
    LabelAt(ls, environ, 0);
    LabelAt(ls, environ, 1);
  }
}
