/** The proxy's ordered route list: the sort key of `_sort_routes`, what upserting does to
    the list, and which lists are canonical (backend/temporal/proxy.py). */
module RouteTable {
  import opened Text

  /** A route's `match` value: the key may be missing, the list may be empty, or the first
      matcher carries a path pattern and a host. `""` stands for an absent path or host list,
      as the defaults of the key functions do. */
  datatype Match = Missing | Empty | On(path: string, host: string)

  /** `handle` is whatever the proxy runs once the route is chosen. */
  datatype Route = Route(id: string, on: Match, handle: string)

  // ---------------------------------------------------------------- the sort key

  datatype Specificity = Infinite | Path(prefix: nat, star: bool, full: nat)

  datatype Key = Key(path: Specificity, host: string, custom: nat)

  function PathSpecificity(m: Match): Specificity {
    match m
    case On(path, _) => Path(|RStrip(path, '*')|, path != "" && path[|path| - 1] == '*', |path|)
    case _ => Infinite
  }

  function CustomOrder(r: Route): nat {
    if r.on.Missing? then 3
    else if r.id == "frontend.zaneops.internal" then 2
    else if r.id == "api.zaneops.internal" then 1
    else 0
  }

  function KeyOf(r: Route): Key {
    Key(PathSpecificity(r.on), if r.on.On? then r.on.host else "~", CustomOrder(r))
  }

  /** `(-prefix, star, -full)` as Python orders tuples; `inf` in front is above every length. */
  predicate PathBefore(a: Specificity, b: Specificity) {
    match (a, b)
    case (Infinite, _) => false
    case (Path(_, _, _), Infinite) => true
    case (Path(p, s, f), Path(q, t, g)) =>
      if p != q then p > q else if s != t then !s else f > g
  }

  predicate KeyLe(a: Key, b: Key) {
    if a.path != b.path then PathBefore(a.path, b.path)
    else if a.host != b.host then LexLe(a.host, b.host)
    else a.custom <= b.custom
  }

  /** The key tuple is a total order, so a sorted arrangement of distinct keys is unique. */
  lemma KeyTotalOrder(a: Key, b: Key, c: Key)
    ensures KeyLe(a, b) || KeyLe(b, a)
    ensures KeyLe(a, b) && KeyLe(b, a) ==> a == b
    ensures KeyLe(a, b) && KeyLe(b, c) ==> KeyLe(a, c)
  {
    LexTotal(a.host, b.host);
    if LexLe(a.host, b.host) && LexLe(b.host, a.host) { LexAntisymmetric(a.host, b.host); }
    if LexLe(a.host, b.host) && LexLe(b.host, c.host) { LexTransitive(a.host, b.host, c.host); }
    if LexLe(a.host, b.host) && LexLe(b.host, c.host) && a.host == c.host {
      LexAntisymmetric(a.host, b.host);
    }
  }

  // ---------------------------------------------------------------- stable sorting

  ghost predicate Sorted(s: seq<Route>) {
    forall i, j :: 0 <= i < j < |s| ==> KeyLe(KeyOf(s[i]), KeyOf(s[j]))
  }

  function Insert(s: seq<Route>, r: Route): seq<Route> {
    if s == [] || KeyLe(KeyOf(s[|s| - 1]), KeyOf(r)) then s + [r]
    else Insert(s[..|s| - 1], r) + [s[|s| - 1]]
  }

  /** Python's `sorted(routes, key=...)`: stable, ascending. */
  function Sort(s: seq<Route>): seq<Route> {
    if s == [] then [] else Insert(Sort(s[..|s| - 1]), s[|s| - 1])
  }

  /** `s` with `r` appended when `keep` holds. */
  function Plus(s: seq<Route>, r: Route, keep: bool): seq<Route> {
    if keep then s + [r] else s
  }

  /** The routes of `s` whose key is `k`, in the order `s` has them. */
  function Bucket(s: seq<Route>, k: Key): seq<Route> {
    if s == [] then []
    else Plus(Bucket(s[..|s| - 1], k), s[|s| - 1], KeyOf(s[|s| - 1]) == k)
  }

  lemma BucketSnoc(s: seq<Route>, x: Route, k: Key)
    ensures Bucket(s + [x], k) == Plus(Bucket(s, k), x, KeyOf(x) == k)
  {
    assert (s + [x])[..|s|] == s;
  }

  lemma {:induction false} BucketMembers(s: seq<Route>, k: Key, r: Route)
    ensures r in Bucket(s, k) <==> r in s && KeyOf(r) == k
  {
    if s != [] {
      assert s == s[..|s| - 1] + [s[|s| - 1]];
      BucketMembers(s[..|s| - 1], k, r);
    }
  }

  lemma {:induction false} BucketConcat(s: seq<Route>, t: seq<Route>, k: Key)
    ensures Bucket(s + t, k) == Bucket(s, k) + Bucket(t, k)
  {
    if t == [] {
      assert s + t == s;
    } else {
      var t0, x := t[..|t| - 1], t[|t| - 1];
      assert t == t0 + [x] && s + t == (s + t0) + [x];
      BucketConcat(s, t0, k);
      BucketSnoc(s + t0, x, k);
      BucketSnoc(t0, x, k);
    }
  }

  lemma {:induction false} BucketCounts(s: seq<Route>, k: Key, r: Route)
    ensures multiset(Bucket(s, k))[r] == if KeyOf(r) == k then multiset(s)[r] else 0
  {
    if s != [] {
      assert s == s[..|s| - 1] + [s[|s| - 1]];
      BucketCounts(s[..|s| - 1], k, r);
    }
  }

  lemma {:induction false} InsertMembers(s: seq<Route>, r: Route)
    ensures multiset(Insert(s, r)) == multiset(s) + multiset{r}
  {
    if s == [] || KeyLe(KeyOf(s[|s| - 1]), KeyOf(r)) {
    } else {
      assert s == s[..|s| - 1] + [s[|s| - 1]];
      InsertMembers(s[..|s| - 1], r);
    }
  }

  lemma SortedSnoc(s: seq<Route>, x: Route)
    requires Sorted(s)
    requires s == [] || KeyLe(KeyOf(s[|s| - 1]), KeyOf(x))
    ensures Sorted(s + [x])
  {
    forall i | 0 <= i < |s| ensures KeyLe(KeyOf(s[i]), KeyOf(x)) {
      KeyTotalOrder(KeyOf(s[i]), KeyOf(s[|s| - 1]), KeyOf(x));
    }
  }

  lemma {:induction false} InsertSorts(s: seq<Route>, r: Route)
    requires Sorted(s)
    ensures Sorted(Insert(s, r))
  {
    if s == [] || KeyLe(KeyOf(s[|s| - 1]), KeyOf(r)) {
      SortedSnoc(s, r);
    } else {
      var s0, x := s[..|s| - 1], s[|s| - 1];
      InsertSorts(s0, r);
      var t := Insert(s0, r);
      if t != [] {
        InsertMembers(s0, r);
        assert t[|t| - 1] in multiset(t);
        KeyTotalOrder(KeyOf(r), KeyOf(x), KeyOf(x));
      }
      SortedSnoc(t, x);
    }
  }

  lemma {:induction false} InsertBucket(s: seq<Route>, r: Route, k: Key)
    requires Sorted(s)
    ensures Bucket(Insert(s, r), k) == Plus(Bucket(s, k), r, KeyOf(r) == k)
  {
    if s == [] || KeyLe(KeyOf(s[|s| - 1]), KeyOf(r)) {
      BucketSnoc(s, r, k);
    } else {
      var s0, x := s[..|s| - 1], s[|s| - 1];
      InsertBucket(s0, r, k);
      BucketSnoc(Insert(s0, r), x, k);
      KeyTotalOrder(KeyOf(x), KeyOf(r), KeyOf(r));
    }
  }

  /** `Sort` sorts and keeps every route. */
  lemma {:induction false} SortSorts(s: seq<Route>)
    ensures Sorted(Sort(s))
    ensures multiset(Sort(s)) == multiset(s)
  {
    if s != [] {
      var s0, x := s[..|s| - 1], s[|s| - 1];
      assert s == s0 + [x];
      SortSorts(s0);
      InsertSorts(Sort(s0), x);
      InsertMembers(Sort(s0), x);
    }
  }

  /** `Sort` is stable: routes with equal keys keep their order. */
  lemma {:induction false} SortIsStable(s: seq<Route>, k: Key)
    ensures Bucket(Sort(s), k) == Bucket(s, k)
  {
    if s != [] {
      SortIsStable(s[..|s| - 1], k);
      SortSorts(s[..|s| - 1]);
      InsertBucket(Sort(s[..|s| - 1]), s[|s| - 1], k);
    }
  }

  lemma SortedLast(s: seq<Route>, r: Route)
    requires Sorted(s) && r in s
    ensures KeyLe(KeyOf(r), KeyOf(s[|s| - 1]))
  {
    KeyTotalOrder(KeyOf(r), KeyOf(r), KeyOf(r));
  }

  lemma SameLast(a: seq<Route>, b: seq<Route>)
    requires Sorted(a) && Sorted(b) && a != [] && b != []
    requires forall k :: Bucket(a, k) == Bucket(b, k)
    ensures a[|a| - 1] == b[|b| - 1]
  {
    var x, y := a[|a| - 1], b[|b| - 1];
    BucketMembers(a, KeyOf(x), x);
    BucketMembers(b, KeyOf(x), x);
    BucketMembers(b, KeyOf(y), y);
    BucketMembers(a, KeyOf(y), y);
    SortedLast(a, y);
    SortedLast(b, x);
    KeyTotalOrder(KeyOf(x), KeyOf(y), KeyOf(y));
    var k := KeyOf(x);
    LastOfBucket(a, k);
    LastOfBucket(b, k);
  }

  lemma LastOfBucket(s: seq<Route>, k: Key)
    requires s != [] && KeyOf(s[|s| - 1]) == k
    ensures Bucket(s, k) != [] && Bucket(s, k)[|Bucket(s, k)| - 1] == s[|s| - 1]
    ensures Bucket(s[..|s| - 1], k) == Bucket(s, k)[..|Bucket(s, k)| - 1]
  {
    assert Bucket(s, k) == Bucket(s[..|s| - 1], k) + [s[|s| - 1]];
  }

  lemma OutsideBucket(s: seq<Route>, k: Key)
    requires s != [] && KeyOf(s[|s| - 1]) != k
    ensures Bucket(s[..|s| - 1], k) == Bucket(s, k)
  {}

  /** A sorted list is determined by its buckets. */
  lemma {:induction false} SortedUnique(a: seq<Route>, b: seq<Route>)
    requires Sorted(a) && Sorted(b)
    requires forall k :: Bucket(a, k) == Bucket(b, k)
    ensures a == b
    decreases |a|
  {
    if a == [] {
      if b != [] { BucketMembers(b, KeyOf(b[0]), b[0]); }
    } else if b == [] {
      BucketMembers(a, KeyOf(a[0]), a[0]);
    } else {
      SameLast(a, b);
      var a0, b0, x := a[..|a| - 1], b[..|b| - 1], a[|a| - 1];
      forall k ensures Bucket(a0, k) == Bucket(b0, k) {
        if KeyOf(x) == k {
          LastOfBucket(a, k);
          LastOfBucket(b, k);
        } else {
          OutsideBucket(a, k);
          OutsideBucket(b, k);
        }
      }
      SortedUnique(a0, b0);
      assert a == a0 + [x] && b == b0 + [x];
    }
  }

  // ---------------------------------------------------------------- canonical form

  /** No two different routes of `s` compare equal. */
  ghost predicate NoTies(s: seq<Route>) {
    forall i, j :: 0 <= i < j < |s| && KeyOf(s[i]) == KeyOf(s[j]) ==> s[i] == s[j]
  }

  ghost predicate Canonical(s: seq<Route>) {
    forall p :: multiset(p) == multiset(s) ==> Sort(p) == Sort(s)
  }

  lemma AllSame(a: seq<Route>, b: seq<Route>)
    requires multiset(a) == multiset(b)
    requires forall i, j :: 0 <= i < j < |a| ==> a[i] == a[j]
    ensures a == b
  {
    assert |a| == |multiset(a)| && |b| == |multiset(b)|;
    forall i | 0 <= i < |b| ensures b[i] == a[i] {
      assert b[i] in multiset(a);
    }
  }

  lemma {:induction false} BucketOfNoTies(s: seq<Route>, k: Key)
    requires NoTies(s)
    ensures forall i, j :: 0 <= i < j < |Bucket(s, k)| ==> Bucket(s, k)[i] == Bucket(s, k)[j]
  {
    var b := Bucket(s, k);
    forall i, j | 0 <= i < j < |b| ensures b[i] == b[j] {
      BucketMembers(s, k, b[i]);
      BucketMembers(s, k, b[j]);
      var m :| 0 <= m < |s| && s[m] == b[i];
      var n :| 0 <= n < |s| && s[n] == b[j];
    }
  }

  /** The sorted table depends only on the set of routes, whatever order they arrived in,
      exactly when no two different routes have equal keys. */
  lemma CanonicalIffNoTies(s: seq<Route>)
    ensures Canonical(s) <==> NoTies(s)
  {
    if NoTies(s) {
      forall p | multiset(p) == multiset(s) ensures Sort(p) == Sort(s) {
        SortSorts(p);
        SortSorts(s);
        forall k ensures Bucket(Sort(p), k) == Bucket(Sort(s), k) {
          SortIsStable(p, k);
          SortIsStable(s, k);
          forall r ensures multiset(Bucket(p, k))[r] == multiset(Bucket(s, k))[r] {
            BucketCounts(p, k, r);
            BucketCounts(s, k, r);
          }
          BucketOfNoTies(s, k);
          AllSame(Bucket(s, k), Bucket(p, k));
        }
        SortedUnique(Sort(p), Sort(s));
      }
    }
    if Canonical(s) {
      forall i, j | 0 <= i < j < |s| && KeyOf(s[i]) == KeyOf(s[j]) ensures s[i] == s[j] {
        SwapShowsOrder(s, i, j);
      }
    }
  }

  lemma BucketAround(a: seq<Route>, x: Route, b: seq<Route>, k: Key)
    requires KeyOf(x) == k
    ensures Bucket(a + [x] + b, k) == Bucket(a, k) + [x] + Bucket(b, k)
  {
    BucketSnoc(a, x, k);
    BucketConcat(a + [x], b, k);
  }

  lemma SwapPermutes(a: seq<Route>, x: Route, b: seq<Route>, y: Route, c: seq<Route>)
    ensures multiset(a + [y] + (b + [x] + c)) == multiset(a + [x] + (b + [y] + c))
  {
    assert multiset(b + [x] + c) == multiset(b) + multiset{x} + multiset(c);
    assert multiset(b + [y] + c) == multiset(b) + multiset{y} + multiset(c);
  }

  lemma SortedAlikeAround(a: seq<Route>, x: Route, b: seq<Route>, y: Route, c: seq<Route>)
    requires KeyOf(x) == KeyOf(y)
    requires Sort(a + [y] + b) == Sort(a + [x] + c)
    ensures x == y
  {
    var k := KeyOf(x);
    SortIsStable(a + [y] + b, k);
    SortIsStable(a + [x] + c, k);
    BucketAround(a, y, b, k);
    BucketAround(a, x, c, k);
    var m := Bucket(Sort(a + [y] + b), k);
    assert m[|Bucket(a, k)|] == y;
  }

  lemma SwapIn(a: seq<Route>, x: Route, b: seq<Route>, y: Route, c: seq<Route>)
    requires KeyOf(x) == KeyOf(y)
    requires Canonical(a + [x] + (b + [y] + c))
    ensures x == y
  {
    SwapPermutes(a, x, b, y, c);
    SortedAlikeAround(a, x, b + [x] + c, y, b + [y] + c);
  }

  lemma SwapShowsOrder(s: seq<Route>, i: nat, j: nat)
    requires i < j < |s| && KeyOf(s[i]) == KeyOf(s[j])
    requires Canonical(s)
    ensures s[i] == s[j]
  {
    assert s == s[..i] + [s[i]] + (s[i + 1..j] + [s[j]] + s[j + 1..]);
    SwapIn(s[..i], s[i], s[i + 1..j], s[j], s[j + 1..]);
  }

  /** Distinct paths and hosts are not enough: two paths of equal length on one host tie,
      and the table then remembers the order of arrival. */
  lemma EqualLengthPathsTie()
    ensures var a := Route("a", On("/ab*", "h"), ""); var b := Route("b", On("/cd*", "h"), "");
            a.on != b.on && Sort([a, b]) == [a, b] && Sort([b, a]) == [b, a]
  {
    var a := Route("a", On("/ab*", "h"), "");
    var b := Route("b", On("/cd*", "h"), "");
    RStripIs("/ab*", '*', 3);
    RStripIs("/cd*", '*', 3);
    assert KeyOf(a) == KeyOf(b);
    KeyTotalOrder(KeyOf(a), KeyOf(b), KeyOf(b));
    assert [a, b][..1] == [a] && [b, a][..1] == [b];
    assert [a][..0] == [] && [b][..0] == [];
    assert Sort([a]) == [a] && Sort([b]) == [b];
  }

  // ---------------------------------------------------------------- upserting

  /** `[route for route in routes if route["@id"] != id]` */
  function Without(s: seq<Route>, id: string): seq<Route> {
    if s == [] then []
    else Plus(Without(s[..|s| - 1], id), s[|s| - 1], s[|s| - 1].id != id)
  }

  /** The table a successful upsert writes, computed from the table it read. */
  function Upsert(t: seq<Route>, r: Route): seq<Route> {
    Sort(Without(t, r.id) + [r])
  }

  /** Removing an id goes through the list in order and takes away just its routes. */
  lemma {:induction false} WithoutConcat(a: seq<Route>, b: seq<Route>, id: string)
    ensures Without(a + b, id) == Without(a, id) + Without(b, id)
  {
    if b == [] {
      assert a + b == a;
    } else {
      var n := |b| - 1;
      WithoutConcat(a, b[..n], id);
      assert (a + b)[..|a| + n] == a + b[..n];
    }
  }

  /** The new route comes behind the old ones of its key, and the old ones of each key keep their
      order. */
  lemma UpsertKeepsOrder(t: seq<Route>, r: Route, k: Key)
    ensures Bucket(Upsert(t, r), k) == Bucket(Without(t, r.id), k) + if KeyOf(r) == k then [r] else []
  {
    SortIsStable(Without(t, r.id) + [r], k);
    BucketSnoc(Without(t, r.id), r, k);
  }

  ghost predicate UniqueIds(s: seq<Route>) {
    forall i, j :: 0 <= i < j < |s| ==> s[i].id != s[j].id
  }

  lemma {:induction false} WithoutMembers(s: seq<Route>, id: string, r: Route)
    ensures r in Without(s, id) <==> r in s && r.id != id
  {
    if s != [] {
      assert s == s[..|s| - 1] + [s[|s| - 1]];
      WithoutMembers(s[..|s| - 1], id, r);
    }
  }

  lemma WithoutSnoc(s: seq<Route>, x: Route, id: string)
    ensures Without(s + [x], id) == Plus(Without(s, id), x, x.id != id)
  {
    assert (s + [x])[..|s|] == s;
  }

  lemma {:induction false} WithoutIdempotent(s: seq<Route>, id: string)
    ensures Without(Without(s, id), id) == Without(s, id)
  {
    if s != [] {
      WithoutIdempotent(s[..|s| - 1], id);
      WithoutSnoc(Without(s[..|s| - 1], id), s[|s| - 1], id);
    }
  }

  lemma {:induction false} BucketWithout(s: seq<Route>, id: string, k: Key)
    ensures Bucket(Without(s, id), k) == Without(Bucket(s, k), id)
  {
    if s != [] {
      var s0, x := s[..|s| - 1], s[|s| - 1];
      BucketWithout(s0, id, k);
      BucketSnoc(Without(s0, id), x, k);
      WithoutSnoc(Bucket(s0, k), x, id);
    }
  }

  lemma {:induction false} WithoutCommutes(s: seq<Route>, i: string, j: string)
    ensures Without(Without(s, i), j) == Without(Without(s, j), i)
  {
    if s != [] {
      var s0, x := s[..|s| - 1], s[|s| - 1];
      WithoutCommutes(s0, i, j);
      if x.id != i { WithoutSnoc(Without(s0, i), x, j); }
      if x.id != j { WithoutSnoc(Without(s0, j), x, i); }
    }
  }

  lemma UniqueSnoc(s: seq<Route>, x: Route)
    ensures UniqueIds(s + [x]) <==> UniqueIds(s) && forall r :: r in s ==> r.id != x.id
  {
    var t := s + [x];
    if UniqueIds(t) {
      forall i, j | 0 <= i < j < |s| ensures s[i].id != s[j].id { assert t[i].id != t[j].id; }
      forall r | r in s ensures r.id != x.id {
        var i :| 0 <= i < |s| && s[i] == r;
        assert t[i].id != t[|s|].id;
      }
    }
  }

  lemma {:induction false} WithoutKeepsUnique(s: seq<Route>, id: string)
    requires UniqueIds(s)
    ensures UniqueIds(Without(s, id))
  {
    if s != [] {
      var s0, x := s[..|s| - 1], s[|s| - 1];
      assert s == s0 + [x];
      UniqueSnoc(s0, x);
      WithoutKeepsUnique(s0, id);
      forall r | r in Without(s0, id) ensures r.id != x.id { WithoutMembers(s0, id, r); }
      UniqueSnoc(Without(s0, id), x);
    }
  }

  lemma {:induction false} InsertKeepsUnique(s: seq<Route>, r: Route)
    requires UniqueIds(s) && forall x :: x in s ==> x.id != r.id
    ensures UniqueIds(Insert(s, r))
  {
    if s == [] || KeyLe(KeyOf(s[|s| - 1]), KeyOf(r)) {
      UniqueSnoc(s, r);
    } else {
      var s0, x := s[..|s| - 1], s[|s| - 1];
      assert s == s0 + [x];
      UniqueSnoc(s0, x);
      InsertKeepsUnique(s0, r);
      InsertMembers(s0, r);
      forall y | y in Insert(s0, r) ensures y.id != x.id {
        assert y in multiset(Insert(s0, r));
      }
      UniqueSnoc(Insert(s0, r), x);
    }
  }

  lemma {:induction false} SortKeepsUnique(s: seq<Route>)
    requires UniqueIds(s)
    ensures UniqueIds(Sort(s))
  {
    if s != [] {
      var s0, x := s[..|s| - 1], s[|s| - 1];
      assert s == s0 + [x];
      UniqueSnoc(s0, x);
      SortKeepsUnique(s0);
      SortSorts(s0);
      forall y | y in Sort(s0) ensures y.id != x.id { assert y in multiset(Sort(s0)); }
      InsertKeepsUnique(Sort(s0), x);
    }
  }

  /** An upsert leaves a sorted table that holds the new route and exactly the old routes
      with other ids. */
  lemma UpsertContents(t: seq<Route>, r: Route, x: Route)
    ensures Sorted(Upsert(t, r))
    ensures x in Upsert(t, r) <==> x == r || (x in t && x.id != r.id)
  {
    var s := Without(t, r.id) + [r];
    SortSorts(s);
    assert x in Sort(s) <==> x in multiset(Sort(s));
    assert x in s <==> x in multiset(s);
    WithoutMembers(t, r.id, x);
  }

  lemma UpsertKeepsUnique(t: seq<Route>, r: Route)
    requires UniqueIds(t)
    ensures UniqueIds(Upsert(t, r))
  {
    WithoutKeepsUnique(t, r.id);
    forall x | x in Without(t, r.id) ensures x.id != r.id { WithoutMembers(t, r.id, x); }
    UniqueSnoc(Without(t, r.id), r);
    SortKeepsUnique(Without(t, r.id) + [r]);
  }

  lemma UpsertBucket(t: seq<Route>, r: Route, k: Key)
    ensures Bucket(Upsert(t, r), k)
         == Plus(Without(Bucket(t, k), r.id), r, KeyOf(r) == k)
  {
    SortIsStable(Without(t, r.id) + [r], k);
    BucketSnoc(Without(t, r.id), r, k);
    BucketWithout(t, r.id, k);
  }

  /** Writing the same route twice is writing it once. */
  lemma UpsertIdempotent(t: seq<Route>, r: Route)
    ensures Upsert(Upsert(t, r), r) == Upsert(t, r)
  {
    forall k ensures Bucket(Upsert(Upsert(t, r), r), k) == Bucket(Upsert(t, r), k) {
      UpsertBucket(t, r, k);
      UpsertBucket(Upsert(t, r), r, k);
      var w := Without(Bucket(t, k), r.id);
      WithoutIdempotent(Bucket(t, k), r.id);
      if KeyOf(r) == k { WithoutSnoc(w, r, r.id); }
    }
    UpsertContents(t, r, r);
    UpsertContents(Upsert(t, r), r, r);
    SortedUnique(Upsert(Upsert(t, r), r), Upsert(t, r));
  }

  lemma UpsertTwiceBucket(t: seq<Route>, a: Route, b: Route, k: Key)
    requires a.id != b.id
    ensures Bucket(Upsert(Upsert(t, a), b), k)
         == Plus(Plus(Without(Without(Bucket(t, k), a.id), b.id), a, KeyOf(a) == k),
                 b, KeyOf(b) == k)
  {
    UpsertBucket(t, a, k);
    UpsertBucket(Upsert(t, a), b, k);
    if KeyOf(a) == k { WithoutSnoc(Without(Bucket(t, k), a.id), a, b.id); }
  }

  /** Two upserts of different ids commute, on every table, exactly when their keys differ. */
  lemma UpsertsCommuteIff(t: seq<Route>, a: Route, b: Route)
    requires a.id != b.id
    ensures Upsert(Upsert(t, a), b) == Upsert(Upsert(t, b), a) <==> KeyOf(a) != KeyOf(b)
  {
    var ab, ba := Upsert(Upsert(t, a), b), Upsert(Upsert(t, b), a);
    if KeyOf(a) != KeyOf(b) {
      forall k ensures Bucket(ab, k) == Bucket(ba, k) {
        UpsertTwiceBucket(t, a, b, k);
        UpsertTwiceBucket(t, b, a, k);
        WithoutCommutes(Bucket(t, k), a.id, b.id);
      }
      UpsertContents(Upsert(t, a), b, b);
      UpsertContents(Upsert(t, b), a, a);
      SortedUnique(ab, ba);
    } else {
      var k := KeyOf(a);
      UpsertTwiceBucket(t, a, b, k);
      UpsertTwiceBucket(t, b, a, k);
      WithoutCommutes(Bucket(t, k), a.id, b.id);
      var w := Without(Without(Bucket(t, k), a.id), b.id);
      assert Bucket(ab, k)[|w|] == a;
    }
  }
}
