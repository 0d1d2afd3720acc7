/** Pages of runtime logs (backend/search/loki_client.py). The store is what the query's label
    selectors match, newest first; it does not change while a reader pages through it. */
module LogPages {
  import opened Text

  datatype Log = Log(id: nat, timestamp: int, createdAt: int)

  datatype Order = Desc | Asc

  /** The decoded cursor. */
  datatype Cursor = Cursor(timestamp: int, order: Order)

  datatype Page = Page(hits: seq<Log>, next: Option<Cursor>, previous: Option<Cursor>)

  /** What stays the same from one page to the next: page size and the default time range. */
  datatype Reader = Reader(size: nat, start: int, end: int)

  predicate Newer(a: Log, b: Log) {
    a.timestamp > b.timestamp || (a.timestamp == b.timestamp && a.createdAt > b.createdAt)
  }

  ghost predicate Sorted(s: seq<Log>) {
    forall i, j :: 0 <= i < j < |s| ==> Newer(s[i], s[j])
  }

  /** How many logs are not older than `t`. */
  function From(s: seq<Log>, t: int): (n: nat)
    ensures n <= |s|
  {
    if s == [] || s[|s| - 1].timestamp >= t then |s| else From(s[..|s| - 1], t)
  }

  lemma {:induction false} FromIs(s: seq<Log>, t: int, n: nat)
    requires Sorted(s) && n <= |s|
    ensures From(s, t) == n <==> (n > 0 ==> s[n - 1].timestamp >= t) && (n < |s| ==> s[n].timestamp < t)
  {
    if s != [] && s[|s| - 1].timestamp < t {
      var m := |s| - 1;
      if n <= m { FromIs(s[..m], t, n); }
    }
  }

  // ---------------------------------------------------------------- the store's answers

  function Min(a: int, b: int): int { if a <= b then a else b }

  function Max(a: int, b: int): int { if a >= b then a else b }

  function Reverse(s: seq<Log>): seq<Log> {
    if s == [] then [] else [s[|s| - 1]] + Reverse(s[..|s| - 1])
  }

  /** A range query going backward: the newest `limit` logs with `start <= timestamp < end`. */
  function Backward(s: seq<Log>, limit: nat, start: int, end: int): seq<Log> {
    var a, b := From(s, end), From(s, start);
    if a <= b then s[a..Min(a + limit, b)] else []
  }

  /** A range query going forward: the oldest `limit` such logs, oldest first. */
  function Forward(s: seq<Log>, limit: nat, start: int, end: int): seq<Log> {
    var a, b := From(s, end), From(s, start);
    if a <= b then Reverse(s[Max(a, b - limit)..b]) else []
  }

  // ---------------------------------------------------------------- sorting the hits

  function Insert(x: Log, s: seq<Log>): seq<Log> {
    if s == [] then [x] else if Newer(s[0], x) then [s[0]] + Insert(x, s[1..]) else [x] + s
  }

  /** `sorted(hits, key=(timestamp, created_at), reverse=True)` */
  function NewestFirst(s: seq<Log>): seq<Log> {
    if s == [] then [] else Insert(s[0], NewestFirst(s[1..]))
  }

  lemma {:induction false} SortedStays(s: seq<Log>)
    requires Sorted(s)
    ensures NewestFirst(s) == s
  {
    if s != [] {
      SortedStays(s[1..]);
      assert s == [s[0]] + s[1..];
    }
  }

  lemma {:induction false} InsertOldest(x: Log, s: seq<Log>)
    requires forall i :: 0 <= i < |s| ==> Newer(s[i], x)
    ensures Insert(x, s) == s + [x]
  {
    if s != [] {
      InsertOldest(x, s[1..]);
      assert s == [s[0]] + s[1..];
    }
  }

  lemma {:induction false} ReverseIsSorted(s: seq<Log>)
    requires Sorted(s)
    ensures NewestFirst(Reverse(s)) == s
  {
    if s != [] {
      var n := |s| - 1;
      ReverseIsSorted(s[..n]);
      assert Reverse(s)[1..] == Reverse(s[..n]);
      InsertOldest(s[n], s[..n]);
    }
  }

  // ---------------------------------------------------------------- one page

  /** The stretch of the store a page shows. */
  function First(s: seq<Log>, r: Reader, c: Option<Cursor>): nat {
    match c
    case None => From(s, r.end)
    case Some(Cursor(t, Desc)) => From(s, t + 1)
    case Some(Cursor(t, Asc)) => Max(From(s, r.end), From(s, t) - r.size)
  }

  function PastLast(s: seq<Log>, r: Reader, c: Option<Cursor>): nat {
    match c
    case None => Min(From(s, r.end) + r.size, From(s, r.start))
    case Some(Cursor(t, Desc)) => Min(From(s, t + 1) + r.size, From(s, r.start))
    case Some(Cursor(t, Asc)) => From(s, t)
  }

  function Hits(s: seq<Log>, r: Reader, c: Option<Cursor>): seq<Log> {
    var a, b := First(s, r, c), PastLast(s, r, c);
    if a <= b <= |s| then s[a..b] else []
  }

  /** The time range a page's cursor selects. */
  predicate InWindow(x: Log, r: Reader, c: Option<Cursor>) {
    match c
    case None => r.start <= x.timestamp < r.end
    case Some(Cursor(t, Desc)) => r.start <= x.timestamp <= t
    case Some(Cursor(t, Asc)) => t <= x.timestamp < r.end
  }

  function WindowStart(r: Reader, c: Option<Cursor>): int {
    if c.Some? && c.value.order.Asc? then c.value.timestamp else r.start
  }

  function WindowEnd(r: Reader, c: Option<Cursor>): int {
    if c.Some? && c.value.order.Desc? then c.value.timestamp + 1 else r.end
  }

  lemma WindowIs(s: seq<Log>, r: Reader, c: Option<Cursor>, i: nat)
    requires Sorted(s) && i < |s|
    ensures InWindow(s[i], r, c) <==> From(s, WindowEnd(r, c)) <= i < From(s, WindowStart(r, c))
  {
    FromSplits(s, WindowStart(r, c));
    FromSplits(s, WindowEnd(r, c));
  }

  /** The page is the near end of the range's stretch of the store. */
  lemma HitsAre(s: seq<Log>, r: Reader, c: Option<Cursor>, a: nat, b: nat)
    requires a == From(s, WindowEnd(r, c)) && b == From(s, WindowStart(r, c))
    ensures a > b ==> Hits(s, r, c) == []
    ensures a <= b && (c.None? || c.value.order.Desc?) ==> Hits(s, r, c) == s[a..Min(a + r.size, b)]
    ensures a <= b && c.Some? && c.value.order.Asc? ==> Hits(s, r, c) == s[Max(a, b - r.size)..b]
  {}

  lemma StretchIsSorted(s: seq<Log>, a: nat, b: nat)
    requires Sorted(s) && a <= b <= |s|
    ensures Sorted(s[a..b])
  {
    forall i, j | 0 <= i < j < b - a ensures Newer(s[a..b][i], s[a..b][j]) { assert Newer(s[a + i], s[a + j]); }
  }

  lemma StretchInWindow(s: seq<Log>, r: Reader, c: Option<Cursor>, a: nat, b: nat, x: Log)
    requires Sorted(s) && From(s, WindowEnd(r, c)) <= a <= b <= From(s, WindowStart(r, c)) && x in s[a..b]
    ensures x in s && InWindow(x, r, c)
  {
    var i :| 0 <= i < b - a && s[a..b][i] == x;
    WindowIs(s, r, c, a + i);
  }

  /** Whatever lies in the store, a page shows at most `size` logs, newest first, all from its
      cursor's time range. */
  lemma HitsAreInWindow(s: seq<Log>, r: Reader, c: Option<Cursor>)
    requires Sorted(s)
    ensures Sorted(Hits(s, r, c)) && |Hits(s, r, c)| <= r.size
    ensures forall x :: x in Hits(s, r, c) ==> x in s && InWindow(x, r, c)
  {
    var a, b := From(s, WindowEnd(r, c)), From(s, WindowStart(r, c));
    HitsAre(s, r, c, a, b);
    if a <= b {
      var back := c.Some? && c.value.order.Asc?;
      var m, n := if back then Max(a, b - r.size) else a, if back then b else Min(a + r.size, b);
      StretchIsSorted(s, m, n);
      forall x | x in s[m..n] ensures x in s && InWindow(x, r, c) { StretchInWindow(s, r, c, m, n, x); }
    }
  }

  lemma StretchHas(s: seq<Log>, a: nat, b: nat, i: nat)
    requires a <= i < b <= |s|
    ensures s[i] in s[a..b]
  {
    assert s[a..b][i - a] == s[i];
  }

  lemma LeftOutIsOlder(s: seq<Log>, a: nat, b: nat, i: nat, size: nat, h: Log)
    requires Sorted(s) && a <= i < b <= |s| && s[i] !in s[a..Min(a + size, b)]
    ensures |s[a..Min(a + size, b)]| == size && (h in s[a..Min(a + size, b)] ==> Newer(h, s[i]))
  {
    var m := Min(a + size, b);
    if i < m { StretchHas(s, a, m, i); }
    if k :| 0 <= k < m - a && s[a..m][k] == h { assert s[a + k] == h; }
  }

  lemma LeftOutIsNewer(s: seq<Log>, a: nat, b: nat, i: nat, size: nat, h: Log)
    requires Sorted(s) && a <= i < b <= |s| && s[i] !in s[Max(a, b - size)..b]
    ensures |s[Max(a, b - size)..b]| == size && (h in s[Max(a, b - size)..b] ==> Newer(s[i], h))
  {
    var m := Max(a, b - size);
    if m <= i { StretchHas(s, m, b, i); }
    if k :| 0 <= k < b - m && s[m..b][k] == h { assert s[m + k] == h; }
  }

  /** If it leaves a log of that range out it is full, and the one left out is older than all it
      shows, or, going back, newer. */
  lemma HitsAreNearest(s: seq<Log>, r: Reader, c: Option<Cursor>, x: Log, h: Log)
    requires Sorted(s) && x in s && InWindow(x, r, c) && x !in Hits(s, r, c)
    ensures |Hits(s, r, c)| == r.size
    ensures h in Hits(s, r, c) ==> if c.Some? && c.value.order.Asc? then Newer(x, h) else Newer(h, x)
  {
    var a, b := From(s, WindowEnd(r, c)), From(s, WindowStart(r, c));
    var i :| 0 <= i < |s| && s[i] == x;
    WindowIs(s, r, c, i);
    HitsAre(s, r, c, a, b);
    if c.Some? && c.value.order.Asc? {
      LeftOutIsNewer(s, a, b, i, r.size, h);
    } else {
      LeftOutIsOlder(s, a, b, i, r.size, h);
    }
  }

  /** The newest log strictly older than the page's last. */
  function NextCursor(s: seq<Log>, hits: seq<Log>): Option<Cursor> {
    if hits == [] then None
    else
      var n := From(s, hits[|hits| - 1].timestamp);
      if n < |s| then Some(Cursor(s[n].timestamp, Desc)) else None
  }

  /** The oldest log strictly newer than the page's first. */
  function PreviousCursor(s: seq<Log>, hits: seq<Log>): Option<Cursor> {
    if hits == [] then None
    else
      var n := From(s, hits[0].timestamp + 1);
      if n > 0 then Some(Cursor(s[n - 1].timestamp, Asc)) else None
  }

  function PageAt(s: seq<Log>, r: Reader, c: Option<Cursor>): Page {
    var hits := Hits(s, r, c);
    Page(hits, NextCursor(s, hits), PreviousCursor(s, hits))
  }

  lemma BackwardIs(s: seq<Log>, r: Reader, c: Option<Cursor>)
    requires Sorted(s) && (c.None? || c.value.order.Desc?)
    ensures NewestFirst(Backward(s, r.size, r.start, if c.Some? then c.value.timestamp + 1 else r.end)) == Hits(s, r, c)
  {
    var end := if c.Some? then c.value.timestamp + 1 else r.end;
    assert Backward(s, r.size, r.start, end) == Hits(s, r, c);
    SortedStays(Hits(s, r, c));
  }

  lemma ForwardIs(s: seq<Log>, r: Reader, c: Option<Cursor>)
    requires Sorted(s) && c.Some? && c.value.order.Asc?
    ensures NewestFirst(Forward(s, r.size, c.value.timestamp, r.end)) == Hits(s, r, c)
  {
    ReverseIsSorted(Hits(s, r, c));
  }

  /** `search`, with the range and direction `_compute_filters` derives from the cursor. */
  method Search(s: seq<Log>, r: Reader, cursor: Option<Cursor>) returns (page: Page)
    requires Sorted(s)
    ensures page == PageAt(s, r, cursor)
  {
    var start, end, order := r.start, r.end, Desc;
    if cursor.Some? {
      order := cursor.value.order;
      if order == Desc {
        end := cursor.value.timestamp + 1;
      } else {
        start := cursor.value.timestamp;
      }
    }
    var streams := if order == Desc then Backward(s, r.size, start, end) else Forward(s, r.size, start, end);
    var hits := CollectHits(streams);
    if order == Desc { BackwardIs(s, r, cursor); } else { ForwardIs(s, r, cursor); }
    hits := NewestFirst(hits);
    page := WithCursors(s, hits);
  }

  method CollectHits(streams: seq<Log>) returns (hits: seq<Log>)
    ensures hits == streams
  {
    hits := [];
    for i := 0 to |streams|
      invariant hits == streams[..i]
    {
      hits := hits + [streams[i]];
    }
  }

  /** A cursor to the newest of the logs older than `last`; none if no log is older. */
  ghost predicate IsNewestBefore(s: seq<Log>, last: int, c: Option<Cursor>) {
    match c
    case None => forall x :: x in s ==> x.timestamp >= last
    case Some(Cursor(t, order)) =>
      && order.Desc? && t < last && (exists x :: x in s && x.timestamp == t)
      && forall x :: x in s && x.timestamp < last ==> x.timestamp <= t
  }

  /** A cursor to the oldest of the logs newer than `first`; none if no log is newer. */
  ghost predicate IsOldestAfter(s: seq<Log>, first: int, c: Option<Cursor>) {
    match c
    case None => forall x :: x in s ==> x.timestamp <= first
    case Some(Cursor(t, order)) =>
      && order.Asc? && t > first && (exists x :: x in s && x.timestamp == t)
      && forall x :: x in s && x.timestamp > first ==> x.timestamp >= t
  }

  /** The existence probe for older logs: no start bound, `end` is the last hit's timestamp. */
  method NextProbe(s: seq<Log>, last: int) returns (cursor: Option<Cursor>)
    requires Sorted(s)
    ensures IsNewestBefore(s, last, cursor)
  {
    FromSplits(s, last);
    var streams := s[From(s, last)..][..Min(1, |s| - From(s, last))];
    cursor := if |streams| > 0 then Some(Cursor(streams[0].timestamp, Desc)) else None;
  }

  /** The probe for newer logs: no end bound, `start` is just past the first hit's timestamp. */
  method PreviousProbe(s: seq<Log>, first: int) returns (cursor: Option<Cursor>)
    requires Sorted(s)
    ensures IsOldestAfter(s, first, cursor)
  {
    FromSplits(s, first + 1);
    var newer := s[..From(s, first + 1)];
    var streams := newer[Max(0, |newer| - 1)..];
    cursor := if |streams| > 0 then Some(Cursor(streams[0].timestamp, Asc)) else None;
  }

  /** Exactly the logs up to there are not older than `t`. */
  lemma FromSplits(s: seq<Log>, t: int)
    requires Sorted(s)
    ensures forall i :: 0 <= i < |s| ==> (s[i].timestamp >= t <==> i < From(s, t))
  {
    var n := From(s, t);
    FromIs(s, t, n);
    forall i | 0 <= i < |s| ensures s[i].timestamp >= t <==> i < n {
      assert i < n - 1 ==> Newer(s[i], s[n - 1]);
      assert n < i ==> Newer(s[n], s[i]);
    }
  }

  /** The page's cursors are what the probes look for. */
  lemma CursorsAre(s: seq<Log>, hits: seq<Log>, next: Option<Cursor>, previous: Option<Cursor>)
    requires Sorted(s) && hits != []
    ensures IsNewestBefore(s, hits[|hits| - 1].timestamp, next) <==> next == NextCursor(s, hits)
    ensures IsOldestAfter(s, hits[0].timestamp, previous) <==> previous == PreviousCursor(s, hits)
  {
    NewestBeforeIs(s, hits[|hits| - 1].timestamp, next);
    OldestAfterIs(s, hits[0].timestamp, previous);
  }

  lemma NewestBeforeIs(s: seq<Log>, last: int, c: Option<Cursor>)
    requires Sorted(s)
    ensures IsNewestBefore(s, last, c)
            <==> c == if From(s, last) < |s| then Some(Cursor(s[From(s, last)].timestamp, Desc)) else None
  {
    FromSplits(s, last);
    var n := From(s, last);
    if n < |s| {
      assert s[n] in s;
      assert forall i :: n < i < |s| ==> Newer(s[n], s[i]);
    }
  }

  lemma OldestAfterIs(s: seq<Log>, first: int, c: Option<Cursor>)
    requires Sorted(s)
    ensures IsOldestAfter(s, first, c) <==>
            c == if From(s, first + 1) > 0 then Some(Cursor(s[From(s, first + 1) - 1].timestamp, Asc)) else None
  {
    FromSplits(s, first + 1);
    var n := From(s, first + 1);
    if n > 0 {
      assert s[n - 1] in s;
      assert forall i :: 0 <= i < n - 1 ==> Newer(s[i], s[n - 1]);
    }
  }

  method WithCursors(s: seq<Log>, hits: seq<Log>) returns (page: Page)
    requires Sorted(s)
    ensures page == Page(hits, NextCursor(s, hits), PreviousCursor(s, hits))
  {
    var next, previous := None, None;
    if hits != [] {
      next := NextProbe(s, hits[|hits| - 1].timestamp);
      previous := PreviousProbe(s, hits[0].timestamp);
      CursorsAre(s, hits, next, previous);
    }
    page := Page(hits, next, previous);
  }

  // ---------------------------------------------------------------- walking down

  /** Every log lies in the reader's default time range. */
  ghost predicate InRange(s: seq<Log>, r: Reader) {
    forall i :: 0 <= i < |s| ==> r.start <= s[i].timestamp < r.end
  }

  lemma RangeIsAll(s: seq<Log>, r: Reader)
    requires Sorted(s) && InRange(s, r)
    ensures From(s, r.end) == 0 && From(s, r.start) == |s|
  {
    FromIs(s, r.end, 0);
    FromIs(s, r.start, |s|);
  }

  /** Cursor `c` stands at log `k`: that is the first one a page of `c` shows. */
  ghost predicate At(s: seq<Log>, r: Reader, c: Option<Cursor>, k: nat) {
    (c.None? || c.value.order.Desc?) && k <= |s| && First(s, r, c) == k
  }

  lemma PageFrom(s: seq<Log>, r: Reader, c: Option<Cursor>, k: nat)
    requires Sorted(s) && InRange(s, r) && At(s, r, c, k)
    ensures Hits(s, r, c) == s[k..Min(k + r.size, |s|)]
  {
    RangeIsAll(s, r);
  }

  /** The next cursor stands at the first log older than the page's last one, and its end bound
      is below the timestamp of every log shown so far. */
  lemma NextStands(s: seq<Log>, r: Reader, hits: seq<Log>)
    requires Sorted(s) && InRange(s, r) && hits != [] && NextCursor(s, hits).Some?
    ensures At(s, r, NextCursor(s, hits), From(s, hits[|hits| - 1].timestamp))
    ensures NextCursor(s, hits).value.timestamp + 1 <= hits[|hits| - 1].timestamp
  {
    var t := hits[|hits| - 1].timestamp;
    var n := From(s, t);
    FromIs(s, t, n);
    FromIs(s, s[n].timestamp + 1, n);
  }

  /** The cursor that leaves a page ending before log `m`. */
  lemma LeavingPage(s: seq<Log>, r: Reader, k: nat, m: nat)
    requires Sorted(s) && InRange(s, r) && k < m <= |s|
    ensures var next := NextCursor(s, s[k..m]);
            && (m == |s| ==> next.None?)
            && (next.Some? ==> m <= First(s, r, next) < |s| && At(s, r, next, First(s, r, next)))
            && (m < |s| ==> (next.Some? && First(s, r, next) == m <==> s[m - 1].timestamp > s[m].timestamp))
  {
    var hits := s[k..m];
    var t := hits[|hits| - 1].timestamp;
    assert t == s[m - 1].timestamp;
    var n := From(s, t);
    FromIs(s, t, n);
    FromIs(s, t, m);
    assert n < m - 1 ==> Newer(s[n], s[m - 1]);
    assert m < |s| ==> Newer(s[m - 1], s[m]);
    if n < |s| { NextStands(s, r, hits); }
  }

  lemma NextIsFurther(s: seq<Log>, r: Reader, c: Option<Cursor>, k: nat)
    requires Sorted(s) && InRange(s, r) && r.size > 0 && At(s, r, c, k)
    ensures var next := PageAt(s, r, c).next;
            && (k + r.size >= |s| ==> next.None?)
            && (next.Some? ==> k + r.size <= First(s, r, next) < |s| && At(s, r, next, First(s, r, next)))
            && (k + r.size < |s| ==>
                  (next.Some? && First(s, r, next) == k + r.size <==>
                     s[k + r.size - 1].timestamp > s[k + r.size].timestamp))
  {
    PageFrom(s, r, c, k);
    if k < |s| { LeavingPage(s, r, k, Min(k + r.size, |s|)); }
  }

  /** The logs a reader sees who follows `next` until there is none. */
  ghost function Walk(s: seq<Log>, r: Reader, c: Option<Cursor>, k: nat): seq<Log>
    requires Sorted(s) && InRange(s, r) && r.size > 0 && At(s, r, c, k)
    decreases |s| - k
  {
    var p := PageAt(s, r, c);
    NextIsFurther(s, r, c, k);
    if p.next.None? then p.hits else p.hits + Walk(s, r, p.next, First(s, r, p.next))
  }

  lemma {:induction false} WalkIsNoLonger(s: seq<Log>, r: Reader, c: Option<Cursor>, k: nat)
    requires Sorted(s) && InRange(s, r) && r.size > 0 && At(s, r, c, k)
    ensures |Walk(s, r, c, k)| <= |s| - k
    decreases |s| - k
  {
    var next := PageAt(s, r, c).next;
    PageFrom(s, r, c, k);
    NextIsFurther(s, r, c, k);
    if next.Some? { WalkIsNoLonger(s, r, next, First(s, r, next)); }
  }

  /** A walk with full pages from log `k` breaks just before log `m`. */
  predicate BreakAt(m: int, k: int, size: nat)
    requires size > 0
  {
    (m - k) % size == 0
  }

  /** No page break falls between two logs of one timestamp. */
  ghost predicate CleanBreaks(s: seq<Log>, size: nat, k: nat)
    requires size > 0
  {
    forall m :: k < m < |s| && BreakAt(m, k, size) ==> s[m - 1].timestamp > s[m].timestamp
  }

  lemma QuotientIs(x: int, n: nat, q: int, rest: nat)
    requires x == q * n + rest && rest < n
    ensures x % n == rest
  {
    var p := x / n;
    assert (q - p) * n == x % n - rest;
    assert q - p >= 1 ==> (q - p) * n >= n;
    assert q - p <= -1 ==> (q - p) * n <= 0 - n;
  }

  lemma ModShift(x: int, n: nat)
    requires n > 0
    ensures (x - n) % n == x % n
  {
    var q := x / n;
    assert x - n == (q - 1) * n + x % n;
    QuotientIs(x - n, n, q - 1, x % n);
  }

  lemma BreakShift(m: int, k: int, size: nat)
    requires size > 0 && k < m
    ensures BreakAt(m, k, size) <==> m == k + size || (m > k + size && BreakAt(m, k + size, size))
  {
    ModShift(m - k, size);
    assert m - k - size == m - (k + size);
    if m - k < size { QuotientIs(m - k, size, 0, m - k); }
  }

  lemma BreaksStep(s: seq<Log>, size: nat, k: nat)
    requires size > 0
    ensures k + size >= |s| ==> CleanBreaks(s, size, k)
    ensures k + size < |s| ==>
              (CleanBreaks(s, size, k) <==>
                 s[k + size - 1].timestamp > s[k + size].timestamp && CleanBreaks(s, size, k + size))
  {
    forall m | k < m < |s|
      ensures BreakAt(m, k, size) <==> m == k + size || (m > k + size && BreakAt(m, k + size, size))
    {
      BreakShift(m, k, size);
    }
    if k + size < |s| { assert BreakAt(k + size, k, size); }
  }

  /** A clean break leads to the very next log. */
  lemma CleanStep(s: seq<Log>, r: Reader, c: Option<Cursor>, k: nat) returns (next: Option<Cursor>)
    requires Sorted(s) && InRange(s, r) && r.size > 0 && At(s, r, c, k)
    requires k + r.size < |s| && s[k + r.size - 1].timestamp > s[k + r.size].timestamp
    ensures At(s, r, next, k + r.size)
    ensures Walk(s, r, c, k) == s[k..k + r.size] + Walk(s, r, next, k + r.size)
  {
    PageFrom(s, r, c, k);
    NextIsFurther(s, r, c, k);
    next := PageAt(s, r, c).next;
  }

  /** Any other break skips some logs for good; without a break the page is the last. */
  lemma LastStep(s: seq<Log>, r: Reader, c: Option<Cursor>, k: nat)
    requires Sorted(s) && InRange(s, r) && r.size > 0 && At(s, r, c, k)
    ensures k + r.size >= |s| ==> Walk(s, r, c, k) == s[k..]
    ensures k + r.size < |s| && s[k + r.size - 1].timestamp <= s[k + r.size].timestamp ==> |Walk(s, r, c, k)| < |s| - k
  {
    PageFrom(s, r, c, k);
    NextIsFurther(s, r, c, k);
    var next := PageAt(s, r, c).next;
    if next.Some? { WalkIsNoLonger(s, r, next, First(s, r, next)); }
  }

  /** Following `next` from log `k` on shows every older log exactly once, newest first, exactly
      when no page break splits logs of one timestamp. */
  lemma {:induction false} WalkVisitsAllIff(s: seq<Log>, r: Reader, c: Option<Cursor>, k: nat)
    requires Sorted(s) && InRange(s, r) && r.size > 0 && At(s, r, c, k)
    ensures Walk(s, r, c, k) == s[k..] <==> CleanBreaks(s, r.size, k)
    decreases |s| - k
  {
    var m := k + r.size;
    BreaksStep(s, r.size, k);
    if m < |s| && s[m - 1].timestamp > s[m].timestamp {
      var next := CleanStep(s, r, c, k);
      WalkVisitsAllIff(s, r, next, m);
      RestDecides(s, k, m, Walk(s, r, next, m));
    } else {
      LastStep(s, r, c, k);
    }
  }

  lemma RestDecides(s: seq<Log>, k: nat, m: nat, rest: seq<Log>)
    requires k <= m <= |s|
    ensures s[k..m] + rest == s[k..] <==> rest == s[m..]
  {
    assert s[k..] == s[k..m] + s[m..];
    assert (s[k..m] + rest)[m - k..] == rest;
  }

  ghost predicate DistinctTimes(s: seq<Log>) {
    forall i, j :: 0 <= i < j < |s| ==> s[i].timestamp > s[j].timestamp
  }

  /** With distinct timestamps a reader who starts at the first page and follows `next` sees the
      whole store, whatever the page size. */
  lemma WalkVisitsAll(s: seq<Log>, r: Reader)
    requires Sorted(s) && InRange(s, r) && r.size > 0 && DistinctTimes(s)
    ensures At(s, r, None, 0) && Walk(s, r, None, 0) == s
  {
    RangeIsAll(s, r);
    WalkVisitsAllIff(s, r, None, 0);
    assert s[0..] == s;
  }

  /** Two logs of one timestamp on either side of a page break: the walk ends after the first
      page and the second log is never shown. */
  lemma TieIsSkipped()
    ensures var s := [Log(0, 5, 2), Log(1, 5, 1)];
            var r := Reader(1, 0, 10);
            Sorted(s) && InRange(s, r) && At(s, r, None, 0) && Walk(s, r, None, 0) == [s[0]] && !CleanBreaks(s, 1, 0)
  {
    var s := [Log(0, 5, 2), Log(1, 5, 1)];
    var r := Reader(1, 0, 10);
    RangeIsAll(s, r);
    PageFrom(s, r, None, 0);
    FromIs(s, 5, 2);
    assert s[0..1] == [s[0]];
    assert BreakAt(1, 0, 1);
  }

  /** Each page's end bound is lower than the one before, so the walk ends. */
  lemma EndBoundFalls(s: seq<Log>, r: Reader, c: Option<Cursor>, k: nat)
    requires Sorted(s) && InRange(s, r) && r.size > 0 && At(s, r, c, k) && PageAt(s, r, c).next.Some?
    ensures PageAt(s, r, c).next.value.timestamp + 1 < if c.Some? then c.value.timestamp + 1 else r.end
  {
    PageFrom(s, r, c, k);
    var hits := Hits(s, r, c);
    NextStands(s, r, hits);
    var e := if c.Some? then c.value.timestamp + 1 else r.end;
    FromIs(s, e, k);
    assert hits[|hits| - 1] == s[k + |hits| - 1];
    assert |hits| > 1 ==> Newer(s[k], s[k + |hits| - 1]);
  }

  // ---------------------------------------------------------------- there and back

  lemma DistinctFrom(s: seq<Log>, k: nat)
    requires Sorted(s) && DistinctTimes(s) && k < |s|
    ensures From(s, s[k].timestamp) == k + 1 && From(s, s[k].timestamp + 1) == k
  {
    FromIs(s, s[k].timestamp, k + 1);
    FromIs(s, s[k].timestamp + 1, k);
  }

  /** A page with hits is the stretch of the store its cursor selects. It is full unless it ends
      the store or, going back, begins it. */
  lemma PageIs(s: seq<Log>, r: Reader, c: Option<Cursor>)
    requires Sorted(s) && InRange(s, r) && r.size > 0 && Hits(s, r, c) != []
    ensures var a, b := First(s, r, c), PastLast(s, r, c);
            && a < b <= |s| && Hits(s, r, c) == s[a..b]
            && (b < |s| ==> a == Max(0, b - r.size)) && (a > 0 ==> b == Min(a + r.size, |s|))
  {
    RangeIsAll(s, r);
  }

  /** The cursor to the logs older than those of one timestamp, and its page. */
  lemma OlderPage(s: seq<Log>, r: Reader, n: nat)
    requires Sorted(s) && InRange(s, r) && r.size > 0 && 0 < n < |s| && s[n - 1].timestamp > s[n].timestamp
    ensures Hits(s, r, Some(Cursor(s[n].timestamp, Desc))) == s[n..Min(n + r.size, |s|)]
    ensures PreviousCursor(s, s[n..Min(n + r.size, |s|)]) == Some(Cursor(s[n - 1].timestamp, Asc))
  {
    RangeIsAll(s, r);
    FromIs(s, s[n].timestamp + 1, n);
  }

  /** The cursor to the logs newer than those of one timestamp, and its page. */
  lemma NewerPage(s: seq<Log>, r: Reader, n: nat)
    requires Sorted(s) && InRange(s, r) && r.size > 0 && 0 < n < |s| && s[n - 1].timestamp > s[n].timestamp
    ensures Hits(s, r, Some(Cursor(s[n - 1].timestamp, Asc))) == s[Max(0, n - r.size)..n]
    ensures NextCursor(s, s[Max(0, n - r.size)..n]) == Some(Cursor(s[n].timestamp, Desc))
  {
    RangeIsAll(s, r);
    FromIs(s, s[n - 1].timestamp, n);
    assert s[Max(0, n - r.size)..n][n - Max(0, n - r.size) - 1] == s[n - 1];
  }

  /** Two pages are the same exactly when they are the same stretch of the store. */
  lemma SamePageIff(s: seq<Log>, r: Reader, c: Option<Cursor>, c': Option<Cursor>, a: nat, b: nat, a': nat, b': nat)
    requires Sorted(s) && a < b <= |s| && a' < b' <= |s|
    requires Hits(s, r, c) == s[a..b] && Hits(s, r, c') == s[a'..b']
    ensures PageAt(s, r, c) == PageAt(s, r, c') <==> a == a' && b == b'
  {
    if s[a..b] == s[a'..b'] {
      assert s[a] == s[a..b][0] == s[a'];
      assert b - a == |s[a..b]| == b' - a';
    }
  }

  /** Where the walk down goes on: behind all logs of the last one's timestamp. */
  lemma OlderStart(s: seq<Log>, a: nat, b: nat) returns (n: nat)
    requires Sorted(s) && a < b <= |s| && NextCursor(s, s[a..b]).Some?
    ensures b <= n < |s| && s[n - 1].timestamp == s[b - 1].timestamp > s[n].timestamp
    ensures NextCursor(s, s[a..b]) == Some(Cursor(s[n].timestamp, Desc))
    ensures n == b <==> s[b - 1].timestamp > s[b].timestamp
  {
    var t := s[b - 1].timestamp;
    assert s[a..b][b - a - 1] == s[b - 1];
    n := From(s, t);
    FromSplits(s, t);
    assert b - 1 < n - 1 ==> Newer(s[b - 1], s[n - 1]);
  }

  /** Where the walk up goes on: before all logs of the first one's timestamp. */
  lemma NewerEnd(s: seq<Log>, a: nat, b: nat) returns (n: nat)
    requires Sorted(s) && a < b <= |s| && PreviousCursor(s, s[a..b]).Some?
    ensures 0 < n <= a && s[n - 1].timestamp > s[n].timestamp
    ensures PreviousCursor(s, s[a..b]) == Some(Cursor(s[n - 1].timestamp, Asc))
    ensures n == a <==> s[a - 1].timestamp > s[a].timestamp
  {
    n := From(s, s[a].timestamp + 1);
    FromSplits(s, s[a].timestamp + 1);
    assert s[a..b][0] == s[a];
  }

  /** Going `next` and then `previous` shows the page just left exactly when no older log shares
      the timestamp of its last one: otherwise it ends with the last log of that timestamp. */
  lemma NextThenPreviousIff(s: seq<Log>, r: Reader, c: Option<Cursor>)
    requires Sorted(s) && InRange(s, r) && r.size > 0 && PageAt(s, r, c).next.Some?
    ensures var b, back := PastLast(s, r, c), PageAt(s, r, PageAt(s, r, c).next).previous;
            && 0 < b < |s| && back.Some?
            && (PageAt(s, r, back) == PageAt(s, r, c) <==> s[b - 1].timestamp > s[b].timestamp)
  {
    PageIs(s, r, c);
    var a, b := First(s, r, c), PastLast(s, r, c);
    var n := OlderStart(s, a, b);
    OlderPage(s, r, n);
    NewerPage(s, r, n);
    SamePageIff(s, r, Some(Cursor(s[n - 1].timestamp, Asc)), c, Max(0, n - r.size), n, a, b);
  }

  /** Three logs, the first two of one timestamp, one to a page: `next` skips the second, and
      `previous` comes back to it. */
  lemma TieIsComeBackTo()
    ensures var s := [Log(0, 5, 2), Log(1, 5, 1), Log(2, 3, 1)];
            var r := Reader(1, 0, 10);
            var p := PageAt(s, r, None);
            && Sorted(s) && InRange(s, r) && p.next.Some?
            && PageAt(s, r, p.next).previous.Some? && PageAt(s, r, PageAt(s, r, p.next).previous) != p
  {
    var s := [Log(0, 5, 2), Log(1, 5, 1), Log(2, 3, 1)];
    var r := Reader(1, 0, 10);
    RangeIsAll(s, r);
    PageFrom(s, r, None, 0);
    FromIs(s, 5, 2);
    NextThenPreviousIff(s, r, None);
  }

  lemma UpAndDown(s: seq<Log>, r: Reader, c: Option<Cursor>, n: nat) returns (m: nat)
    requires Sorted(s) && InRange(s, r) && r.size > 0 && 0 < n < |s| && s[n - 1].timestamp > s[n].timestamp
    requires PageAt(s, r, c).previous == Some(Cursor(s[n - 1].timestamp, Asc))
    ensures m == Min(n + r.size, |s|)
    ensures var on := Some(Cursor(s[n].timestamp, Desc));
            PageAt(s, r, PageAt(s, r, c).previous).next == on && Hits(s, r, on) == s[n..m]
  {
    m := Min(n + r.size, |s|);
    NewerPage(s, r, n);
    OlderPage(s, r, n);
  }

  /** Going `previous` and then `next` shows the page just left exactly when no newer log shares
      the timestamp of its first one. */
  lemma PreviousThenNextIff(s: seq<Log>, r: Reader, c: Option<Cursor>)
    requires Sorted(s) && InRange(s, r) && r.size > 0 && PageAt(s, r, c).previous.Some?
    ensures var a, on := First(s, r, c), PageAt(s, r, PageAt(s, r, c).previous).next;
            && 0 < a < |s| && on.Some?
            && (PageAt(s, r, on) == PageAt(s, r, c) <==> s[a - 1].timestamp > s[a].timestamp)
  {
    PageIs(s, r, c);
    var a, b := First(s, r, c), PastLast(s, r, c);
    var n := NewerEnd(s, a, b);
    var m := UpAndDown(s, r, c, n);
    SamePageIff(s, r, Some(Cursor(s[n].timestamp, Desc)), c, n, m, a, b);
  }

  /** On a page reached by `next`, and so on every page of a walk down, it always does. */
  lemma PreviousOfNext(s: seq<Log>, r: Reader, c: Option<Cursor>)
    requires Sorted(s) && InRange(s, r) && r.size > 0 && PageAt(s, r, c).previous.Some?
    requires c.None? || c.value.order.Desc?
    ensures var on := PageAt(s, r, PageAt(s, r, c).previous).next; PageAt(s, r, on) == PageAt(s, r, c)
  {
    PreviousThenNextIff(s, r, c);
    FromSplits(s, if c.Some? then c.value.timestamp + 1 else r.end);
  }

  // ---------------------------------------------------------------- context of one log

  lemma {:induction false} InsertBetween(x: Log, a: seq<Log>, b: seq<Log>)
    requires (forall i :: 0 <= i < |a| ==> Newer(a[i], x)) && (b != [] ==> Newer(x, b[0]))
    ensures Insert(x, a + b) == a + [x] + b
  {
    if a == [] {
      assert a + b == b;
    } else {
      assert (a + b)[1..] == a[1..] + b && (a + b)[0] == a[0];
      InsertBetween(x, a[1..], b);
    }
  }

  /** Sorting the older half and the reversed newer half puts them in the store's order. */
  lemma {:induction false} HalvesSort(newer: seq<Log>, older: seq<Log>)
    requires Sorted(newer + older)
    ensures NewestFirst(older + Reverse(newer)) == newer + older
  {
    if older == [] {
      assert newer + older == newer && older + Reverse(newer) == Reverse(newer);
      ReverseIsSorted(newer);
    } else {
      HalvesTail(newer, older);
      HalvesSort(newer, older[1..]);
      assert (older + Reverse(newer))[1..] == older[1..] + Reverse(newer);
      InsertBetween(older[0], newer, older[1..]);
      assert newer + [older[0]] + older[1..] == newer + older;
    }
  }

  lemma HalvesTail(newer: seq<Log>, older: seq<Log>)
    requires Sorted(newer + older) && older != []
    ensures Sorted(newer + older[1..])
    ensures forall i :: 0 <= i < |newer| ==> Newer(newer[i], older[0])
    ensures older[1..] != [] ==> Newer(older[0], older[1..][0])
  {
    var all, n := newer + older, |newer|;
    assert all[n] == older[0] && (|older| > 1 ==> all[n + 1] == older[1]);
    forall i | 0 <= i < n ensures Newer(newer[i], older[0]) { assert Newer(all[i], all[n]); }
    var rest := newer + older[1..];
    forall i, j | 0 <= i < j < |rest| ensures Newer(rest[i], rest[j]) {
      assert rest[i] == all[if i < n then i else i + 1] && rest[j] == all[if j < n then j else j + 1];
    }
  }

  /** The stretch of the store around `timestamp`: `lines + 1` logs down to it, `lines` below. */
  function ContextStart(s: seq<Log>, timestamp: int, lines: nat): nat {
    Max(0, From(s, timestamp) - (lines + 1))
  }

  function ContextEnd(s: seq<Log>, timestamp: int, lines: nat): nat {
    Min(From(s, timestamp) + lines, |s|)
  }

  /** What the two queries of `get_context` return, newest first. */
  lemma ContextHits(s: seq<Log>, timestamp: int, lines: nat)
    requires Sorted(s)
    ensures var n, a, b := From(s, timestamp), ContextStart(s, timestamp, lines), ContextEnd(s, timestamp, lines);
            a <= n <= b <= |s| && |Reverse(s[a..n])| == n - a && NewestFirst(s[n..b] + Reverse(s[a..n])) == s[a..b]
  {
    var n, a, b := From(s, timestamp), ContextStart(s, timestamp, lines), ContextEnd(s, timestamp, lines);
    ReverseLength(s[a..n]);
    assert s[a..n] + s[n..b] == s[a..b];
    HalvesSort(s[a..n], s[n..b]);
  }

  /** `get_context` returns one stretch of the store, oldest first, without gap or repeat. */
  method GetContext(s: seq<Log>, timestamp: int, lines: nat) returns (hits: seq<Log>, beforeCount: nat, afterCount: nat)
    requires Sorted(s)
    ensures var page := s[ContextStart(s, timestamp, lines)..ContextEnd(s, timestamp, lines)];
            multiset(hits) == multiset(page) && OldestFirst(hits)
    ensures beforeCount == ContextEnd(s, timestamp, lines) - From(s, timestamp)
    ensures afterCount == From(s, timestamp) - ContextStart(s, timestamp, lines)
  {
    ContextHits(s, timestamp, lines);
    var before := CollectHits(s[From(s, timestamp)..Min(From(s, timestamp) + lines, |s|)]);
    beforeCount := |before|;
    var after := CollectHits(Reverse(s[Max(0, From(s, timestamp) - (lines + 1))..From(s, timestamp)]));
    hits := before + after;
    afterCount := |hits| - beforeCount;
    hits := Reverse(NewestFirst(hits));
    ReverseTurns(s[ContextStart(s, timestamp, lines)..ContextEnd(s, timestamp, lines)]);
  }

  ghost predicate OldestFirst(hits: seq<Log>) {
    forall i, j :: 0 <= i < j < |hits| ==> Newer(hits[j], hits[i])
  }

  lemma {:induction false} ReverseAt(s: seq<Log>, k: nat)
    requires k < |s|
    ensures |Reverse(s)| == |s| && Reverse(s)[k] == s[|s| - 1 - k]
  {
    if |s| > 1 { ReverseAt(s[..|s| - 1], if k > 0 then k - 1 else 0); }
  }

  lemma {:induction false} ReverseHolds(s: seq<Log>)
    ensures multiset(Reverse(s)) == multiset(s)
  {
    if s != [] {
      var n := |s| - 1;
      ReverseHolds(s[..n]);
      assert s == s[..n] + [s[n]];
    }
  }

  lemma ReverseTurns(s: seq<Log>)
    requires Sorted(s)
    ensures multiset(Reverse(s)) == multiset(s) && OldestFirst(Reverse(s))
  {
    ReverseHolds(s);
    ReverseLength(s);
    var r := Reverse(s);
    forall i, j | 0 <= i < j < |r| ensures Newer(r[j], r[i]) {
      ReverseAt(s, i);
      ReverseAt(s, j);
    }
  }

  lemma {:induction false} ReverseLength(s: seq<Log>)
    ensures |Reverse(s)| == |s|
  {
    if s != [] { ReverseLength(s[..|s| - 1]); }
  }

  /** The context of a log of the store is centred on it. */
  lemma ContextIsCentred(s: seq<Log>, p: nat, lines: nat)
    requires Sorted(s) && DistinctTimes(s) && p < |s|
    ensures ContextStart(s, s[p].timestamp, lines) == Max(0, p - lines)
    ensures ContextEnd(s, s[p].timestamp, lines) == Min(p + 1 + lines, |s|)
  {
    DistinctFrom(s, p);
  }
}
