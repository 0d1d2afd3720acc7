/** Any number of workers edit the proxy's one route list with GET, PATCH and DELETE under
    `If-Match` (sections 13.1.1 and 15.5.13 of RFC 9110). Every server request is one atomic
    step; an action that is not enabled does nothing, so every list of actions is a run. */
module ProxyServer {
  import opened Text
  import opened RouteTable

  const MAX_ETAG_ATTEMPTS: nat := 3

  /** An etag is a collision-free digest of the resource it was issued for. */
  datatype Etag = Digest(content: seq<Route>)

  // ---------------------------------------------------------------- committed writes

  datatype Write = Put(route: Route) | Drop(id: string) | Replace(route: Route)

  datatype Entry = Entry(client: nat, write: Write)

  /** The route with this id, as a list of at most one when ids are unique. */
  function Lookup(t: seq<Route>, id: string): seq<Route> {
    if t == [] then [] else Plus(Lookup(t[..|t| - 1], id), t[|t| - 1], t[|t| - 1].id == id)
  }

  /** PATCH of one route by its id: the route changes where it stands. */
  function InPlace(t: seq<Route>, r: Route): (u: seq<Route>)
    ensures |u| == |t|
    ensures forall i :: 0 <= i < |t| ==> u[i] == if t[i].id == r.id then r else t[i]
  {
    if t == [] then [] else [if t[0].id == r.id then r else t[0]] + InPlace(t[1..], r)
  }

  function Applied(t: seq<Route>, w: Write): seq<Route> {
    match w
    case Put(r) => Upsert(t, r)
    case Drop(id) => Without(t, id)
    case Replace(r) => InPlace(t, r)
  }

  /** The table after the writes of `log`, one after the other, from table `t0`. */
  function Fold(t0: seq<Route>, log: seq<Entry>): seq<Route> {
    if log == [] then t0 else Applied(Fold(t0, log[..|log| - 1]), log[|log| - 1].write)
  }

  // ---------------------------------------------------------------- the machine

  datatype Call =
    | UpsertUrl(route: Route)
    | RemoveUrl(id: string)
    | CleanUp(prefix: string, keep: set<string>)
    | UpsertRegistry(route: Route)

  datatype Pc =
    | Idle
    | Probing(route: Route)
    | Reading(call: Call, attempts: nat)
    | Writing(call: Call, attempts: nat, etag: Etag)
    | Sweeping(ids: seq<string>)
    | Returned
    | Raised(call: Call)

  /** `started`, `readAt` and `refusals` only observe: the length of the log when the call
      began and when it last read, and the log interval each 412 of the call spans. */
  datatype Client = Client(pc: Pc, started: nat, readAt: nat, refusals: seq<(nat, nat)>)

  datatype State = State(routes: seq<Route>, log: seq<Entry>, clients: seq<Client>)

  datatype Action = Begin(client: nat, call: Call) | Act(client: nat)

  function SeqOf(n: nat, x: Client): (s: seq<Client>)
    ensures |s| == n && forall i :: 0 <= i < n ==> s[i] == x
  {
    if n == 0 then [] else SeqOf(n - 1, x) + [x]
  }

  function Init(t0: seq<Route>, n: nat): State {
    State(t0, [], SeqOf(n, Client(Idle, 0, 0, [])))
  }

  function At(s: State, c: nat, pc: Pc): State
    requires c < |s.clients|
  {
    s.(clients := s.clients[c := s.clients[c].(pc := pc)])
  }

  function Read(s: State, c: nat, pc: Pc): State
    requires c < |s.clients|
  {
    s.(clients := s.clients[c := s.clients[c].(pc := pc, readAt := |s.log|)])
  }

  function Commit(s: State, c: nat, w: Write, routes: seq<Route>, pc: Pc): State
    requires c < |s.clients|
  {
    State(routes, s.log + [Entry(c, w)], s.clients[c := s.clients[c].(pc := pc)])
  }

  /** 412: try again from the GET, or give up after the last attempt. */
  function Refused(s: State, c: nat, call: Call, attempts: nat): State
    requires c < |s.clients|
  {
    var cl := s.clients[c];
    var pc := if attempts < MAX_ETAG_ATTEMPTS then Reading(call, attempts) else Raised(call);
    s.(clients := s.clients[c := cl.(pc := pc, refusals := cl.refusals + [(cl.readAt, |s.log|)])])
  }

  function StaleIds(t: seq<Route>, prefix: string, keep: set<string>): seq<string> {
    if t == [] then []
    else (if prefix <= t[0].id && t[0].id !in keep then [t[0].id] else []) + StaleIds(t[1..], prefix, keep)
  }

  function ReadStep(s: State, c: nat, call: Call, attempts: nat): State
    requires c < |s.clients|
  {
    match call
    case UpsertUrl(_) => Read(s, c, Writing(call, attempts + 1, Digest(s.routes)))
    case RemoveUrl(id) =>
      if Lookup(s.routes, id) == [] then At(s, c, Returned)
      else Read(s, c, Writing(call, attempts + 1, Digest(Lookup(s.routes, id))))
    case CleanUp(prefix, keep) => At(s, c, Sweeping(StaleIds(s.routes, prefix, keep)))
    case UpsertRegistry(_) => s
  }

  function WriteStep(s: State, c: nat, call: Call, attempts: nat, etag: Etag): State
    requires c < |s.clients|
  {
    match call
    case UpsertUrl(r) =>
      if Digest(s.routes) == etag then
        Commit(s, c, Put(r), Sort(Without(etag.content, r.id) + [r]), Returned)
      else Refused(s, c, call, attempts)
    case RemoveUrl(id) =>
      if Lookup(s.routes, id) == [] then At(s, c, Returned)
      else if Digest(Lookup(s.routes, id)) == etag then Commit(s, c, Drop(id), Without(s.routes, id), Returned)
      else Refused(s, c, call, attempts)
    case CleanUp(_, _) => s
    case UpsertRegistry(r) =>
      if Lookup(s.routes, r.id) == [] then At(s, c, Returned)
      else if Digest(Lookup(s.routes, r.id)) == etag then Commit(s, c, Replace(r), InPlace(s.routes, r), Returned)
      else At(s, c, if attempts < MAX_ETAG_ATTEMPTS then Writing(call, attempts + 1, etag) else Raised(call))
  }

  function Step(s: State, c: nat): State
    requires c < |s.clients|
  {
    match s.clients[c].pc
    case Probing(r) =>
      if Lookup(s.routes, r.id) == [] then At(s, c, Reading(UpsertUrl(r), 0))
      else Read(s, c, Writing(UpsertRegistry(r), 1, Digest(Lookup(s.routes, r.id))))
    case Reading(call, attempts) => ReadStep(s, c, call, attempts)
    case Writing(call, attempts, etag) => WriteStep(s, c, call, attempts, etag)
    case Sweeping(ids) =>
      if ids == [] then At(s, c, Returned)
      else if Lookup(s.routes, ids[0]) == [] then At(s, c, Sweeping(ids[1..]))
      else Commit(s, c, Drop(ids[0]), Without(s.routes, ids[0]), Sweeping(ids[1..]))
    case _ => s
  }

  function FirstPc(call: Call): Pc {
    if call.UpsertRegistry? then Probing(call.route) else Reading(call, 0)
  }

  function Next(s: State, a: Action): State {
    if a.client >= |s.clients| then s
    else match a
      case Begin(c, call) =>
        var pc := s.clients[c].pc;
        if pc.Idle? || pc.Returned? || pc.Raised? then
          s.(clients := s.clients[c := Client(FirstPc(call), |s.log|, |s.log|, [])])
        else s
      case Act(c) => Step(s, c)
  }

  function Run(s: State, actions: seq<Action>): State {
    if actions == [] then s else Next(Run(s, actions[..|actions| - 1]), actions[|actions| - 1])
  }

  // ---------------------------------------------------------------- the invariant

  ghost predicate NoneBy(c: nat, log: seq<Entry>, lo: nat, hi: nat)
    requires hi <= |log|
  {
    forall i :: lo <= i < hi ==> log[i].client != c
  }

  /** What a call reads and sends an etag of: the whole table, or the route of one id. */
  function View(view: Option<string>, t: seq<Route>): seq<Route> {
    if view.Some? then Lookup(t, view.value) else t
  }

  function ViewOf(call: Call): Option<string> {
    if call.RemoveUrl? then Some(call.id) else None
  }

  function PcView(pc: Pc): Option<string> {
    match pc
    case Reading(call, _) => ViewOf(call)
    case Writing(call, _, _) => ViewOf(call)
    case Raised(call) => ViewOf(call)
    case _ => None
  }

  /** A 412 spans an interval in which only others wrote, and in which what was read changed. */
  ghost predicate RefusalOk(t0: seq<Route>, log: seq<Entry>, c: nat, view: Option<string>, span: (nat, nat)) {
    && span.0 <= span.1 <= |log|
    && NoneBy(c, log, span.0, span.1)
    && View(view, Fold(t0, log[..span.0])) != View(view, Fold(t0, log[..span.1]))
  }

  function EndOf(refusals: seq<(nat, nat)>, started: nat): nat {
    if refusals == [] then started else refusals[|refusals| - 1].1
  }

  /** The spans follow one another, from `started` on and within the first `len` entries. */
  ghost predicate SpansOk(len: nat, started: nat, spans: seq<(nat, nat)>) {
    if spans == [] then started <= len
    else
      var n := |spans| - 1;
      SpansOk(len, started, spans[..n]) && EndOf(spans[..n], started) <= spans[n].0 <= spans[n].1 <= len
  }

  /** The refusals of one call: their spans follow one another, from where the call began. */
  ghost predicate RefusalsOk(t0: seq<Route>, log: seq<Entry>, c: nat, view: Option<string>,
                             started: nat, refusals: seq<(nat, nat)>) {
    && SpansOk(|log|, started, refusals)
    && forall k :: 0 <= k < |refusals| ==> RefusalOk(t0, log, c, view, refusals[k])
  }

  ghost predicate Retried(call: Call) { call.UpsertUrl? || call.RemoveUrl? }

  ghost predicate EtagFrom(call: Call, etag: Etag, t: seq<Route>) {
    Retried(call) ==> etag.content == View(ViewOf(call), t)
  }

  ghost predicate PcOk(t0: seq<Route>, log: seq<Entry>, c: nat, cl: Client) {
    match cl.pc
    case Reading(call, n) => |cl.refusals| == n < MAX_ETAG_ATTEMPTS
    case Writing(call, n, etag) => Retried(call) ==>
      && |cl.refusals| + 1 == n <= MAX_ETAG_ATTEMPTS
      && EndOf(cl.refusals, cl.started) <= cl.readAt <= |log|
      && EtagFrom(call, etag, Fold(t0, log[..cl.readAt]))
      && NoneBy(c, log, cl.readAt, |log|)
    case Probing(_) => cl.refusals == []
    case Raised(call) => Retried(call) ==> |cl.refusals| == MAX_ETAG_ATTEMPTS
    case _ => true
  }

  ghost predicate ClientOk(t0: seq<Route>, log: seq<Entry>, c: nat, cl: Client) {
    RefusalsOk(t0, log, c, PcView(cl.pc), cl.started, cl.refusals) && PcOk(t0, log, c, cl)
  }

  ghost predicate Inv(t0: seq<Route>, s: State) {
    && s.routes == Fold(t0, s.log)
    && forall c :: 0 <= c < |s.clients| ==> ClientOk(t0, s.log, c, s.clients[c])
  }

  lemma FoldSnoc(t0: seq<Route>, log: seq<Entry>, e: Entry)
    ensures Fold(t0, log + [e]) == Applied(Fold(t0, log), e.write)
  {
    assert (log + [e])[..|log|] == log;
  }

  lemma {:induction false} SpansGrow(len: nat, started: nat, spans: seq<(nat, nat)>)
    requires SpansOk(len, started, spans)
    ensures SpansOk(len + 1, started, spans)
  {
    if spans != [] { SpansGrow(len, started, spans[..|spans| - 1]); }
  }

  lemma RefusalGrows(t0: seq<Route>, log: seq<Entry>, e: Entry, c: nat, view: Option<string>, span: (nat, nat))
    requires RefusalOk(t0, log, c, view, span)
    ensures RefusalOk(t0, log + [e], c, view, span)
  {
    assert (log + [e])[..span.0] == log[..span.0];
    assert (log + [e])[..span.1] == log[..span.1];
  }

  lemma RefusalsGrow(t0: seq<Route>, log: seq<Entry>, e: Entry, c: nat, view: Option<string>,
                     started: nat, refusals: seq<(nat, nat)>)
    requires RefusalsOk(t0, log, c, view, started, refusals)
    ensures RefusalsOk(t0, log + [e], c, view, started, refusals)
  {
    SpansGrow(|log|, started, refusals);
    forall k | 0 <= k < |refusals| ensures RefusalOk(t0, log + [e], c, view, refusals[k]) {
      RefusalGrows(t0, log, e, c, view, refusals[k]);
    }
  }

  /** If the route of one id changed, so did the table. */
  lemma RefusalsForget(t0: seq<Route>, log: seq<Entry>, c: nat, view: Option<string>, started: nat,
                       refusals: seq<(nat, nat)>)
    requires RefusalsOk(t0, log, c, view, started, refusals)
    ensures RefusalsOk(t0, log, c, None, started, refusals)
  {
    forall k | 0 <= k < |refusals| ensures RefusalOk(t0, log, c, None, refusals[k]) {
      assert RefusalOk(t0, log, c, view, refusals[k]);
    }
  }

  /** A write by another client keeps what is known of this one. */
  lemma ForeignWrite(t0: seq<Route>, log: seq<Entry>, e: Entry, c: nat, cl: Client)
    requires ClientOk(t0, log, c, cl) && e.client != c
    ensures ClientOk(t0, log + [e], c, cl)
  {
    RefusalsGrow(t0, log, e, c, PcView(cl.pc), cl.started, cl.refusals);
    if cl.pc.Writing? && Retried(cl.pc.call) {
      assert (log + [e])[..cl.readAt] == log[..cl.readAt];
    }
  }

  /** Replacing one client's record and perhaps appending its write keeps the invariant, if
      that one record is right again. */
  lemma InvFrom(t0: seq<Route>, s: State, s': State, c: nat)
    requires Inv(t0, s) && c < |s.clients|
    requires |s'.clients| == |s.clients| && s'.clients == s.clients[c := s'.clients[c]]
    requires s'.log == s.log || exists w :: s'.log == s.log + [Entry(c, w)]
    requires s'.routes == Fold(t0, s'.log)
    requires ClientOk(t0, s'.log, c, s'.clients[c])
    ensures Inv(t0, s')
  {
    forall d | 0 <= d < |s'.clients| ensures ClientOk(t0, s'.log, d, s'.clients[d]) {
      if d != c {
        assert s'.clients[d] == s.clients[d];
        if s'.log != s.log {
          var w :| s'.log == s.log + [Entry(c, w)];
          ForeignWrite(t0, s.log, Entry(c, w), d, s.clients[d]);
        }
      }
    }
  }

  lemma CommitKeepsInv(t0: seq<Route>, s: State, c: nat, w: Write, pc: Pc)
    requires Inv(t0, s) && c < |s.clients|
    requires pc.Returned? || pc.Sweeping?
    ensures Inv(t0, Commit(s, c, w, Applied(s.routes, w), pc))
  {
    var s' := Commit(s, c, w, Applied(s.routes, w), pc);
    FoldSnoc(t0, s.log, Entry(c, w));
    var cl := s.clients[c];
    RefusalsForget(t0, s.log, c, PcView(cl.pc), cl.started, cl.refusals);
    RefusalsGrow(t0, s.log, Entry(c, w), c, None, cl.started, cl.refusals);
    InvFrom(t0, s, s', c);
  }

  lemma RefusalsAppend(t0: seq<Route>, log: seq<Entry>, c: nat, view: Option<string>,
                       started: nat, refusals: seq<(nat, nat)>, span: (nat, nat))
    requires RefusalsOk(t0, log, c, view, started, refusals)
    requires RefusalOk(t0, log, c, view, span) && EndOf(refusals, started) <= span.0
    ensures RefusalsOk(t0, log, c, view, started, refusals + [span])
  {
    assert (refusals + [span])[..|refusals|] == refusals;
  }

  /** The span from the read to the refusal joins those of the call. */
  lemma OneMoreRefusal(t0: seq<Route>, log: seq<Entry>, c: nat, cl: Client, now: seq<Route>)
    requires ClientOk(t0, log, c, cl) && cl.pc.Writing? && Retried(cl.pc.call)
    requires now == Fold(t0, log) && !EtagFrom(cl.pc.call, cl.pc.etag, now)
    ensures RefusalsOk(t0, log, c, ViewOf(cl.pc.call), cl.started, cl.refusals + [(cl.readAt, |log|)])
  {
    var view := ViewOf(cl.pc.call);
    assert log[..|log|] == log;
    assert RefusalOk(t0, log, c, view, (cl.readAt, |log|));
    RefusalsAppend(t0, log, c, view, cl.started, cl.refusals, (cl.readAt, |log|));
  }

  lemma RefusedKeepsInv(t0: seq<Route>, s: State, c: nat)
    requires Inv(t0, s) && c < |s.clients| && s.clients[c].pc.Writing?
    requires Retried(s.clients[c].pc.call) && !EtagFrom(s.clients[c].pc.call, s.clients[c].pc.etag, s.routes)
    ensures Inv(t0, Refused(s, c, s.clients[c].pc.call, s.clients[c].pc.attempts))
  {
    var cl := s.clients[c];
    OneMoreRefusal(t0, s.log, c, cl, s.routes);
    InvFrom(t0, s, Refused(s, c, cl.pc.call, cl.pc.attempts), c);
  }

  /** Remembering the tag of what was just read keeps the invariant. */
  lemma ReadingKeepsInv(t0: seq<Route>, s: State, c: nat, call: Call, n: nat, etag: Etag)
    requires Inv(t0, s) && c < |s.clients| && s.clients[c].pc == Reading(call, n)
    requires EtagFrom(call, etag, s.routes)
    ensures Inv(t0, Read(s, c, Writing(call, n + 1, etag)))
  {
    var s' := Read(s, c, Writing(call, n + 1, etag));
    assert ClientOk(t0, s.log, c, s.clients[c]);
    assert s.log[..|s.log|] == s.log;
    SpansEnd(|s.log|, s.clients[c].started, s.clients[c].refusals);
    assert PcOk(t0, s.log, c, s'.clients[c]);
    InvFrom(t0, s, s', c);
  }

  lemma {:induction false} SpansEnd(len: nat, started: nat, spans: seq<(nat, nat)>)
    requires SpansOk(len, started, spans)
    ensures started <= EndOf(spans, started) <= len
  {
    if spans != [] { SpansEnd(len, started, spans[..|spans| - 1]); }
  }

  lemma AtKeepsInv(t0: seq<Route>, s: State, c: nat, pc: Pc)
    requires Inv(t0, s) && c < |s.clients| && (pc.Returned? || pc.Sweeping?)
    ensures Inv(t0, At(s, c, pc))
  {
    assert ClientOk(t0, s.log, c, s.clients[c]);
    RefusalsForget(t0, s.log, c, PcView(s.clients[c].pc), s.clients[c].started, s.clients[c].refusals);
    InvFrom(t0, s, At(s, c, pc), c);
  }

  lemma ReadKeepsInv(t0: seq<Route>, s: State, c: nat)
    requires Inv(t0, s) && c < |s.clients| && s.clients[c].pc.Reading?
    ensures Inv(t0, Step(s, c))
  {
    var call, n := s.clients[c].pc.call, s.clients[c].pc.attempts;
    match call
    case UpsertUrl(_) => ReadingKeepsInv(t0, s, c, call, n, Digest(s.routes));
    case RemoveUrl(id) =>
      if Lookup(s.routes, id) == [] { AtKeepsInv(t0, s, c, Returned); }
      else { ReadingKeepsInv(t0, s, c, call, n, Digest(Lookup(s.routes, id))); }
    case CleanUp(prefix, keep) => AtKeepsInv(t0, s, c, Sweeping(StaleIds(s.routes, prefix, keep)));
    case UpsertRegistry(_) =>
  }

  lemma PatchKeepsInv(t0: seq<Route>, s: State, c: nat, r: Route)
    requires Inv(t0, s) && c < |s.clients| && s.clients[c].pc.Writing? && s.clients[c].pc.call == UpsertUrl(r)
    ensures Inv(t0, Step(s, c))
  {
    if Digest(s.routes) == s.clients[c].pc.etag {
      CommitKeepsInv(t0, s, c, Put(r), Returned);
    } else {
      RefusedKeepsInv(t0, s, c);
    }
  }

  lemma DeleteKeepsInv(t0: seq<Route>, s: State, c: nat, id: string)
    requires Inv(t0, s) && c < |s.clients| && s.clients[c].pc.Writing? && s.clients[c].pc.call == RemoveUrl(id)
    ensures Inv(t0, Step(s, c))
  {
    if Lookup(s.routes, id) == [] {
      AtKeepsInv(t0, s, c, Returned);
    } else if Digest(Lookup(s.routes, id)) == s.clients[c].pc.etag {
      CommitKeepsInv(t0, s, c, Drop(id), Returned);
    } else {
      RefusedKeepsInv(t0, s, c);
    }
  }

  lemma RegistryKeepsInv(t0: seq<Route>, s: State, c: nat, r: Route)
    requires Inv(t0, s) && c < |s.clients| && s.clients[c].pc.Writing? && s.clients[c].pc.call == UpsertRegistry(r)
    ensures Inv(t0, Step(s, c))
  {
    assert ClientOk(t0, s.log, c, s.clients[c]);
    if Lookup(s.routes, r.id) == [] {
      AtKeepsInv(t0, s, c, Returned);
    } else if Digest(Lookup(s.routes, r.id)) == s.clients[c].pc.etag {
      CommitKeepsInv(t0, s, c, Replace(r), Returned);
    } else {
      InvFrom(t0, s, Step(s, c), c);
    }
  }

  lemma WriteKeepsInv(t0: seq<Route>, s: State, c: nat)
    requires Inv(t0, s) && c < |s.clients| && s.clients[c].pc.Writing?
    ensures Inv(t0, Step(s, c))
  {
    match s.clients[c].pc.call
    case UpsertUrl(r) => PatchKeepsInv(t0, s, c, r);
    case RemoveUrl(id) => DeleteKeepsInv(t0, s, c, id);
    case UpsertRegistry(r) => RegistryKeepsInv(t0, s, c, r);
    case CleanUp(_, _) => assert Step(s, c) == s;
  }

  lemma BeginKeepsInv(t0: seq<Route>, s: State, c: nat, call: Call)
    requires Inv(t0, s) && c < |s.clients|
    ensures Inv(t0, Next(s, Begin(c, call)))
  {
    var pc := s.clients[c].pc;
    if pc.Idle? || pc.Returned? || pc.Raised? { InvFrom(t0, s, Next(s, Begin(c, call)), c); }
  }

  lemma ProbeKeepsInv(t0: seq<Route>, s: State, c: nat)
    requires Inv(t0, s) && c < |s.clients| && s.clients[c].pc.Probing?
    ensures Inv(t0, Step(s, c))
  {
    assert ClientOk(t0, s.log, c, s.clients[c]);
    InvFrom(t0, s, Step(s, c), c);
  }

  lemma SweepKeepsInv(t0: seq<Route>, s: State, c: nat)
    requires Inv(t0, s) && c < |s.clients| && s.clients[c].pc.Sweeping?
    ensures Inv(t0, Step(s, c))
  {
    var ids := s.clients[c].pc.ids;
    if ids == [] {
      AtKeepsInv(t0, s, c, Returned);
    } else if Lookup(s.routes, ids[0]) == [] {
      AtKeepsInv(t0, s, c, Sweeping(ids[1..]));
    } else {
      CommitKeepsInv(t0, s, c, Drop(ids[0]), Sweeping(ids[1..]));
    }
  }

  lemma StepKeepsInv(t0: seq<Route>, s: State, c: nat)
    requires Inv(t0, s) && c < |s.clients|
    ensures Inv(t0, Step(s, c))
  {
    var pc := s.clients[c].pc;
    if pc.Reading? {
      ReadKeepsInv(t0, s, c);
    } else if pc.Writing? {
      WriteKeepsInv(t0, s, c);
    } else if pc.Sweeping? {
      SweepKeepsInv(t0, s, c);
    } else if pc.Probing? {
      ProbeKeepsInv(t0, s, c);
    } else {
      assert Step(s, c) == s;
    }
  }

  lemma NextKeepsInv(t0: seq<Route>, s: State, a: Action)
    requires Inv(t0, s)
    ensures Inv(t0, Next(s, a))
  {
    if a.client >= |s.clients| {
    } else if a.Begin? {
      BeginKeepsInv(t0, s, a.client, a.call);
    } else {
      StepKeepsInv(t0, s, a.client);
    }
  }

  lemma {:induction false} RunKeepsInv(t0: seq<Route>, s: State, actions: seq<Action>)
    requires Inv(t0, s)
    ensures Inv(t0, Run(s, actions))
  {
    if actions != [] {
      RunKeepsInv(t0, s, actions[..|actions| - 1]);
      NextKeepsInv(t0, Run(s, actions[..|actions| - 1]), actions[|actions| - 1]);
    }
  }
}
