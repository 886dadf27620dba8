/** `demo/cog-viewer/cog-worker.js`: tile loads that interleave at their awaits,
    sharing a table of open viewers and a bounded first-in first-out tile cache. */
module TileCache {
  import opened Decimal

  const LIMIT := 100

  /** A request for one tile; its coordinates are non-negative integers. */
  datatype Request = Request(url: string, level: nat, x: nat, y: nat)

  /** `${url}:${level}:${x}:${y}` */
  function Key(r: Request): string {
    r.url + ":" + Show(r.level) + ":" + Show(r.x) + ":" + Show(r.y)
  }

  // ------------------------------------------------------------ key injectivity

  lemma NoColonAfter(a: string, m: string)
    requires AllDigits(m)
    ensures (a + ":" + m)[|a|] == ':'
    ensures forall k :: |a| < k < |a + ":" + m| ==> (a + ":" + m)[k] != ':'
  {
    forall k | |a| < k < |a + ":" + m| ensures (a + ":" + m)[k] != ':' {
      assert (a + ":" + m)[k] == m[k - |a| - 1];
    }
  }

  /** A text that ends in a colon and digits can be split there in only one way. */
  lemma SplitAtLastColon(a: string, m: string, b: string, n: string)
    requires AllDigits(m) && AllDigits(n) && a + ":" + m == b + ":" + n
    ensures a == b && m == n
  {
    var s, t := a + ":" + m, b + ":" + n;
    NoColonAfter(a, m);
    NoColonAfter(b, n);
    assert |a| == |b|;
    assert a == s[..|a|] && b == t[..|b|];
    assert m == s[|a| + 1..] && n == t[|b| + 1..];
  }

  lemma ShowInjective(m: nat, n: nat)
    requires Show(m) == Show(n)
    ensures m == n
  {
    ShowValue(m);
    ShowValue(n);
  }

  /** Requests with the same cache key are the same request, colons in the url or not. */
  lemma KeyInjective(r: Request, q: Request)
    requires Key(r) == Key(q)
    ensures r == q
  {
    var r1, q1 := r.url + ":" + Show(r.level), q.url + ":" + Show(q.level);
    var r2, q2 := r1 + ":" + Show(r.x), q1 + ":" + Show(q.x);
    SplitAtLastColon(r2, Show(r.y), q2, Show(q.y));
    SplitAtLastColon(r1, Show(r.x), q1, Show(q.x));
    SplitAtLastColon(r.url, Show(r.level), q.url, Show(q.level));
    ShowInjective(r.level, q.level);
    ShowInjective(r.x, q.x);
    ShowInjective(r.y, q.y);
  }

  // ------------------------------------------------------------------ the cache

  /** A JavaScript Map: keys in the order of their first insertion, and values. */
  datatype Cache<D> = Cache(order: seq<string>, tiles: map<string, D>) {
    ghost predicate Valid() {
      && (forall i, j :: 0 <= i < j < |order| ==> order[i] != order[j])
      && (forall k :: k in order <==> k in tiles)
    }
  }

  /** `tileCache.set(key, data)` */
  function Put<D>(c: Cache<D>, key: string, d: D): Cache<D> {
    Cache(if key in c.tiles then c.order else c.order + [key], c.tiles[key := d])
  }

  /** Dropping the first key when there are more than the limit. */
  function Evict<D>(c: Cache<D>): Cache<D> {
    if |c.order| > LIMIT then Cache(c.order[1..], c.tiles - {c.order[0]}) else c
  }

  // -------------------------------------------------------- loads as steps

  /** Where a load stands: awaiting the opening of a viewer, awaiting a tile, done. */
  datatype Task<D> =
    | Opening(req: Request)
    | Reading(req: Request)
    | Answered(req: Request, data: D, cached: bool)
    | Rejected(req: Request)

  datatype State<D> = State(viewers: set<string>, cache: Cache<D>, tasks: seq<Task<D>>)

  /** What can happen next: a new load runs to its first await, or an awaited
      promise of the i-th load settles and that load runs to its next await. */
  datatype Event = Spawn(req: Request) | Opened(i: nat) | OpenFailed(i: nat) | TileRead(i: nat) | ReadFailed(i: nat)

  /** The viewer's answer is a function of url and coordinates. */
  type Viewer<!D> = Request -> D

  function Start<D>(viewers: set<string>, c: Cache<D>, req: Request): Task<D> {
    if Key(req) in c.tiles then Answered(req, c.tiles[Key(req)], true)
    else if req.url in viewers then Reading(req)
    else Opening(req)
  }

  function Step<D>(viewer: Viewer<D>, s: State<D>, e: Event): State<D> {
    match e
    case Spawn(req) => s.(tasks := s.tasks + [Start(s.viewers, s.cache, req)])
    case Opened(i) =>
      if i < |s.tasks| && s.tasks[i].Opening? then
        s.(viewers := s.viewers + {s.tasks[i].req.url}, tasks := s.tasks[i := Reading(s.tasks[i].req)])
      else s
    case OpenFailed(i) =>
      if i < |s.tasks| && s.tasks[i].Opening? then s.(tasks := s.tasks[i := Rejected(s.tasks[i].req)]) else s
    case TileRead(i) =>
      if i < |s.tasks| && s.tasks[i].Reading? then
        var req := s.tasks[i].req;
        s.(cache := Evict(Put(s.cache, Key(req), viewer(req))),
           tasks := s.tasks[i := Answered(req, viewer(req), false)])
      else s
    case ReadFailed(i) =>
      if i < |s.tasks| && s.tasks[i].Reading? then s.(tasks := s.tasks[i := Rejected(s.tasks[i].req)]) else s
  }

  function Run<D>(viewer: Viewer<D>, events: seq<Event>): State<D> {
    if events == [] then State({}, Cache([], map[]), [])
    else Step(viewer, Run(viewer, events[..|events| - 1]), events[|events| - 1])
  }

  /** The keys that a run put into the cache when they were not in it, in order. */
  function Inserted<D>(viewer: Viewer<D>, events: seq<Event>): seq<string> {
    if events == [] then []
    else
      var before := Run(viewer, events[..|events| - 1]);
      var e := events[|events| - 1];
      var rest := Inserted(viewer, events[..|events| - 1]);
      if e.TileRead? && e.i < |before.tasks| && before.tasks[e.i].Reading? &&
         Key(before.tasks[e.i].req) !in before.cache.tiles
      then rest + [Key(before.tasks[e.i].req)]
      else rest
  }

  function Last(s: seq<string>, n: nat): seq<string> {
    if |s| <= n then s else s[|s| - n..]
  }

  /** Every cached tile is what the viewer returns for the request of its key, and
      every answer, cached or not, is what the viewer returns for its request. */
  ghost predicate Faithful<D>(viewer: Viewer<D>, s: State<D>) {
    && (forall k :: k in s.cache.tiles ==> exists r :: Key(r) == k && s.cache.tiles[k] == viewer(r))
    && (forall t :: t in s.tasks && t.Answered? ==> t.data == viewer(t.req))
  }

  ghost predicate Invariant<D>(viewer: Viewer<D>, s: State<D>) {
    s.cache.Valid() && |s.cache.order| <= LIMIT && Faithful(viewer, s)
  }

  lemma PutValid<D>(c: Cache<D>, key: string, d: D)
    requires c.Valid()
    ensures Put(c, key, d).Valid()
  {
    var p := Put(c, key, d);
    forall k ensures k in p.order <==> k in p.tiles {
      if key !in c.tiles { assert p.order == c.order + [key]; }
    }
  }

  lemma EvictValid<D>(c: Cache<D>)
    requires c.Valid() && |c.order| <= LIMIT + 1
    ensures Evict(c).Valid() && |Evict(c).order| <= LIMIT && Evict(c).order == Last(c.order, LIMIT)
  {
    if |c.order| > LIMIT {
      var n := Evict(c);
      forall k ensures k in n.order <==> k in n.tiles {
        assert c.order == [c.order[0]] + n.order;
      }
    }
  }

  lemma PutEvictValid<D>(c: Cache<D>, key: string, d: D)
    requires c.Valid() && |c.order| <= LIMIT
    ensures var n := Evict(Put(c, key, d));
            && n.Valid() && |n.order| <= LIMIT && n.tiles.Keys <= c.tiles.Keys + {key}
            && (forall k :: k in n.tiles ==> n.tiles[k] == if k == key then d else c.tiles[k])
            && n.order == Last(if key in c.tiles then c.order else c.order + [key], LIMIT)
  {
    PutValid(c, key, d);
    EvictValid(Put(c, key, d));
    hide Last;
  }

  /** Every step, in whatever interleaving, keeps the invariant. */
  lemma StepKeepsInvariant<D>(viewer: Viewer<D>, s: State<D>, e: Event)
    requires Invariant(viewer, s)
    ensures Invariant(viewer, Step(viewer, s, e))
  {
    hide Evict, Put, Key;
    match e
    case Spawn(req) =>
      SpawnKeeps(viewer, s, req);
    case TileRead(i) =>
      if i < |s.tasks| && s.tasks[i].Reading? { ReadKeeps(viewer, s, s.tasks[i].req); }
    case _ =>
  }

  lemma SpawnKeeps<D>(viewer: Viewer<D>, s: State<D>, req: Request)
    requires Faithful(viewer, s)
    ensures var t := Start(s.viewers, s.cache, req); t.Answered? ==> t.data == viewer(t.req)
  {
    hide Key;
    if Key(req) in s.cache.tiles {
      var r :| Key(r) == Key(req) && s.cache.tiles[Key(req)] == viewer(r);
      KeyInjective(r, req);
    }
  }

  lemma ReadKeeps<D>(viewer: Viewer<D>, s: State<D>, req: Request)
    requires Invariant(viewer, s)
    ensures var c := Evict(Put(s.cache, Key(req), viewer(req)));
            && c.Valid() && |c.order| <= LIMIT
            && forall k :: k in c.tiles ==> exists r :: Key(r) == k && c.tiles[k] == viewer(r)
  {
    PutEvictValid(s.cache, Key(req), viewer(req));
    hide Evict, Put, Key;
    var c := Evict(Put(s.cache, Key(req), viewer(req)));
    forall k | k in c.tiles ensures exists r :: Key(r) == k && c.tiles[k] == viewer(r) {
      if k != Key(req) {
        var r :| Key(r) == k && s.cache.tiles[k] == viewer(r);
      }
    }
  }

  /** At every suspension point of every run: at most 100 tiles are cached, each is
      the viewer's tile for its key, and every answer equals an uncached read. */
  lemma {:induction false} EveryRunFaithful<D>(viewer: Viewer<D>, events: seq<Event>)
    ensures Invariant(viewer, Run(viewer, events))
  {
    if events != [] {
      var k := |events| - 1;
      EveryRunFaithful(viewer, events[..k]);
      StepKeepsInvariant(viewer, Run(viewer, events[..k]), events[k]);
    }
  }

  /** The cache keeps the last 100 insertions, oldest first. */
  lemma {:induction false} KeepsLastInserted<D>(viewer: Viewer<D>, events: seq<Event>)
    ensures Run(viewer, events).cache.order == Last(Inserted(viewer, events), LIMIT)
  {
    if events != [] {
      var k := |events| - 1;
      var s, e := Run(viewer, events[..k]), events[k];
      KeepsLastInserted(viewer, events[..k]);
      EveryRunFaithful(viewer, events[..k]);
      if e.TileRead? && e.i < |s.tasks| && s.tasks[e.i].Reading? {
        var req := s.tasks[e.i].req;
        PutEvictValid(s.cache, Key(req), viewer(req));
        LastOfLast(Inserted(viewer, events[..k]), Key(req));
      }
    }
  }

  lemma LastOfLast(s: seq<string>, k: string)
    ensures Last(Last(s, LIMIT) + [k], LIMIT) == Last(s + [k], LIMIT)
    ensures Last(Last(s, LIMIT), LIMIT) == Last(s, LIMIT)
  {
  }

  /** Event `k` opened a viewer for the url. */
  ghost predicate OpenedAt<D>(viewer: Viewer<D>, events: seq<Event>, k: nat, url: string) {
    && k < |events| && events[k].Opened?
    && var tasks := Run(viewer, events[..k]).tasks;
       events[k].i < |tasks| && tasks[events[k].i].Opening? && tasks[events[k].i].req.url == url
  }

  lemma {:induction false} ViewersMeaning<D>(viewer: Viewer<D>, events: seq<Event>, url: string)
    ensures url in Run(viewer, events).viewers <==> exists k: nat :: OpenedAt(viewer, events, k, url)
  {
    hide Run, Step;
    if events == [] {
      NothingRun(viewer);
    } else {
      var n := |events| - 1;
      var before := events[..n];
      RunNext(viewer, events);
      ViewersMeaning(viewer, before, url);
      ViewersStep(viewer, Run(viewer, before), events[n], url);
      forall k: nat ensures OpenedAt(viewer, before, k, url) <==> OpenedAt(viewer, events, k, url) && k < n {
        if k < n { assert before[..k] == events[..k]; }
      }
      if url in Run(viewer, events).viewers && url !in Run(viewer, before).viewers {
        assert OpenedAt(viewer, events, n, url);
      }
    }
  }

  lemma NothingRun<D>(viewer: Viewer<D>)
    ensures Run(viewer, []) == State({}, Cache([], map[]), [])
  {
  }

  lemma RunNext<D>(viewer: Viewer<D>, events: seq<Event>)
    requires events != []
    ensures Run(viewer, events) == Step(viewer, Run(viewer, events[..|events| - 1]), events[|events| - 1])
  {
    hide Step;
  }

  lemma ViewersStep<D>(viewer: Viewer<D>, s: State<D>, e: Event, url: string)
    ensures url in Step(viewer, s, e).viewers <==>
            || url in s.viewers
            || (e.Opened? && e.i < |s.tasks| && s.tasks[e.i].Opening? && s.tasks[e.i].req.url == url)
  {
    hide Start, Put, Evict, Key;
  }

  /** How a load starts, in any run: answered at once and marked so when its tile is among
      the last 100 inserted, else reading when a viewer was opened for its url. */
  lemma LoadStarts<D>(viewer: Viewer<D>, events: seq<Event>, req: Request)
    ensures var known, tasks := Run(viewer, events).tasks, Run(viewer, events + [Spawn(req)]).tasks;
            && |tasks| == |known| + 1
            && tasks[|known|] ==
               if Key(req) in Last(Inserted(viewer, events), 100) then Answered(req, viewer(req), true)
               else if exists k: nat :: OpenedAt(viewer, events, k, req.url) then Reading(req)
               else Opening(req)
  {
    var s := Run(viewer, events);
    RunAppend(viewer, events, Spawn(req));
    KeepsLastInserted(viewer, events);
    EveryRunFaithful(viewer, events);
    ViewersMeaning(viewer, events, req.url);
    hide Run, Inserted, Last, Key, OpenedAt;
    if Key(req) in s.cache.tiles {
      var r :| Key(r) == Key(req) && s.cache.tiles[Key(req)] == viewer(r);
      KeyInjective(r, req);
    }
  }

  /** What the next event does to a load, in any run: only its own events concern it, and
      only in the stage they are about. */
  lemma LoadMoves<D>(viewer: Viewer<D>, events: seq<Event>, e: Event, i: nat)
    requires i < |Run(viewer, events).tasks|
    ensures var t := Run(viewer, events).tasks[i];
            var next := Run(viewer, events + [e]).tasks;
            && i < |next|
            && next[i] ==
               if e == Opened(i) && t.Opening? then Reading(t.req)
               else if e == TileRead(i) && t.Reading? then Answered(t.req, viewer(t.req), false)
               else if (e == OpenFailed(i) && t.Opening?) || (e == ReadFailed(i) && t.Reading?) then Rejected(t.req)
               else t
  {
    RunAppend(viewer, events, e);
    hide Run, Start, Put, Evict, Key;
  }

  /** Event `k` met load `i` in the stage it is about. */
  ghost predicate Hits<D>(viewer: Viewer<D>, events: seq<Event>, k: nat, e: Event, i: nat) {
    && k < |events| && events[k] == e
    && var tasks := Run(viewer, events[..k]).tasks;
       && i < |tasks|
       && if e == OpenFailed(i) then tasks[i].Opening? else tasks[i].Reading?
  }

  /** How a load ends, in any run: answered by its tile, or rejected by the failure of its
      viewer or its read. */
  lemma {:induction false} LoadEnds<D>(viewer: Viewer<D>, events: seq<Event>, i: nat)
    requires i < |Run(viewer, events).tasks|
    ensures var t := Run(viewer, events).tasks[i];
            && (t.Answered? && !t.cached <==> exists k: nat :: Hits(viewer, events, k, TileRead(i), i))
            && (t.Rejected? <==> (exists k: nat :: Hits(viewer, events, k, OpenFailed(i), i))
                                 || exists k: nat :: Hits(viewer, events, k, ReadFailed(i), i))
  {
    hide Run, Step;
    if events == [] { NothingRun(viewer); }
    var n := |events| - 1;
    var before := events[..n];
    RunNext(viewer, events);
    LoadStage(viewer, Run(viewer, before), events[n], i);
    forall k: nat, e ensures Hits(viewer, before, k, e, i) <==> Hits(viewer, events, k, e, i) && k < n {
      if k < n { assert before[..k] == events[..k]; }
    }
    if i < |Run(viewer, before).tasks| {
      LoadEnds(viewer, before, i);
    } else {
      NotBegun(viewer, before, i);
    }
    var e := events[n];
    if e == TileRead(i) || e == OpenFailed(i) || e == ReadFailed(i) {
      var tasks := Run(viewer, before).tasks;
      assert Hits(viewer, events, n, e, i) <==>
             i < |tasks| && if e == OpenFailed(i) then tasks[i].Opening? else tasks[i].Reading?;
    }
  }

  lemma NotBegun<D>(viewer: Viewer<D>, events: seq<Event>, i: nat)
    requires i >= |Run(viewer, events).tasks|
    ensures forall k: nat, e :: !Hits(viewer, events, k, e, i)
  {
    forall k: nat, e ensures !Hits(viewer, events, k, e, i) {
      if k < |events| {
        RunContinues(viewer, events[..k], events[k..]);
        assert events[..k] + events[k..] == events;
      }
    }
  }

  /** What an event makes of a load. */
  lemma LoadStage<D>(viewer: Viewer<D>, s: State<D>, e: Event, i: nat)
    requires i < |Step(viewer, s, e).tasks|
    ensures var t := Step(viewer, s, e).tasks[i];
            var known := i < |s.tasks|;
            && (t.Answered? && !t.cached <==>
                  known && ((s.tasks[i].Answered? && !s.tasks[i].cached) || (e == TileRead(i) && s.tasks[i].Reading?)))
            && (t.Rejected? <==>
                  known && (|| s.tasks[i].Rejected? || (e == OpenFailed(i) && s.tasks[i].Opening?)
                            || (e == ReadFailed(i) && s.tasks[i].Reading?)))
  {
    hide Put, Evict, Key;
  }

  predicate Settled<D>(t: Task<D>) {
    t.Answered? || t.Rejected?
  }

  /** The loads of `s` are all still there: none has changed its request, and an
      answer or failure is final. */
  ghost predicate Continues<D>(s: State<D>, n: State<D>) {
    && |s.tasks| <= |n.tasks|
    && forall i :: 0 <= i < |s.tasks| ==>
                     && n.tasks[i].req == s.tasks[i].req
                     && (Settled(s.tasks[i]) ==> n.tasks[i] == s.tasks[i])
  }

  lemma AnswersStay<D>(viewer: Viewer<D>, s: State<D>, e: Event)
    ensures Continues(s, Step(viewer, s, e))
  {
    hide Start, Evict, Put, Key;
  }

  lemma RunAppend<D>(viewer: Viewer<D>, events: seq<Event>, e: Event)
    ensures Run(viewer, events + [e]) == Step(viewer, Run(viewer, events), e)
  {
    assert (events + [e])[..|events|] == events;
    hide Step;
  }

  lemma {:induction false} RunContinues<D>(viewer: Viewer<D>, events: seq<Event>, more: seq<Event>)
    ensures Continues(Run(viewer, events), Run(viewer, events + more))
  {
    hide Run, Step;
    if more == [] {
      assert events + more == events;
    } else {
      var k := |more| - 1;
      RunContinues(viewer, events, more[..k]);
      assert events + more == events + more[..k] + [more[k]];
      RunAppend(viewer, events + more[..k], more[k]);
      AnswersStay(viewer, Run(viewer, events + more[..k]), more[k]);
    }
  }

  /** `loadTiles` starts one load after the other, without waiting in between. */
  function Spawns(reqs: seq<Request>): seq<Event> {
    seq(|reqs|, i requires 0 <= i < |reqs| => Spawn(reqs[i]))
  }

  /** `Promise.all` over the `n` loads from number `first` on. */
  datatype Batch<D> = Waiting | AllTiles(data: seq<D>) | SomeFailed

  function BatchOf<D>(s: State<D>, first: nat, n: nat): Batch<D>
    requires first + n <= |s.tasks|
  {
    var tasks := s.tasks[first..first + n];
    if exists i :: 0 <= i < n && tasks[i].Rejected? then SomeFailed
    else if forall i :: 0 <= i < n ==> tasks[i].Answered? then
      AllTiles(seq(n, i requires 0 <= i < n => tasks[i].data))
    else Waiting
  }

  /** From number `first` on, the loads are for these requests. */
  ghost predicate Requested<D>(s: State<D>, first: nat, reqs: seq<Request>) {
    first + |reqs| <= |s.tasks| && forall i :: 0 <= i < |reqs| ==> s.tasks[first + i].req == reqs[i]
  }

  lemma {:induction false} SpawnedInOrder<D>(viewer: Viewer<D>, before: seq<Event>, reqs: seq<Request>)
    ensures var s := Run(viewer, before + Spawns(reqs));
            var first := |Run(viewer, before).tasks|;
            |s.tasks| == first + |reqs| && Requested(s, first, reqs)
  {
    hide Run, Step, Start;
    if reqs == [] {
      assert before + Spawns(reqs) == before;
    } else {
      var k := |reqs| - 1;
      var fewer := before + Spawns(reqs[..k]);
      SpawnedInOrder(viewer, before, reqs[..k]);
      assert before + Spawns(reqs) == fewer + [Spawn(reqs[k])];
      RunAppend(viewer, fewer, Spawn(reqs[k]));
      SpawnStep(viewer, Run(viewer, fewer), reqs[k]);
    }
  }

  lemma SpawnStep<D>(viewer: Viewer<D>, s: State<D>, req: Request)
    ensures var n := Step(viewer, s, Spawn(req));
            |n.tasks| == |s.tasks| + 1 && n.tasks[..|s.tasks|] == s.tasks && n.tasks[|s.tasks|].req == req
  {
    hide Key;
  }

  /** Whatever happens before, between and after: when a batch of loads answers at
      all, it answers with the viewer's tiles in the order of the coordinates. */
  lemma BatchIsOrdered<D>(viewer: Viewer<D>, before: seq<Event>, reqs: seq<Request>, after: seq<Event>)
    ensures var first := |Run(viewer, before).tasks|;
            var s := Run(viewer, before + Spawns(reqs) + after);
            && first + |reqs| <= |s.tasks|
            && (BatchOf(s, first, |reqs|).AllTiles? ==>
                  BatchOf(s, first, |reqs|).data == seq(|reqs|, i requires 0 <= i < |reqs| => viewer(reqs[i])))
  {
    var all := before + Spawns(reqs) + after;
    SpawnedInOrder(viewer, before, reqs);
    RunContinues(viewer, before + Spawns(reqs), after);
    EveryRunFaithful(viewer, all);
    hide Run;
    var first, s := |Run(viewer, before).tasks|, Run(viewer, all);
    assert Requested(s, first, reqs);
    if BatchOf(s, first, |reqs|).AllTiles? {
      AnswersInOrder(viewer, s, first, reqs);
    }
  }

  lemma AnswersInOrder<D>(viewer: Viewer<D>, s: State<D>, first: nat, reqs: seq<Request>)
    requires Faithful(viewer, s) && Requested(s, first, reqs) && BatchOf(s, first, |reqs|).AllTiles?
    ensures BatchOf(s, first, |reqs|).data == seq(|reqs|, i requires 0 <= i < |reqs| => viewer(reqs[i]))
  {
    forall i | 0 <= i < |reqs| ensures BatchOf(s, first, |reqs|).data[i] == viewer(reqs[i]) {
      assert s.tasks[first..first + |reqs|][i] == s.tasks[first + i];
      assert s.tasks[first + i] in s.tasks;
    }
  }

  /** A batch that has answered or failed stays as it is. */
  lemma BatchSettles<D>(viewer: Viewer<D>, events: seq<Event>, more: seq<Event>, first: nat, n: nat)
    requires first + n <= |Run(viewer, events).tasks| && !BatchOf(Run(viewer, events), first, n).Waiting?
    ensures first + n <= |Run(viewer, events + more).tasks|
    ensures BatchOf(Run(viewer, events + more), first, n) == BatchOf(Run(viewer, events), first, n)
  {
    RunContinues(viewer, events, more);
    hide Run;
    BatchKept(Run(viewer, events), Run(viewer, events + more), first, n);
  }

  lemma BatchKept<D>(s: State<D>, t: State<D>, first: nat, n: nat)
    requires Continues(s, t) && first + n <= |s.tasks| && !BatchOf(s, first, n).Waiting?
    ensures BatchOf(t, first, n) == BatchOf(s, first, n)
  {
    var a, b := s.tasks[first..first + n], t.tasks[first..first + n];
    forall i | 0 <= i < n ensures Settled(a[i]) ==> b[i] == a[i] {
      assert a[i] == s.tasks[first + i] && b[i] == t.tasks[first + i];
    }
    if BatchOf(s, first, n).SomeFailed? {
      var i :| 0 <= i < n && a[i].Rejected?;
      assert b[i].Rejected?;
    } else {
      forall i | 0 <= i < n ensures a[i] == b[i] { assert a[i].Answered?; }
      assert a == b;
    }
  }

  // ---------------------------------------------------------------- the worker

  /** The worker: its module state, the code between the awaits, and the loads under
      way, which the JavaScript runtime keeps. */
  class Worker<!D> {
    var viewers: set<string>
    var tileCache: Cache<D>
    var tasks: seq<Task<D>>

    ghost predicate Valid()
      reads this
    {
      tileCache.Valid() && |tileCache.order| <= LIMIT
    }

    function View(): State<D>
      reads this
    {
      State(viewers, tileCache, tasks)
    }

    constructor ()
      ensures Valid() && View() == State({}, Cache([], map[]), [])
    {
      viewers, tileCache, tasks := {}, Cache([], map[]), [];
    }

    /** `loadTile` up to its first await. */
    method BeginLoad(ghost viewer: Viewer<D>, req: Request)
      modifies this`tasks
      ensures View() == Step(viewer, old(View()), Spawn(req))
    {
      var cacheKey := Key(req);
      if cacheKey in tileCache.tiles {
        tasks := tasks + [Answered(req, tileCache.tiles[cacheKey], true)];
      } else if req.url in viewers {
        tasks := tasks + [Reading(req)];
      } else {
        tasks := tasks + [Opening(req)];
      }
    }

    /** `getViewer` after the viewer has opened. */
    method ViewerOpened(ghost viewer: Viewer<D>, i: nat)
      requires i < |tasks| && tasks[i].Opening?
      modifies this`viewers, this`tasks
      ensures View() == Step(viewer, old(View()), Opened(i))
    {
      viewers := viewers + {tasks[i].req.url};
      tasks := tasks[i := Reading(tasks[i].req)];
    }

    /** Caching a tile and dropping the oldest one beyond the limit. */
    method Remember(cacheKey: string, data: D)
      requires Valid()
      modifies this`tileCache
      ensures Valid() && tileCache == Evict(Put(old(tileCache), cacheKey, data))
    {
      PutEvictValid(tileCache, cacheKey, data);
      tileCache := Put(tileCache, cacheKey, data);
      if |tileCache.order| > LIMIT {
        var firstKey := tileCache.order[0];
        tileCache := Cache(tileCache.order[1..], tileCache.tiles - {firstKey});
      }
    }

    /** `loadTile` after the tile has been read. */
    method TileArrived(viewer: Viewer<D>, i: nat)
      requires Valid() && i < |tasks| && tasks[i].Reading?
      modifies this`tileCache, this`tasks
      ensures Valid() && View() == Step(viewer, old(View()), TileRead(i))
    {
      hide Evict, Put, Key;
      var req := tasks[i].req;
      var data := viewer(req);
      Remember(Key(req), data);
      tasks := tasks[i := Answered(req, data, false)];
    }

    /** An awaited promise that rejects ends the load, whichever of the two it was. */
    method LoadFailed(ghost viewer: Viewer<D>, i: nat)
      requires i < |tasks| && (tasks[i].Opening? || tasks[i].Reading?)
      modifies this`tasks
      ensures View() == Step(viewer, old(View()), if old(tasks[i]).Opening? then OpenFailed(i) else ReadFailed(i))
    {
      tasks := tasks[i := Rejected(tasks[i].req)];
    }
  }

  /** The events that can happen in a state. */
  predicate Possible<D>(s: State<D>, e: Event) {
    match e
    case Spawn(_) => true
    case Opened(i) => i < |s.tasks| && s.tasks[i].Opening?
    case OpenFailed(i) => i < |s.tasks| && s.tasks[i].Opening?
    case TileRead(i) => i < |s.tasks| && s.tasks[i].Reading?
    case ReadFailed(i) => i < |s.tasks| && s.tasks[i].Reading?
  }

  /** A worker driven through any events, those that cannot happen passed over, is in
      the state the run theorems are about. */
  method Drive<D>(viewer: Viewer<D>, events: seq<Event>) returns (w: Worker<D>)
    ensures fresh(w) && w.Valid() && w.View() == Run(viewer, events) && Invariant(viewer, w.View())
  {
    w := new Worker();
    for k := 0 to |events|
      invariant fresh(w) && w.Valid() && w.View() == Run(viewer, events[..k])
    {
      assert events[..k + 1] == events[..k] + [events[k]];
      RunAppend(viewer, events[..k], events[k]);
      if Possible(w.View(), events[k]) {
        match events[k]
        case Spawn(req) => w.BeginLoad(viewer, req);
        case Opened(i) => w.ViewerOpened(viewer, i);
        case TileRead(i) => w.TileArrived(viewer, i);
        case OpenFailed(i) => w.LoadFailed(viewer, i);
        case ReadFailed(i) => w.LoadFailed(viewer, i);
      }
    }
    assert events[..|events|] == events;
    EveryRunFaithful(viewer, events);
  }
}
