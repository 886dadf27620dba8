/** `demo/geovault/vault-ui.js`: the session ledger, the operations queued before
    the session exists, the traffic counters and sealing, as one state machine. */
module VaultLedger {
  import opened Prelude

  const BLOCKED_OP := "net.external.blocked"
  const START_OP := "session.start"

  /** An operation and its parameters, already serialised. */
  datatype Record = Record(op: string, params: string)

  /** The recorded session: an append-only ledger and the last totals noted. */
  datatype SessionView = SessionView(ledger: seq<Record>, ingress: nat, egress: nat)

  datatype State = State(
    session: Option<SessionView>, sealed: bool, attestation: Option<SessionView>,
    pending: seq<Record>, ingress: nat, egress: nat, blocked: nat)

  const INITIAL := State(None, false, None, [], 0, 0, 0)

  // -------------------------------------------------------------- specification

  /** `vaultLog` */
  function Logged(s: State, rec: Record): State {
    if s.sealed then s
    else if s.session.None? then s.(pending := s.pending + [rec])
    else s.(session := Some(s.session.value.(ledger := s.session.value.ledger + [rec])))
  }

  /** `syncTraffic` */
  function Synced(s: State): State {
    if s.session.Some? && !s.sealed
    then s.(session := Some(s.session.value.(ingress := s.ingress, egress := s.egress)))
    else s
  }

  /** `flushPending` */
  function Flushed(s: State): State
    requires s.session.Some?
  {
    s.(session := Some(s.session.value.(ledger := s.session.value.ledger + s.pending)), pending := [])
  }

  /** `initVault` from the point where the session object is made. */
  function Initialised(s: State, start: Record): State {
    Synced(Flushed(Logged(s.(session := Some(SessionView([], 0, 0))), start)))
  }

  /** `sealSession`; `ok` is whether the session's own seal succeeds. */
  function Sealed(s: State, ok: bool): State {
    if s.session.None? || s.sealed then s
    else
      var s1 := Synced(s);
      if ok then s1.(sealed := true, attestation := s1.session) else s1
  }

  datatype Event =
    | Log(rec: Record)
    | Block(params: string)
    | Ingress(bytes: int)
    | Egress(bytes: int)
    | Init(startParams: string)
    | Seal(ok: bool)

  function Apply(s: State, e: Event): State {
    match e
    case Log(rec) => Logged(s, rec)
    case Block(params) => Synced(Logged(s.(blocked := s.blocked + 1), Record(BLOCKED_OP, params)))
    case Ingress(bytes) => if bytes > 0 then Synced(s.(ingress := s.ingress + bytes)) else s
    case Egress(bytes) => if bytes > 0 then Synced(s.(egress := s.egress + bytes)) else s
    case Init(params) => Initialised(s, Record(START_OP, params))
    case Seal(ok) => Sealed(s, ok)
  }

  function Run(events: seq<Event>): State {
    if events == [] then INITIAL
    else Apply(Run(events[..|events| - 1]), events[|events| - 1])
  }

  // ------------------------------------------------------------------ the code

  /** The wasm session object. */
  class Session {
    var ledger: seq<Record>
    var ingress: nat
    var egress: nat
    var closed: bool

    constructor ()
      ensures ledger == [] && ingress == 0 && egress == 0 && !closed
    {
      ledger, ingress, egress, closed := [], 0, 0, false;
    }

    function View(): SessionView
      reads this
    {
      SessionView(ledger, ingress, egress)
    }

    /** Appends, or refuses when sealed; the result says which. */
    method LogOperation(rec: Record) returns (ok: bool)
      modifies this
      ensures ok == !old(closed) && closed == old(closed)
      ensures View() == if ok then old(View()).(ledger := old(ledger) + [rec]) else old(View())
    {
      if closed {
        return false;
      }
      ledger := ledger + [rec];
      return true;
    }

    method NoteTraffic(i: nat, e: nat)
      modifies this
      ensures closed == old(closed) && View() == old(View()).(ingress := i, egress := e)
    {
      ingress, egress := i, e;
    }

    /** Sealing may fail for reasons of its own. */
    method SealLog(willSucceed: bool) returns (json: Option<SessionView>)
      modifies this
      ensures View() == old(View())
      ensures json == if willSucceed then Some(View()) else None
      ensures closed == (old(closed) || willSucceed)
    {
      if !willSucceed {
        return None;
      }
      closed := true;
      return Some(View());
    }
  }

  class Vault {
    var session: Session?
    var isSealed: bool
    var attestation: Option<SessionView>
    var pending: seq<Record>
    var ingress: nat
    var egress: nat
    var blocked: nat

    ghost predicate Valid()
      reads this, session
    {
      session != null && session.closed ==> isSealed
    }

    ghost function View(): State
      reads this, session
    {
      State(if session == null then None else Some(session.View()),
            isSealed, attestation, pending, ingress, egress, blocked)
    }

    constructor ()
      ensures Valid() && View() == INITIAL
    {
      session, isSealed, attestation, pending := null, false, None, [];
      ingress, egress, blocked := 0, 0, 0;
    }

    method VaultLog(rec: Record)
      requires Valid()
      modifies this`pending, session
      ensures Valid() && View() == Logged(old(View()), rec)
      ensures session == old(session) && (session != null ==> session.closed == old(session.closed))
    {
      if isSealed {
        return;
      }
      if session == null {
        pending := pending + [rec];
        return;
      }
      var _ := session.LogOperation(rec);
    }

    method FlushPending()
      requires Valid() && session != null && !session.closed
      modifies this`pending, session
      ensures Valid() && session == old(session) && session != null
      ensures View() == Flushed(old(View()))
    {
      var queued := pending;
      pending := [];
      for i := 0 to |queued|
        invariant Valid() && session == old(session) && session != null && !session.closed && pending == []
        invariant session.View() == old(session.View()).(ledger := old(session.ledger) + queued[..i])
      {
        var _ := session.LogOperation(queued[i]);
        assert queued[..i + 1] == queued[..i] + [queued[i]];
      }
      assert queued[..|queued|] == queued;
    }

    method SyncTraffic()
      requires Valid()
      modifies session
      ensures Valid() && View() == Synced(old(View())) && session == old(session)
    {
      if session != null && !isSealed {
        session.NoteTraffic(ingress, egress);
      }
    }

    method AddIngress(bytes: int)
      requires Valid()
      modifies this`ingress, session
      ensures Valid() && View() == Apply(old(View()), Ingress(bytes))
    {
      if bytes > 0 {
        ingress := ingress + bytes;
        SyncTraffic();
      }
    }

    /** The accounting in the beacon hook. */
    method AddEgress(bytes: int)
      requires Valid()
      modifies this`egress, session
      ensures Valid() && View() == Apply(old(View()), Egress(bytes))
    {
      if bytes > 0 {
        egress := egress + bytes;
        SyncTraffic();
      }
    }

    method RecordBlocked(params: string)
      requires Valid()
      modifies this`blocked, this`pending, session
      ensures Valid() && View() == Apply(old(View()), Block(params))
    {
      blocked := blocked + 1;
      VaultLog(Record(BLOCKED_OP, params));
      SyncTraffic();
    }

    method SealSession(ok: bool)
      requires Valid()
      modifies this`isSealed, this`attestation, session
      ensures Valid() && View() == Apply(old(View()), Seal(ok))
    {
      if session == null || isSealed {
        return;
      }
      session.NoteTraffic(ingress, egress);
      var json := session.SealLog(ok);
      if json == None {
        return;
      }
      isSealed := true;
      attestation := json;
    }

    /** `initVault` */
    method InitVault(startParams: string)
      requires Valid()
      modifies this`session, this`pending
      ensures Valid() && View() == Apply(old(View()), Init(startParams))
    {
      session := new Session();
      VaultLog(Record(START_OP, startParams));
      FlushPending();
      SyncTraffic();
    }
  }

  // ------------------------------------------------------- what every run keeps

  function RecordOf(e: Event): seq<Record> {
    match e
    case Log(rec) => [rec]
    case Block(params) => [Record(BLOCKED_OP, params)]
    case _ => []
  }

  /** The operations that arrive before the session is sealed, in arrival order. */
  function Operations(events: seq<Event>): seq<Record> {
    if events == [] then []
    else
      var before := events[..|events| - 1];
      if Run(before).sealed then Operations(before)
      else Operations(before) + RecordOf(events[|events| - 1])
  }

  // ------------------------------------------ runs with any number of initialisations

  /** The operations recorded by the events from number `from` on. */
  function OperationsFrom(events: seq<Event>, from: nat): seq<Record> {
    if |events| <= from then []
    else
      var before := events[..|events| - 1];
      OperationsFrom(before, from) + if Run(before).sealed then [] else RecordOf(events[|events| - 1])
  }

  predicate LastInit(events: seq<Event>, i: nat) {
    && i < |events| && events[i].Init?
    && forall j :: i < j < |events| ==> !events[j].Init?
  }

  predicate NoInit(events: seq<Event>) {
    forall j :: 0 <= j < |events| ==> !events[j].Init?
  }

  /** What the initialisation at `i` starts the ledger with: its start record, unless
      the vault was sealed before, and what had waited for the first initialisation. */
  function Opening(events: seq<Event>, i: nat): seq<Record>
    requires i < |events| && events[i].Init?
  {
    (if Run(events[..i]).sealed then [] else [Record(START_OP, events[i].startParams)])
    + if NoInit(events[..i]) then Operations(events[..i]) else []
  }

  lemma {:induction false} BeforeInit(events: seq<Event>)
    requires NoInit(events)
    ensures var s := Run(events); s.session.None? && !s.sealed && s.pending == Operations(events)
  {
    if events == [] {
    } else {
      var k := |events| - 1;
      BeforeInit(events[..k]);
      QuietStep(Run(events[..k]), events[k]);
      hide Apply, RecordOf;
    }
  }

  lemma QuietStep(s: State, e: Event)
    requires s.session.None? && !s.sealed && !e.Init?
    ensures var n := Apply(s, e); n.session.None? && !n.sealed && n.pending == s.pending + RecordOf(e)
  {
  }

  /** In any run whatever, the ledger is what the last initialisation opened it with,
      and then the operations since in arrival order, until the seal. */
  lemma {:induction false} LedgerOfAnyRun(events: seq<Event>, i: nat)
    requires LastInit(events, i)
    ensures var s := Run(events);
            && s.session.Some? && s.pending == []
            && s.session.value.ledger == Opening(events, i) + OperationsFrom(events, i + 1)
    decreases |events|, 0
  {
    hide Apply, Operations, RecordOf, NoInit;
    var k := |events| - 1;
    var before := events[..k];
    if i == k {
      QueueBefore(before);
      assert OperationsFrom(events, i + 1) == [];
      InitStep(Run(before), events[k].startParams);
      assert Opening(events, i) + [] == Opening(events, i);
    } else {
      LedgerOfAnyRun(before, i);
      assert before[..i] == events[..i];
      var opening := Opening(before, i);
      AnyStep(Run(before), events[k]);
      var rs := if Run(before).sealed then [] else RecordOf(events[k]);
      assert opening + OperationsFrom(before, i + 1) + rs == opening + (OperationsFrom(before, i + 1) + rs);
      hide Run, Opening;
    }
  }

  /** The queue before an initialisation: all operations, or none if there was an
      initialisation already. */
  lemma QueueBefore(events: seq<Event>)
    ensures Run(events).pending == if NoInit(events) then Operations(events) else []
    decreases |events|, 1
  {
    if NoInit(events) {
      BeforeInit(events);
    } else {
      var i := LatestInit(events);
      LedgerOfAnyRun(events, i);
    }
  }

  lemma {:induction false} LatestInit(events: seq<Event>) returns (i: nat)
    requires !NoInit(events)
    ensures LastInit(events, i)
  {
    var k := |events| - 1;
    if events[k].Init? { return k; }
    i := LatestInit(events[..k]);
  }

  lemma InitStep(s: State, params: string)
    ensures var n := Apply(s, Init(params));
            && n.session.Some? && n.pending == []
            && n.session.value.ledger == (if s.sealed then [] else [Record(START_OP, params)]) + s.pending
  {
  }

  lemma AnyStep(s: State, e: Event)
    requires s.session.Some? && s.pending == [] && !e.Init?
    ensures var n := Apply(s, e);
            && n.session.Some? && n.pending == []
            && n.session.value.ledger == s.session.value.ledger + if s.sealed then [] else RecordOf(e)
  {
    assert s.session.value.ledger + [] == s.session.value.ledger;
  }

  // ------------------------------------------------- runs with one initialisation

  ghost predicate AtMostOneInit(events: seq<Event>) {
    forall i, j :: 0 <= i < j < |events| ==> !(events[i].Init? && events[j].Init?)
  }

  lemma {:induction false} OperationsSplit(events: seq<Event>, i: nat)
    requires i <= |events|
    ensures Operations(events) == Operations(events[..i]) + OperationsFrom(events, i)
  {
    hide Operations, OperationsFrom, LastOf;
    if i == |events| {
      assert events[..i] == events;
      NoneFrom(events, i);
      assert Operations(events) + [] == Operations(events);
    } else {
      var before := events[..|events| - 1];
      OperationsSplit(before, i);
      assert before[..i] == events[..i];
      LastOperation(events, i);
      var ops, more, last := Operations(events[..i]), OperationsFrom(before, i), LastOf(events);
      assert ops + more + last == ops + (more + last);
    }
  }

  lemma NoneFrom(events: seq<Event>, i: nat)
    requires i >= |events|
    ensures OperationsFrom(events, i) == []
  {
  }

  /** What the last event records. */
  function LastOf(events: seq<Event>): seq<Record>
    requires events != []
  {
    if Run(events[..|events| - 1]).sealed then [] else RecordOf(events[|events| - 1])
  }

  lemma LastOperation(events: seq<Event>, i: nat)
    requires i < |events|
    ensures var before := events[..|events| - 1];
            && Operations(events) == Operations(before) + LastOf(events)
            && OperationsFrom(events, i) == OperationsFrom(before, i) + LastOf(events)
  {
    hide Run, RecordOf;
    var ops := Operations(events[..|events| - 1]);
    assert ops + [] == ops;
  }

  lemma {:induction false} AttestationMatches(events: seq<Event>)
    requires AtMostOneInit(events)
    ensures var s := Run(events); (s.sealed <==> s.attestation.Some?) && (s.sealed ==> s.attestation == s.session)
  {
    hide Apply, Operations;
    if events != [] {
      var k := |events| - 1;
      AttestationMatches(events[..k]);
      if events[k].Init? { BeforeInit(events[..k]); }
      AttestationStep(Run(events[..k]), events[k]);
    }
  }

  lemma AttestationStep(s: State, e: Event)
    requires (s.sealed <==> s.attestation.Some?) && (s.sealed ==> s.attestation == s.session && !e.Init?)
    ensures var n := Apply(s, e); (n.sealed <==> n.attestation.Some?) && (n.sealed ==> n.attestation == n.session)
  {
  }

  /** The ledger is the start record and then every operation in arrival order,
      those from before the session first; until then they wait in the queue. */
  lemma LedgerIsArrivalOrder(events: seq<Event>)
    requires AtMostOneInit(events)
    ensures var s := Run(events);
            && (s.session.None? ==>
                  s.pending == Operations(events) && !s.sealed && forall e :: e in events ==> !e.Init?)
            && (s.session.Some? ==>
                  && s.pending == []
                  && exists e :: e in events && e.Init?
                                 && s.session.value.ledger == [Record(START_OP, e.startParams)] + Operations(events))
            && (s.sealed <==> s.attestation.Some?) && (s.sealed ==> s.attestation == s.session)
  {
    hide Run, Operations, OperationsFrom;
    AttestationMatches(events);
    if NoInit(events) {
      BeforeInit(events);
    } else {
      var i := LatestInit(events);
      LedgerOfAnyRun(events, i);
      BeforeInit(events[..i]);
      assert events[..i + 1][..i] == events[..i];
      OperationsSplit(events, i + 1);
      InitIsNoOperation(events[..i + 1]);
      var start, ops := [Record(START_OP, events[i].startParams)], Operations(events[..i]);
      assert start + ops + OperationsFrom(events, i + 1) == start + (ops + OperationsFrom(events, i + 1));
      assert events[i] in events;
    }
  }

  lemma InitIsNoOperation(events: seq<Event>)
    requires events != [] && events[|events| - 1].Init?
    ensures Operations(events) == Operations(events[..|events| - 1])
  {
  }

  /** Once sealed, no event but a second initialisation changes the session, and
      nothing at all changes the attestation. */
  lemma SealedIsFrozen(s: State, e: Event)
    requires s.sealed
    ensures Apply(s, e).sealed && Apply(s, e).attestation == s.attestation
    ensures !e.Init? ==> Apply(s, e).session == s.session && Apply(s, e).pending == s.pending
  {
  }

  /** The positive amounts of one direction. */
  function AmountOf(e: Event, incoming: bool): nat {
    match e
    case Ingress(bytes) => if incoming && bytes > 0 then bytes else 0
    case Egress(bytes) => if !incoming && bytes > 0 then bytes else 0
    case _ => 0
  }

  function AmountSum(events: seq<Event>, incoming: bool): nat {
    if events == [] then 0
    else AmountSum(events[..|events| - 1], incoming) + AmountOf(events[|events| - 1], incoming)
  }

  function BlockCount(events: seq<Event>): nat {
    if events == [] then 0
    else BlockCount(events[..|events| - 1]) + if events[|events| - 1].Block? then 1 else 0
  }

  /** The counters of any run, sealed or not: sums of the positive amounts, and the
      number of blocked requests. */
  lemma {:induction false} CountersMeaning(events: seq<Event>)
    ensures Run(events).ingress == AmountSum(events, true) && Run(events).egress == AmountSum(events, false)
    ensures Run(events).blocked == BlockCount(events)
  {
    if events != [] { CountersMeaning(events[..|events| - 1]); }
  }

  /** A successful seal after some initialisation. */
  ghost predicate SealedAt(events: seq<Event>, j: nat, k: nat) {
    j < k < |events| && events[j].Init? && events[k] == Seal(true)
  }

  /** There is a session once the vault was initialised, and it is sealed by the first
      successful seal after that; then there is an attestation. */
  lemma {:induction false} PhaseMeaning(events: seq<Event>)
    ensures Run(events).session.Some? <==> !NoInit(events)
    ensures Run(events).sealed <==> exists j, k :: SealedAt(events, j, k)
    ensures Run(events).sealed <==> Run(events).attestation.Some?
  {
    NoInitLast(events);
    if events != [] {
      var k := |events| - 1;
      var before := events[..k];
      PhaseMeaning(before);
      forall i: nat, j: nat ensures SealedAt(before, i, j) <==> SealedAt(events, i, j) && j < k {
      }
      if events[k] == Seal(true) && !NoInit(before) {
        var j :| 0 <= j < k && before[j].Init?;
        assert SealedAt(events, j, k);
      }
    }
  }

  /** The records of a small run, word for word. */
  lemma SampleRun(first: Record, params: string, request: string, last: Record)
    ensures Run([Log(first), Init(params), Block(request), Log(last)]).session ==
            Some(SessionView([Record("session.start", params), first,
                              Record("net.external.blocked", request), last], 0, 0))
  {
    RunAppend([], Log(first));
    RunAppend([Log(first)], Init(params));
    RunAppend([Log(first), Init(params)], Block(request));
    RunAppend([Log(first), Init(params), Block(request)], Log(last));
    assert [] + [Log(first)] == [Log(first)];
    assert [Log(first)] + [Init(params)] == [Log(first), Init(params)];
    assert [Log(first), Init(params)] + [Block(request)] == [Log(first), Init(params), Block(request)];
    assert [Log(first), Init(params), Block(request)] + [Log(last)] ==
           [Log(first), Init(params), Block(request), Log(last)];
    var start, refused := Record("session.start", params), Record("net.external.blocked", request);
    var a := Apply(INITIAL, Log(first));
    var b := Apply(a, Init(params));
    var c := Apply(b, Block(request));
    assert [] + [first] == [first] && [] + [start] + [first] == [start, first];
    assert a.pending == [first] && b.session.value.ledger == [start, first];
    assert [start, first] + [refused] == [start, first, refused];
    assert c.session.value.ledger == [start, first, refused];
    assert [start, first, refused] + [last] == [start, first, refused, last];
  }

  /** From the seal on, whatever happens and however often the vault was initialised
      before: the attestation is the session at the seal, with the counters of that
      moment as totals. The session itself stays so exactly until it is initialised
      again, which leaves an empty one that records nothing. */
  lemma {:induction false} SealBindsTotals(events: seq<Event>, more: seq<Event>)
    requires events != []
    requires var k := |events| - 1;
             !Run(events[..k]).sealed && events[k] == Seal(true) && Run(events[..k]).session.Some?
    ensures var s, n := Run(events), Run(events + more);
            && n.sealed && n.pending == [] && n.attestation == s.session
            && s.session.Some? && s.session.value.ingress == s.ingress && s.session.value.egress == s.egress
            && n.session == (if NoInit(more) then s.session else Some(SessionView([], 0, 0)))
            && (n.session == n.attestation <==> NoInit(more))
    decreases |more|
  {
    hide Run, Apply, NoInit;
    SealMoment(events);
    NoInitLast(more);
    if more == [] {
      assert events + more == events;
    } else {
      var m := |more| - 1;
      SealBindsTotals(events, more[..m]);
      assert events + more == events + more[..m] + [more[m]];
      RunAppend(events + more[..m], more[m]);
      SealedStep(Run(events + more[..m]), more[m]);
    }
  }

  lemma NoInitLast(events: seq<Event>)
    ensures NoInit(events) <==> events == [] || (NoInit(events[..|events| - 1]) && !events[|events| - 1].Init?)
  {
  }

  lemma RunAppend(events: seq<Event>, e: Event)
    ensures Run(events + [e]) == Apply(Run(events), e)
  {
    hide Apply;
    assert (events + [e])[..|events|] == events;
  }

  lemma SealMoment(events: seq<Event>)
    requires events != []
    requires var k := |events| - 1;
             !Run(events[..k]).sealed && events[k] == Seal(true) && Run(events[..k]).session.Some?
    ensures var s := Run(events);
            && s.sealed && s.pending == [] && s.attestation == s.session && s.session.Some?
            && s.session.value.ingress == s.ingress && s.session.value.egress == s.egress
            && s.session.value.ledger != []
  {
    hide Apply, Operations;
    var before := events[..|events| - 1];
    OpenSession(before);
    SealStep(Run(before));
  }

  lemma SealStep(s: State)
    requires !s.sealed && s.session.Some?
    ensures var n := Apply(s, Seal(true));
            && n.sealed && n.pending == s.pending && n.attestation == n.session && n.session.Some?
            && n.session.value.ingress == n.ingress && n.session.value.egress == n.egress
            && n.session.value.ledger == s.session.value.ledger
  {
  }

  /** The ledger of an open session has at least its start record. */
  lemma OpenSession(events: seq<Event>)
    requires Run(events).session.Some? && !Run(events).sealed
    ensures Run(events).pending == [] && Run(events).session.value.ledger != []
  {
    hide Run, Operations, OperationsFrom;
    InitCame(events);
    var i := LatestInit(events);
    LedgerOfAnyRun(events, i);
    StillOpen(events, i);
  }

  /** What is not sealed was not sealed before. */
  lemma {:induction false} StillOpen(events: seq<Event>, i: nat)
    requires i <= |events| && !Run(events).sealed
    ensures !Run(events[..i]).sealed
    decreases |events|
  {
    if i == |events| {
      assert events[..i] == events;
    } else {
      var before := events[..|events| - 1];
      if Run(before).sealed { SealedIsFrozen(Run(before), events[|events| - 1]); }
      StillOpen(before, i);
      assert before[..i] == events[..i];
    }
  }

  lemma SealedStep(s: State, e: Event)
    requires s.sealed && s.session.Some? && s.pending == []
    ensures var n := Apply(s, e);
            && n.sealed && n.pending == [] && n.attestation == s.attestation
            && n.session == if e.Init? then Some(SessionView([], 0, 0)) else s.session
  {
    assert s.pending + s.pending == [];
  }

  lemma {:induction false} InitCame(events: seq<Event>)
    requires Run(events).session.Some?
    ensures exists i :: 0 <= i < |events| && events[i].Init?
  {
    if events != [] {
      var k := |events| - 1;
      if !events[k].Init? {
        InitCame(events[..k]);
        var i :| 0 <= i < k && events[..k][i].Init?;
        assert events[i].Init?;
      }
    }
  }

  function CountBlocked(rs: seq<Record>): nat {
    if rs == [] then 0
    else CountBlocked(rs[..|rs| - 1]) + if rs[|rs| - 1].op == BLOCKED_OP then 1 else 0
  }

  lemma {:induction false} CountBlockedConcat(a: seq<Record>, b: seq<Record>)
    ensures CountBlocked(a + b) == CountBlocked(a) + CountBlocked(b)
  {
    if b == [] {
      assert a + b == a;
    } else {
      var k := |b| - 1;
      CountBlockedConcat(a, b[..k]);
      assert (a + b)[..|a| + k] == a + b[..k];
    }
  }

  /** All records, in the ledger or waiting. */
  function AllRecords(s: State): seq<Record> {
    (if s.session.Some? then s.session.value.ledger else []) + s.pending
  }

  /** Blocked requests that came after the seal, and logged operations that used
      the reserved name although no request was blocked. */
  function BlockedAfterSeal(events: seq<Event>): nat {
    if events == [] then 0
    else
      var k := |events| - 1;
      BlockedAfterSeal(events[..k]) + if events[k].Block? && Run(events[..k]).sealed then 1 else 0
  }

  function LoggedAsBlocked(events: seq<Event>): nat {
    if events == [] then 0
    else
      var k := |events| - 1;
      LoggedAsBlocked(events[..k])
      + if events[k].Log? && events[k].rec.op == BLOCKED_OP && !Run(events[..k]).sealed then 1 else 0
  }

  /** The blocked requests whose records the last initialisation threw away: all
      before it, unless it was the first, for which they had waited. */
  function BlockedDiscarded(events: seq<Event>): nat {
    if events == [] then 0
    else
      var k := |events| - 1;
      if !events[k].Init? then BlockedDiscarded(events[..k])
      else if NoInit(events[..k]) then 0
      else CountBlocked(Operations(events[..k]))
  }

  /** In any run the counter and the records agree, up to exactly the two kinds above
      and what was thrown away. */
  lemma BlockedCounted(events: seq<Event>)
    ensures Run(events).blocked + LoggedAsBlocked(events) ==
            CountBlocked(AllRecords(Run(events))) + BlockedAfterSeal(events) + BlockedDiscarded(events)
    ensures Run(events).blocked + LoggedAsBlocked(events) ==
            CountBlocked(AllRecords(Run(events))) + BlockedAfterSeal(events)
            <==> BlockedDiscarded(events) == 0
    ensures AtMostOneInit(events) ==> BlockedDiscarded(events) == 0
  {
    BlockedOperations(events);
    RecordsOfRun(events);
    if AtMostOneInit(events) { OneInitDiscardsNothing(events); }
    hide *;
  }

  lemma {:induction false} OneInitDiscardsNothing(events: seq<Event>)
    requires AtMostOneInit(events)
    ensures BlockedDiscarded(events) == 0
  {
    if events != [] {
      var k := |events| - 1;
      if !events[k].Init? { OneInitDiscardsNothing(events[..k]); }
    }
  }

  lemma {:induction false} BlockedOperations(events: seq<Event>)
    ensures Run(events).blocked + LoggedAsBlocked(events) == CountBlocked(Operations(events)) + BlockedAfterSeal(events)
  {
    if events != [] {
      var k := |events| - 1;
      var s, e := Run(events[..k]), events[k];
      BlockedOperations(events[..k]);
      BlockedStep(s, e);
      CountBlockedConcat(Operations(events[..k]), RecordOf(e));
      CountOne(e);
      hide Apply, CountBlocked, RecordOf;
    }
  }

  lemma BlockedStep(s: State, e: Event)
    ensures Apply(s, e).blocked == s.blocked + if e.Block? then 1 else 0
  {
  }

  lemma CountOne(e: Event)
    ensures CountBlocked(RecordOf(e)) == if e.Block? || (e.Log? && e.rec.op == BLOCKED_OP) then 1 else 0
  {
    var rs := RecordOf(e);
    if rs != [] { assert rs[..0] == []; }
  }

  lemma RecordsOfRun(events: seq<Event>)
    ensures CountBlocked(Operations(events)) == CountBlocked(AllRecords(Run(events))) + BlockedDiscarded(events)
  {
    if NoInit(events) {
      BeforeInit(events);
      NothingDiscarded(events);
      assert AllRecords(Run(events)) == Run(events).pending;
    } else {
      var i := LatestInit(events);
      RecordsSince(events, i);
    }
  }

  lemma {:induction false} NothingDiscarded(events: seq<Event>)
    requires NoInit(events)
    ensures BlockedDiscarded(events) == 0
  {
    if events != [] { NothingDiscarded(events[..|events| - 1]); }
  }

  lemma {:induction false} DiscardedByLast(events: seq<Event>, i: nat)
    requires LastInit(events, i)
    ensures BlockedDiscarded(events) == if NoInit(events[..i]) then 0 else CountBlocked(Operations(events[..i]))
  {
    hide Operations, CountBlocked;
    var k := |events| - 1;
    if i < k {
      DiscardedByLast(events[..k], i);
      assert events[..k][..i] == events[..i];
    }
  }

  lemma RecordsSince(events: seq<Event>, i: nat)
    requires LastInit(events, i)
    ensures CountBlocked(Operations(events)) == CountBlocked(AllRecords(Run(events))) + BlockedDiscarded(events)
  {
    hide Run, Operations, OperationsFrom, CountBlocked, NoInit, BlockedDiscarded, Opening;
    var s, ops, more := Run(events), Operations(events[..i]), OperationsFrom(events, i + 1);
    LedgerOfAnyRun(events, i);
    assert s.session.value.ledger + [] == s.session.value.ledger;
    CountBlockedConcat(Opening(events, i), more);
    OpeningBlocked(events, i);
    OperationsSplit(events, i + 1);
    assert events[..i + 1][..i] == events[..i];
    InitIsNoOperation(events[..i + 1]);
    CountBlockedConcat(ops, more);
    DiscardedByLast(events, i);
  }

  /** The start record is not a blocked one. */
  lemma OpeningBlocked(events: seq<Event>, i: nat)
    requires i < |events| && events[i].Init?
    ensures CountBlocked(Opening(events, i)) == if NoInit(events[..i]) then CountBlocked(Operations(events[..i])) else 0
  {
    hide Run, Operations, NoInit;
    var start := if Run(events[..i]).sealed then [] else [Record(START_OP, events[i].startParams)];
    var queue := if NoInit(events[..i]) then Operations(events[..i]) else [];
    CountBlockedConcat(start, queue);
    if start != [] { assert start[..0] == []; }
  }

  /** So after a second initialisation they disagree as soon as a request had been
      blocked before the first: the record is gone and the counter is not. */
  lemma BlockedBeforeReinit(params: string, request: string)
    ensures var s := Run([Init(params), Block(request), Init(params)]);
            s.blocked == 1 && CountBlocked(AllRecords(s)) == 0
  {
    var before := [Init(params), Block(request)];
    var events := before + [Init(params)];
    assert events == [Init(params), Block(request), Init(params)];
    assert before[..1] == [Init(params)] && [Init(params)][..0] == [];
    RunAppend(before, Init(params));
    assert Run([Init(params)]).blocked == 0 && Run([Init(params)]).session.Some?;
    assert before[0].Init?;
    SecondInitLosesLedger(before, params);
    LedgerOfAnyRun(events, 2);
    var r := Record(START_OP, params);
    assert [r][..0] == [];
  }

  /** Calling `initVault` again discards the whole ledger, and after a seal even the
      start record is missing: the once-only condition is needed. */
  lemma SecondInitLosesLedger(events: seq<Event>, params: string)
    requires !NoInit(events)
    ensures Run(events + [Init(params)]).session.Some?
    ensures Run(events + [Init(params)]).session.value.ledger ==
            if Run(events).sealed then [] else [Record(START_OP, params)]
  {
    var all, n := events + [Init(params)], |events|;
    assert all[..n] == events && all[n] == Init(params);
    LedgerOfAnyRun(all, n);
    hide Run, Operations;
    assert OperationsFrom(all, n + 1) == [];
  }

  /** In every run, whatever the initialisations, the totals in an unsealed session
      are the counters. */
  lemma {:induction false} TotalsCurrent(events: seq<Event>)
    ensures var s := Run(events);
            s.session.Some? && !s.sealed ==> s.session.value.ingress == s.ingress && s.session.value.egress == s.egress
  {
    if events != [] { TotalsCurrent(events[..|events| - 1]); }
  }
}
