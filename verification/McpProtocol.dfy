/** Requests, restarts, discards, expiries and revocations in any order: one step per
    stretch of code between two awaits (specivo/mcp/persistent_session_manager.py). */
module McpProtocol {
  import opened Wrappers
  import Store = SessionStore
  import opened McpSessions

  /** How a session was opened: the credential, and the first transport. */
  datatype Opening = Opening(key: Option<string>, first: Transport)

  /** What only grows: the sessions opened, and the keys issued. */
  datatype History = History(openings: map<string, Opening>, issued: map<string, Owner>)

  /** Where a request stands; the last four are final. */
  datatype Pc =
    | Peeking(id: string)
    | Resolving(id: string, persisted: Store.Fields)
    | Locking(session: Option<string>)
    | Touching(transport: Transport)      // holds the lock, as do the next three
    | Refreshing(transport: Transport)
    | Registering(transport: Transport)
    | Persisting(transport: Transport, owner: Owner)
    | Served(transport: Transport)
    | NotFound
    | TooMany
    | Gone
  {
    predicate Holds() { Touching? || Refreshing? || Registering? || Persisting? }
    predicate Final() { Served? || NotFound? || TooMany? || Gone? }
  }

  datatype Request = Request(header: Option<string>, key: Option<string>, userAgent: Option<string>, pc: Pc)

  /** `looks` and `writes` are the background touches, before and after they found the
      session in Redis. */
  datatype State = State(
    maps: Maps, lock: Option<nat>, serial: nat, requests: seq<Request>,
    entries: Store.Entries, now: nat, looks: multiset<string>, writes: multiset<string>,
    usable: set<string>, h: History)

  datatype Config = Config(maxSessions: Option<nat>, ttl: int)

  /** `answers` is false when Redis or the database fails, `lands` when a write is lost. */
  datatype Step =
    | Arrive(header: Option<string>, key: Option<string>, userAgent: Option<string>)
    | Peek(r: nat, answers: bool)
    | Resolve(r: nat, answers: bool)
    | Start(r: nat, uuid: string)
    | Touch(r: nat, answers: bool)
    | Refresh(r: nat, lands: bool)
    | Register(r: nat, answers: bool)
    | Persist(r: nat, lands: bool)
    | Abort(r: nat)
    | TouchInBackground(id: string, answers: bool)
    | RefreshInBackground(id: string, lands: bool)
    | Discard(transport: Transport)
    | Restart
    | Tick(elapsed: nat)
    | Lose(id: string)
    | Issue(rawKey: string, owner: Owner)
    | SetUsable(keys: set<string>)
  {
    /** A step of a request that has arrived. */
    predicate OfRequest() { Peek? || Resolve? || Start? || Touch? || Refresh? || Register? || Persist? || Abort? }
  }

  /** `resolve_key_owner`: None for an unknown or unusable key. */
  function Resolved(s: State, key: Option<string>): Option<Owner> {
    if key.Some? && key.value in s.h.issued && key.value in s.usable then Some(s.h.issued[key.value]) else None
  }

  predicate Enabled(s: State, step: Step) {
    (step.OfRequest() ==> step.r < |s.requests|) &&
    match step
    case Peek(r, _) => s.requests[r].pc.Peeking?
    case Resolve(r, _) => s.requests[r].pc.Resolving?
    case Start(r, uuid) =>
      s.requests[r].pc.Locking? && s.lock.None? && uuid != "" && uuid !in s.h.openings
    case Touch(r, _) => s.requests[r].pc.Touching?
    case Refresh(r, _) => s.requests[r].pc.Refreshing?
    case Register(r, _) => s.requests[r].pc.Registering?
    case Persist(r, _) => s.requests[r].pc.Persisting?
    case Abort(r) => !s.requests[r].pc.Final()
    case TouchInBackground(id, _) => id in s.looks
    case RefreshInBackground(id, _) => id in s.writes
    case Issue(key, owner) =>
      key !in s.h.issued && forall k :: k in s.h.issued ==> s.h.issued[k].apiKeyId != owner.apiKeyId
    case _ => true
  }

  /** Request `r` moves to `pc`. */
  function At(s: State, r: nat, pc: Pc): State
    requires r < |s.requests|
  {
    s.(requests := s.requests[r := s.requests[r].(pc := pc)])
  }

  function RefreshedIf(config: Config, s: State, id: string, lands: bool): Store.Entries {
    if lands then Store.Refreshed(s.entries, id, s.now, s.now, config.ttl) else s.entries
  }

  function DoArrive(s: State, header: Option<string>, key: Option<string>, userAgent: Option<string>): State {
    var route := Routed(s.maps, header, key);
    var pc :=
      match route
      case Handle(transport) => Served(transport)
      case Refuse => NotFound
      case Open => Locking(None)
      case LookUp(id) => Peeking(id);
    s.(requests := s.requests + [Request(header, key, userAgent, pc)],
       looks := if route.Handle? then s.looks + multiset{header.GetOr("")} else s.looks)
  }

  /** `_owns_persisted_session` asks the database only when there is an owner to compare. */
  function DoPeek(s: State, r: nat, answers: bool): State
    requires r < |s.requests| && s.requests[r].pc.Peeking?
  {
    var q := s.requests[r];
    var persisted := if answers then Store.Live(s.entries, q.pc.id, s.now) else None;
    At(s, r, if persisted.Some? && q.key.Some? && StoredOwner(persisted.value).Some?
             then Resolving(q.pc.id, persisted.value) else NotFound)
  }

  function DoResolve(s: State, r: nat, answers: bool): State
    requires r < |s.requests| && s.requests[r].pc.Resolving?
  {
    var q := s.requests[r];
    var resolved := if answers then Resolved(s, q.key) else None;
    At(s, r, if Owns(q.pc.persisted, q.key, resolved) then Locking(Some(q.pc.id)) else NotFound)
  }

  function DoStart(config: Config, s: State, r: nat, uuid: string): State
    requires r < |s.requests| && s.requests[r].pc.Locking?
  {
    var q := s.requests[r];
    match StartOf(s.maps, config.maxSessions, q.pc.session, uuid, s.serial)
    case Known(transport) => At(s, r, Served(transport))
    case Full => At(s, r, TooMany)
    case Started(transport) =>
      At(s, r, if q.pc.session.Some? then Touching(transport) else Registering(transport))
      .(maps := Adopted(s.maps, transport, q.key), lock := Some(r), serial := s.serial + 1,
        h := if q.pc.session.Some? then s.h
             else s.h.(openings := s.h.openings[transport.id := Opening(q.key, transport)]))
  }

  /** The holder of the lock moves, and lets go when it is done. */
  function Unlocking(s: State, r: nat, pc: Pc, entries: Store.Entries): State
    requires r < |s.requests|
  {
    At(s, r, pc).(lock := if pc.Holds() then Some(r) else None, entries := entries)
  }

  function DoTouch(s: State, r: nat, answers: bool): State
    requires r < |s.requests| && s.requests[r].pc.Touching?
  {
    var t := s.requests[r].pc.transport;
    Unlocking(s, r, if answers && Store.Live(s.entries, t.id, s.now).Some? then Refreshing(t) else Served(t), s.entries)
  }

  function DoRefresh(config: Config, s: State, r: nat, lands: bool): State
    requires r < |s.requests| && s.requests[r].pc.Refreshing?
  {
    var t := s.requests[r].pc.transport;
    Unlocking(s, r, Served(t), RefreshedIf(config, s, t.id, lands))
  }

  function DoRegister(s: State, r: nat, answers: bool): State
    requires r < |s.requests| && s.requests[r].pc.Registering?
  {
    var q := s.requests[r];
    var owner := if answers then Resolved(s, q.key) else None;
    Unlocking(s, r, if owner.Some? then Persisting(q.pc.transport, owner.value) else Served(q.pc.transport), s.entries)
  }

  /** The entries once request `q` has recorded its new session. */
  function Recorded(config: Config, s: State, q: Request): Store.Entries
    requires q.pc.Persisting?
  {
    var payload := Store.Payload(s.now, Metadata(q.pc.owner, q.userAgent));
    Store.Created(s.entries, q.pc.transport.id, payload, s.now, config.ttl)
  }

  function DoPersist(config: Config, s: State, r: nat, lands: bool): State
    requires r < |s.requests| && s.requests[r].pc.Persisting?
  {
    var q := s.requests[r];
    Unlocking(s, r, Served(q.pc.transport), if lands then Recorded(config, s, q) else s.entries)
  }

  function Do(config: Config, s: State, step: Step): State
    requires Enabled(s, step)
  {
    match step
    case Arrive(header, key, userAgent) => DoArrive(s, header, key, userAgent)
    case Peek(r, answers) => DoPeek(s, r, answers)
    case Resolve(r, answers) => DoResolve(s, r, answers)
    case Start(r, uuid) => DoStart(config, s, r, uuid)
    case Touch(r, answers) => DoTouch(s, r, answers)
    case Refresh(r, lands) => DoRefresh(config, s, r, lands)
    case Register(r, answers) => DoRegister(s, r, answers)
    case Persist(r, lands) => DoPersist(config, s, r, lands)
    case Abort(r) => At(s, r, Gone).(lock := if s.lock == Some(r) then None else s.lock)
    case TouchInBackground(id, answers) =>
      s.(looks := s.looks - multiset{id},
         writes := if answers && Store.Live(s.entries, id, s.now).Some? then s.writes + multiset{id} else s.writes)
    case RefreshInBackground(id, lands) =>
      s.(writes := s.writes - multiset{id}, entries := RefreshedIf(config, s, id, lands))
    case Discard(transport) => s.(maps := Discarded(s.maps, transport))
    case Restart =>
      s.(maps := Maps(map[], map[]), lock := None, looks := multiset{}, writes := multiset{},
         requests := seq(|s.requests|, i requires 0 <= i < |s.requests| =>
           if s.requests[i].pc.Final() then s.requests[i] else s.requests[i].(pc := Gone)))
    case Tick(elapsed) => s.(now := s.now + elapsed)
    case Lose(id) => s.(entries := s.entries - {id})
    case Issue(key, owner) => s.(h := s.h.(issued := s.h.issued[key := owner]))
    case SetUsable(keys) => s.(usable := keys)
  }

  const Init := State(Maps(map[], map[]), None, 0, [], map[], 0, multiset{}, multiset{}, {}, History(map[], map[]))

  ghost predicate StepAt(config: Config, states: seq<State>, steps: seq<Step>, i: nat)
    requires |states| == |steps| + 1 && i < |steps|
  {
    Enabled(states[i], steps[i]) && states[i + 1] == Do(config, states[i], steps[i])
  }

  /** A run from an empty process and an empty store. */
  ghost predicate IsRun(config: Config, states: seq<State>, steps: seq<Step>) {
    && |states| == |steps| + 1
    && states[0] == Init
    && forall i :: 0 <= i < |steps| ==> StepAt(config, states, steps, i)
  }

  // -------------------------------------------------------------------------
  // The invariant
  // -------------------------------------------------------------------------

  predicate OpenedBy(h: History, id: string, key: Option<string>) {
    id in h.openings && h.openings[id].key == key
  }

  /** Whoever is recorded in `fields` is the credential that opened `id`. */
  predicate Vouches(h: History, fields: Store.Fields, id: string) {
    StoredOwner(fields).Some? ==>
      && id in h.openings && h.openings[id].key.Some?
      && h.openings[id].key.value in h.issued
      && StoredOwner(fields).value == Texts(h.issued[h.openings[id].key.value])
  }

  ghost predicate HistoryOk(h: History, serial: nat) {
    && "" !in h.openings
    && (forall id :: id in h.openings ==>
          h.openings[id].first.id == id && h.openings[id].first.serial < serial && !h.openings[id].first.initialized)
    && (forall k, l :: k in h.issued && l in h.issued && k != l ==> h.issued[k].apiKeyId != h.issued[l].apiKeyId)
  }

  /** `t` serves `id`, and skipped the handshake exactly when it is not the first. */
  predicate Serves(h: History, t: Transport, id: string) {
    t.id == id && id in h.openings && (t.initialized <==> t != h.openings[id].first)
  }

  ghost predicate MapsOk(m: Maps, h: History, serial: nat) {
    && (forall id :: id in m.owners ==> id in m.instances)
    && (forall id :: id in m.instances ==>
          && Serves(h, m.instances[id], id) && m.instances[id].serial < serial
          && OpenedBy(h, id, if id in m.owners then Some(m.owners[id]) else None))
  }

  ghost predicate EntriesOk(entries: Store.Entries, h: History) {
    forall id :: id in entries ==> Vouches(h, entries[id].fields, id)
  }

  /** A request is at a transport only with the credential that opened the session. */
  predicate TransportOk(q: Request, t: Transport, h: History) {
    && Serves(h, t, t.id) && OpenedBy(h, t.id, q.key)
    && (q.header.Some? ==> q.header.value == t.id && q.key.Some?)
  }

  predicate RequestOk(q: Request, h: History) {
    match q.pc
    case Peeking(id) => q.header == Some(id)
    case Resolving(id, persisted) =>
      q.header == Some(id) && q.key.Some? && StoredOwner(persisted).Some? && Vouches(h, persisted, id)
    case Locking(id) => q.header == id && (id.Some? ==> q.key.Some? && OpenedBy(h, id.value, q.key))
    case Touching(t) => TransportOk(q, t, h)
    case Refreshing(t) => TransportOk(q, t, h)
    case Registering(t) => TransportOk(q, t, h)
    case Persisting(t, owner) =>
      TransportOk(q, t, h) && q.key.Some? && q.key.value in h.issued && h.issued[q.key.value] == owner
    case Served(t) => TransportOk(q, t, h)
    case _ => true
  }

  ghost predicate RequestsOk(requests: seq<Request>, h: History) {
    forall r :: 0 <= r < |requests| ==> RequestOk(requests[r], h)
  }

  ghost predicate LockOk(s: State) {
    && (s.lock.Some? ==> s.lock.value < |s.requests|)
    && (forall r :: 0 <= r < |s.requests| ==> (s.requests[r].pc.Holds() <==> s.lock == Some(r)))
  }

  ghost predicate Inv(config: Config, s: State) {
    && HistoryOk(s.h, s.serial)
    && MapsOk(s.maps, s.h, s.serial)
    && EntriesOk(s.entries, s.h)
    && RequestsOk(s.requests, s.h)
    && LockOk(s)
    && (config.maxSessions.Some? ==> |s.maps.instances| <= config.maxSessions.value)
  }

  /** Sessions and keys are never forgotten or changed. */
  ghost predicate Grows(h: History, h': History) {
    && (forall id :: id in h.openings ==> id in h'.openings && h'.openings[id] == h.openings[id])
    && (forall k :: k in h.issued ==> k in h'.issued && h'.issued[k] == h.issued[k])
  }

  lemma RequestsStayOk(requests: seq<Request>, h: History, h': History)
    requires RequestsOk(requests, h) && Grows(h, h')
    ensures RequestsOk(requests, h')
  {
    forall r | 0 <= r < |requests| ensures RequestOk(requests[r], h') {
      assert RequestOk(requests[r], h);
    }
  }

  lemma EntriesStayOk(entries: Store.Entries, h: History, h': History)
    requires EntriesOk(entries, h) && Grows(h, h')
    ensures EntriesOk(entries, h')
  {
    forall id | id in entries ensures Vouches(h', entries[id].fields, id) {
      assert Vouches(h, entries[id].fields, id);
    }
  }

  lemma MapsStayOk(m: Maps, h: History, h': History, serial: nat, serial': nat)
    requires MapsOk(m, h, serial) && Grows(h, h') && serial <= serial'
    ensures MapsOk(m, h', serial')
  {
  }

  lemma RequestMoves(requests: seq<Request>, h: History, r: nat, q: Request)
    requires RequestsOk(requests, h) && r < |requests| && RequestOk(q, h)
    ensures RequestsOk(requests[r := q], h)
  {
  }

  /** A request that does not hold the lock moves without taking it. */
  lemma MovesWithoutLock(s: State, r: nat, pc: Pc)
    requires LockOk(s) && r < |s.requests| && !s.requests[r].pc.Holds() && !pc.Holds()
    ensures LockOk(At(s, r, pc))
  {
  }

  lemma MovesWithLock(s: State, s': State, r: nat, pc: Pc)
    requires LockOk(s) && r < |s.requests| && (s.lock == Some(r) || s.lock == None)
    requires s'.requests == At(s, r, pc).requests && s'.lock == if pc.Holds() then Some(r) else None
    ensures LockOk(s')
  {
  }

  lemma ArriveKeeps(config: Config, s: State, header: Option<string>, key: Option<string>, userAgent: Option<string>)
    requires Inv(config, s)
    ensures Inv(config, DoArrive(s, header, key, userAgent))
  {
    var s' := DoArrive(s, header, key, userAgent);
    assert RequestOk(s'.requests[|s.requests|], s.h);
  }

  lemma PeekKeeps(config: Config, s: State, r: nat, answers: bool)
    requires Inv(config, s) && Enabled(s, Peek(r, answers))
    ensures Inv(config, DoPeek(s, r, answers))
  {
    var s' := DoPeek(s, r, answers);
    assert RequestOk(s.requests[r], s.h);
    RequestMoves(s.requests, s.h, r, s'.requests[r]);
    MovesWithoutLock(s, r, s'.requests[r].pc);
  }

  lemma ResolveKeeps(config: Config, s: State, r: nat, answers: bool)
    requires Inv(config, s) && Enabled(s, Resolve(r, answers))
    ensures Inv(config, DoResolve(s, r, answers))
  {
    var s', q := DoResolve(s, r, answers), s.requests[r];
    assert RequestOk(q, s.h);
    OwnerIsOpener(s, q, answers);
    RequestMoves(s.requests, s.h, r, s'.requests[r]);
    MovesWithoutLock(s, r, s'.requests[r].pc);
  }

  /** Whose key resolves to the recorded owner is the opener. */
  lemma OwnerIsOpener(s: State, q: Request, answers: bool)
    requires HistoryOk(s.h, s.serial) && q.pc.Resolving? && RequestOk(q, s.h)
    ensures Owns(q.pc.persisted, q.key, if answers then Resolved(s, q.key) else None) ==> OpenedBy(s.h, q.pc.id, q.key)
  {
    if Owns(q.pc.persisted, q.key, if answers then Resolved(s, q.key) else None) {
      TextsAreInjective(s.h.issued[q.key.value], s.h.issued[s.h.openings[q.pc.id].key.value]);
    }
  }

  lemma AdoptedOk(m: Maps, h: History, serial: nat, t: Transport, requestor: Option<string>)
    requires MapsOk(m, h, serial) && t.id !in m.instances && t.serial == serial
    requires Serves(h, t, t.id) && OpenedBy(h, t.id, requestor)
    ensures MapsOk(Adopted(m, t, requestor), h, serial + 1)
    ensures |Adopted(m, t, requestor).instances| == |m.instances| + 1
  {
    assert t.id !in m.owners;
  }

  /** A session started anew. */
  lemma OpenKeeps(config: Config, s: State, r: nat, uuid: string)
    requires Inv(config, s) && Enabled(s, Start(r, uuid)) && s.requests[r].pc.session.None?
    requires StartOf(s.maps, config.maxSessions, None, uuid, s.serial).Started?
    ensures Inv(config, DoStart(config, s, r, uuid)) && Grows(s.h, DoStart(config, s, r, uuid).h)
  {
    var s', q := DoStart(config, s, r, uuid), s.requests[r];
    var t := Transport(s.serial, uuid, false);
    assert RequestOk(q, s.h);
    RequestsStayOk(s.requests, s.h, s'.h);
    EntriesStayOk(s.entries, s.h, s'.h);
    MapsStayOk(s.maps, s.h, s'.h, s.serial, s.serial);
    assert uuid !in s.maps.instances;
    AdoptedOk(s.maps, s'.h, s.serial, t, q.key);
    RequestMoves(s.requests, s'.h, r, q.(pc := Registering(t)));
    MovesWithLock(s, s', r, Registering(t));
  }

  lemma RehydrateKeeps(config: Config, s: State, r: nat, uuid: string)
    requires Inv(config, s) && Enabled(s, Start(r, uuid)) && s.requests[r].pc.session.Some?
    ensures Inv(config, DoStart(config, s, r, uuid))
  {
    var s', q := DoStart(config, s, r, uuid), s.requests[r];
    assert RequestOk(q, s.h);
    var outcome := StartOf(s.maps, config.maxSessions, q.pc.session, uuid, s.serial);
    if outcome.Started? {
      AdoptedOk(s.maps, s.h, s.serial, outcome.transport, q.key);
      MovesWithLock(s, s', r, Touching(outcome.transport));
    } else {
      MovesWithoutLock(s, r, s'.requests[r].pc);
    }
    RequestMoves(s.requests, s.h, r, s'.requests[r]);
  }

  lemma StartKeeps(config: Config, s: State, r: nat, uuid: string)
    requires Inv(config, s) && Enabled(s, Start(r, uuid))
    ensures Inv(config, DoStart(config, s, r, uuid)) && Grows(s.h, DoStart(config, s, r, uuid).h)
  {
    if s.requests[r].pc.session.Some? {
      RehydrateKeeps(config, s, r, uuid);
    } else if StartOf(s.maps, config.maxSessions, None, uuid, s.serial).Started? {
      OpenKeeps(config, s, r, uuid);
    } else {
      MovesWithoutLock(s, r, TooMany);
      RequestMoves(s.requests, s.h, r, s.requests[r].(pc := TooMany));
    }
  }

  lemma RefreshedOk(config: Config, s: State, id: string, lands: bool)
    requires EntriesOk(s.entries, s.h)
    ensures EntriesOk(RefreshedIf(config, s, id, lands), s.h)
  {
    RefreshKeepsOwner(s.entries, id, s.now, s.now, config.ttl);
  }

  lemma CreatedOk(config: Config, s: State, q: Request)
    requires EntriesOk(s.entries, s.h) && q.pc.Persisting? && RequestOk(q, s.h)
    ensures EntriesOk(Recorded(config, s, q), s.h)
  {
    PayloadNamesOwner(s.now, q.pc.owner, q.userAgent);
  }

  lemma UnlockingKeeps(config: Config, s: State, r: nat, pc: Pc, entries: Store.Entries)
    requires Inv(config, s) && r < |s.requests| && s.requests[r].pc.Holds()
    requires EntriesOk(entries, s.h) && RequestOk(s.requests[r].(pc := pc), s.h)
    ensures Inv(config, Unlocking(s, r, pc, entries))
  {
    RequestMoves(s.requests, s.h, r, s.requests[r].(pc := pc));
    MovesWithLock(s, Unlocking(s, r, pc, entries), r, pc);
  }

  lemma TouchKeeps(config: Config, s: State, r: nat, answers: bool)
    requires Inv(config, s) && r < |s.requests| && s.requests[r].pc.Touching?
    ensures Inv(config, DoTouch(s, r, answers))
  {
    assert RequestOk(s.requests[r], s.h);
    UnlockingKeeps(config, s, r, DoTouch(s, r, answers).requests[r].pc, s.entries);
  }

  lemma RefreshKeeps(config: Config, s: State, r: nat, lands: bool)
    requires Inv(config, s) && r < |s.requests| && s.requests[r].pc.Refreshing?
    ensures Inv(config, DoRefresh(config, s, r, lands))
  {
    var t := s.requests[r].pc.transport;
    assert RequestOk(s.requests[r], s.h);
    RefreshedOk(config, s, t.id, lands);
    UnlockingKeeps(config, s, r, Served(t), RefreshedIf(config, s, t.id, lands));
  }

  lemma RegisterKeeps(config: Config, s: State, r: nat, answers: bool)
    requires Inv(config, s) && r < |s.requests| && s.requests[r].pc.Registering?
    ensures Inv(config, DoRegister(s, r, answers))
  {
    assert RequestOk(s.requests[r], s.h);
    UnlockingKeeps(config, s, r, DoRegister(s, r, answers).requests[r].pc, s.entries);
  }

  lemma PersistKeeps(config: Config, s: State, r: nat, lands: bool)
    requires Inv(config, s) && r < |s.requests| && s.requests[r].pc.Persisting?
    ensures Inv(config, DoPersist(config, s, r, lands))
  {
    var q := s.requests[r];
    assert RequestOk(q, s.h);
    CreatedOk(config, s, q);
    UnlockingKeeps(config, s, r, Served(q.pc.transport), if lands then Recorded(config, s, q) else s.entries);
  }

  /** The steps no request takes, and a request that vanishes. */
  lemma SurroundingsKeep(config: Config, s: State, step: Step)
    requires Inv(config, s) && Enabled(s, step) && !step.Arrive? && (!step.OfRequest() || step.Abort?)
    ensures Inv(config, Do(config, s, step)) && Grows(s.h, Do(config, s, step).h)
  {
    var s' := Do(config, s, step);
    match step
    case Abort(r) => RequestMoves(s.requests, s.h, r, s'.requests[r]);
    case RefreshInBackground(id, lands) => RefreshedOk(config, s, id, lands);
    case Issue(key, owner) =>
      RequestsStayOk(s.requests, s.h, s'.h);
      EntriesStayOk(s.entries, s.h, s'.h);
      MapsStayOk(s.maps, s.h, s'.h, s.serial, s.serial);
    case Restart => RestartKeeps(config, s);
    case _ =>
  }

  lemma RestartKeeps(config: Config, s: State)
    requires Inv(config, s)
    ensures Inv(config, Do(config, s, Restart))
  {
    var s' := Do(config, s, Restart);
    forall r | 0 <= r < |s.requests| ensures RequestOk(s'.requests[r], s.h) && !s'.requests[r].pc.Holds() {
      assert RequestOk(s.requests[r], s.h);
    }
  }

  lemma StepKeeps(config: Config, s: State, step: Step)
    requires Inv(config, s) && Enabled(s, step)
    ensures Inv(config, Do(config, s, step)) && Grows(s.h, Do(config, s, step).h)
  {
    match step
    case Arrive(header, key, userAgent) => ArriveKeeps(config, s, header, key, userAgent);
    case Peek(r, answers) => PeekKeeps(config, s, r, answers);
    case Resolve(r, answers) => ResolveKeeps(config, s, r, answers);
    case Start(r, uuid) => StartKeeps(config, s, r, uuid);
    case Touch(r, answers) => TouchKeeps(config, s, r, answers);
    case Refresh(r, lands) => RefreshKeeps(config, s, r, lands);
    case Register(r, answers) => RegisterKeeps(config, s, r, answers);
    case Persist(r, lands) => PersistKeeps(config, s, r, lands);
    case _ => SurroundingsKeep(config, s, step);
  }

  lemma {:induction false} InvHolds(config: Config, states: seq<State>, steps: seq<Step>, i: nat)
    requires IsRun(config, states, steps) && i <= |steps|
    ensures Inv(config, states[i])
  {
    if i > 0 {
      InvHolds(config, states, steps, i - 1);
      assert StepAt(config, states, steps, i - 1);
      StepKeeps(config, states[i - 1], steps[i - 1]);
    }
  }
}
