/** What every run of the session protocol keeps: who is served, by which transport, and
    when a session is still there. */
module McpContinuity {
  import opened Wrappers
  import opened Clock
  import opened McpSessions
  import opened McpProtocol
  import Store = SessionStore

  // -------------------------------------------------------------------------
  // Who is served
  // -------------------------------------------------------------------------

  function TransportOf(pc: Pc): Option<Transport> {
    match pc
    case Touching(t) => Some(t)
    case Refreshing(t) => Some(t)
    case Registering(t) => Some(t)
    case Persisting(t, _) => Some(t)
    case Served(t) => Some(t)
    case _ => None
  }

  /** Step `j` opens a session for a request without a session id that presents `key`;
      `t` is its first transport. */
  ghost predicate OpensAt(states: seq<State>, steps: seq<Step>, j: nat, t: Transport, key: Option<string>)
    requires |states| == |steps| + 1 && j < |steps|
  {
    && steps[j].Start? && steps[j].r < |states[j].requests| && steps[j].r < |states[j + 1].requests|
    && states[j].requests[steps[j].r].key == key
    && states[j].requests[steps[j].r].header.None?
    && states[j + 1].requests[steps[j].r].pc == Registering(t)
  }

  lemma StartOpens(config: Config, s: State, r: nat, uuid: string)
    requires Inv(config, s) && Enabled(s, Start(r, uuid))
    ensures var s' := DoStart(config, s, r, uuid);
      if s'.requests[r].pc.Registering?
      then var t := s'.requests[r].pc.transport;
        && t.id !in s.h.openings && s.requests[r].header.None?
        && s'.h.openings == s.h.openings[t.id := Opening(s.requests[r].key, t)]
      else s'.h.openings == s.h.openings
  {
    assert RequestOk(s.requests[r], s.h);
  }

  /** What the steps leave alone. */
  lemma OnlyStartOpens(config: Config, s: State, step: Step)
    requires Enabled(s, step) && !step.Start?
    ensures Do(config, s, step).h.openings == s.h.openings
  {
  }

  lemma MapsStay(config: Config, s: State, step: Step)
    requires Enabled(s, step) && !step.Start? && !step.Discard? && !step.Restart?
    ensures Do(config, s, step).maps == s.maps
  {
  }

  lemma EntriesStay(config: Config, s: State, step: Step)
    requires Enabled(s, step) && !step.Refresh? && !step.Persist? && !step.RefreshInBackground? && !step.Lose?
    ensures Do(config, s, step).entries == s.entries
  {
  }

  lemma IssuedStays(config: Config, s: State, step: Step, key: string)
    requires Enabled(s, step) && key in s.h.issued
    ensures key in Do(config, s, step).h.issued && Do(config, s, step).h.issued[key] == s.h.issued[key]
  {
  }

  lemma UsableAndClock(config: Config, s: State, step: Step)
    requires Enabled(s, step)
    ensures Do(config, s, step).usable == if step.SetUsable? then step.keys else s.usable
    ensures Do(config, s, step).now == if step.Tick? then s.now + step.elapsed else s.now
  {
  }

  /** The recorded openings are exactly the steps that opened a session. */
  lemma {:induction false} OpeningsAreRecorded(config: Config, states: seq<State>, steps: seq<Step>, i: nat,
                                               t: Transport, key: Option<string>)
    requires IsRun(config, states, steps) && i <= |steps|
    ensures (exists j :: 0 <= j < i && OpensAt(states, steps, j, t, key))
       <==> t.id in states[i].h.openings && states[i].h.openings[t.id] == Opening(key, t)
  {
    if i > 0 {
      var k := i - 1;
      OpeningsAreRecorded(config, states, steps, k, t, key);
      OpeningRecorded(config, states, steps, k, t, key);
      assert (exists j :: 0 <= j < i && OpensAt(states, steps, j, t, key))
        <==> (exists j :: 0 <= j < k && OpensAt(states, steps, j, t, key)) || OpensAt(states, steps, k, t, key);
    }
  }

  predicate HasOpening(h: History, t: Transport, key: Option<string>) {
    t.id in h.openings && h.openings[t.id] == Opening(key, t)
  }

  lemma OpeningRecorded(config: Config, states: seq<State>, steps: seq<Step>, k: nat, t: Transport, key: Option<string>)
    requires IsRun(config, states, steps) && k < |steps|
    ensures HasOpening(states[k + 1].h, t, key)
        <==> HasOpening(states[k].h, t, key) || OpensAt(states, steps, k, t, key)
  {
    InvHolds(config, states, steps, k);
    assert StepAt(config, states, steps, k);
    if steps[k].Start? {
      StartOpens(config, states[k], steps[k].r, steps[k].uuid);
    } else {
      OnlyStartOpens(config, states[k], steps[k]);
    }
  }

  /** In every run a request reaches a transport only with the credential that opened its
      session, on every path, the one inside the lock included; and the transport
      skipped the handshake exactly when it is not the session's first. */
  lemma OnlyTheOpenerIsServed(config: Config, states: seq<State>, steps: seq<Step>, i: nat, r: nat)
    requires IsRun(config, states, steps) && i <= |steps| && r < |states[i].requests|
    requires TransportOf(states[i].requests[r].pc).Some?
    ensures var q, t := states[i].requests[r], TransportOf(states[i].requests[r].pc).value;
      && (q.header.Some? ==> q.header.value == t.id && q.key.Some?)
      && (exists j, first: Transport :: 0 <= j < i && first.id == t.id && OpensAt(states, steps, j, first, q.key))
      && (forall j, first: Transport, key :: 0 <= j < i && first.id == t.id && OpensAt(states, steps, j, first, key) ==>
            key == q.key && (t.initialized <==> t != first))
  {
    InvHolds(config, states, steps, i);
    var q, t := states[i].requests[r], TransportOf(states[i].requests[r].pc).value;
    assert RequestOk(q, states[i].h);
    var first := states[i].h.openings[t.id].first;
    OpeningsAreRecorded(config, states, steps, i, first, q.key);
    forall j, first: Transport, key | 0 <= j < i && first.id == t.id && OpensAt(states, steps, j, first, key)
      ensures key == q.key && (t.initialized <==> t != first)
    {
      OpeningsAreRecorded(config, states, steps, i, first, key);
    }
  }

  /** In every run an entry that carries both owner fields carries the owner of the
      credential that opened its session: no touch or expiry makes one. */
  lemma EntriesNameTheOpener(config: Config, states: seq<State>, steps: seq<Step>, i: nat, id: string)
    requires IsRun(config, states, steps) && i <= |steps|
    requires id in states[i].entries && StoredOwner(states[i].entries[id].fields).Some?
    ensures exists j, first: Transport, key: string ::
              && 0 <= j < i && first.id == id
              && OpensAt(states, steps, j, first, Some(key))
              && key in states[i].h.issued
              && StoredOwner(states[i].entries[id].fields).value == Texts(states[i].h.issued[key])
  {
    InvHolds(config, states, steps, i);
    assert Vouches(states[i].h, states[i].entries[id].fields, id);
    var opening := states[i].h.openings[id];
    OpeningsAreRecorded(config, states, steps, i, opening.first, opening.key);
  }

  // -------------------------------------------------------------------------
  // One transport for a session
  // -------------------------------------------------------------------------

  lemma NeverMoreThanMaxSessions(config: Config, states: seq<State>, steps: seq<Step>, i: nat)
    requires IsRun(config, states, steps) && i <= |steps| && config.maxSessions.Some?
    ensures |states[i].maps.instances| <= config.maxSessions.value
  {
    InvHolds(config, states, steps, i);
  }

  predicate Ends(step: Step, t: Transport) { step.Restart? || step == Discard(t) }

  lemma StepKeepsTransport(config: Config, s: State, step: Step, t: Transport)
    requires Inv(config, s) && Enabled(s, step)
    requires t.id in s.maps.instances && s.maps.instances[t.id] == t && !Ends(step, t)
    ensures var m := Do(config, s, step).maps; t.id in m.instances && m.instances[t.id] == t
  {
    if step.Start? {
      assert RequestOk(s.requests[step.r], s.h);
    } else if !step.Discard? {
      MapsStay(config, s, step);
    }
  }

  /** A live transport is never replaced: its id maps to it until it is discarded or the
      process restarts. */
  lemma {:induction false} TransportStays(config: Config, states: seq<State>, steps: seq<Step>, j: nat, i: nat,
                                          t: Transport)
    requires IsRun(config, states, steps) && j <= i <= |steps|
    requires t.id in states[j].maps.instances && states[j].maps.instances[t.id] == t
    requires forall k :: j <= k < i ==> !Ends(steps[k], t)
    ensures t.id in states[i].maps.instances && states[i].maps.instances[t.id] == t
    decreases i - j
  {
    if j < i {
      TransportStays(config, states, steps, j, i - 1, t);
      assert StepAt(config, states, steps, i - 1);
      InvHolds(config, states, steps, i - 1);
      StepKeepsTransport(config, states[i - 1], steps[i - 1], t);
    }
  }

  /** Step `j` gives request `r` the transport `t`: from memory, inside the lock, or by
      starting it. */
  ghost predicate GivesAt(states: seq<State>, steps: seq<Step>, j: nat, r: nat, t: Transport)
    requires |states| == |steps| + 1 && j < |steps|
  {
    && r < |states[j + 1].requests| && TransportOf(states[j + 1].requests[r].pc) == Some(t)
    && (r >= |states[j].requests| || TransportOf(states[j].requests[r].pc).None?)
  }

  lemma StartGivesMapped(config: Config, s: State, r: nat, uuid: string)
    requires Inv(config, s) && Enabled(s, Start(r, uuid))
    ensures var s' := DoStart(config, s, r, uuid);
      var given := TransportOf(s'.requests[r].pc);
      given.Some? ==> given.value.id in s'.maps.instances && s'.maps.instances[given.value.id] == given.value
  {
    assert RequestOk(s.requests[r], s.h);
  }

  /** A request gets its transport on arrival or inside the lock. */
  lemma GivenOnArrivalOrStart(config: Config, s: State, step: Step, r: nat)
    requires Enabled(s, step) && !step.Start? && r < |s.requests| && TransportOf(s.requests[r].pc).None?
    ensures TransportOf(Do(config, s, step).requests[r].pc).None?
  {
  }

  lemma ArrivalGivesMapped(config: Config, s: State, step: Step)
    requires Inv(config, s) && step.Arrive?
    ensures var s' := Do(config, s, step);
      var given := TransportOf(s'.requests[|s.requests|].pc);
      given.Some? ==> given.value.id in s'.maps.instances && s'.maps.instances[given.value.id] == given.value
  {
  }

  lemma NewcomersArrive(config: Config, s: State, step: Step, r: nat)
    requires Enabled(s, step) && |s.requests| <= r < |Do(config, s, step).requests|
    ensures step.Arrive? && r == |s.requests|
  {
  }

  lemma GivenIsMapped(config: Config, states: seq<State>, steps: seq<Step>, j: nat, r: nat, t: Transport)
    requires IsRun(config, states, steps) && j < |steps| && GivesAt(states, steps, j, r, t)
    ensures var m := states[j + 1].maps; t.id in m.instances && m.instances[t.id] == t
  {
    var s, step := states[j], steps[j];
    assert StepAt(config, states, steps, j);
    InvHolds(config, states, steps, j);
    if step.Start? {
      StartGivesMapped(config, s, step.r, step.uuid);
    } else if r < |s.requests| {
      GivenOnArrivalOrStart(config, s, step, r);
    } else {
      NewcomersArrive(config, s, step, r);
      ArrivalGivesMapped(config, s, step);
    }
  }

  predicate Mapped(s: State, t: Transport) { t.id in s.maps.instances && s.maps.instances[t.id] == t }

  /** A transport that is no longer mapped never is again. */
  predicate Past(s: State, t: Transport) { t.serial < s.serial && !Mapped(s, t) }

  lemma StepKeepsPast(config: Config, s: State, step: Step, t: Transport)
    requires Inv(config, s) && Enabled(s, step) && Past(s, t)
    ensures Past(Do(config, s, step), t)
  {
    if !step.Start? && !step.Discard? && !step.Restart? { MapsStay(config, s, step); }
  }

  lemma StepEnds(config: Config, s: State, step: Step, t: Transport)
    requires Inv(config, s) && Enabled(s, step) && t.serial < s.serial && Ends(step, t)
    ensures Past(Do(config, s, step), t)
  {
  }

  lemma {:induction false} StaysPast(config: Config, states: seq<State>, steps: seq<Step>, j: nat, i: nat, t: Transport)
    requires IsRun(config, states, steps) && j <= i <= |steps| && Past(states[j], t)
    ensures Past(states[i], t)
    decreases i - j
  {
    if j < i {
      StaysPast(config, states, steps, j, i - 1, t);
      assert StepAt(config, states, steps, i - 1);
      InvHolds(config, states, steps, i - 1);
      StepKeepsPast(config, states[i - 1], steps[i - 1], t);
    }
  }

  lemma {:induction false} SerialsGrow(config: Config, states: seq<State>, steps: seq<Step>, j: nat, i: nat)
    requires IsRun(config, states, steps) && j <= i <= |steps|
    ensures states[j].serial <= states[i].serial
    decreases i - j
  {
    if j < i {
      SerialsGrow(config, states, steps, j, i - 1);
      assert StepAt(config, states, steps, i - 1);
      SerialGrows(config, states[i - 1], steps[i - 1]);
    }
  }

  lemma SerialGrows(config: Config, s: State, step: Step)
    requires Enabled(s, step)
    ensures s.serial <= Do(config, s, step).serial
  {
  }

  /** Requests for one session get the same transport, however many rehydrate it at once,
      if and only if no step in between discards it or restarts the process. */
  lemma SameTransport(config: Config, states: seq<State>, steps: seq<Step>, j: nat, i: nat, r: nat, q: nat,
                      t: Transport, u: Transport)
    requires IsRun(config, states, steps) && j < i < |steps|
    requires GivesAt(states, steps, j, r, t) && GivesAt(states, steps, i, q, u) && t.id == u.id
    ensures t == u <==> forall k :: j < k <= i ==> !Ends(steps[k], t)
  {
    GivenIsMapped(config, states, steps, j, r, t);
    GivenIsMapped(config, states, steps, i, q, u);
    if forall k :: j < k <= i ==> !Ends(steps[k], t) {
      TransportStays(config, states, steps, j + 1, i + 1, t);
    } else {
      var k :| j < k <= i && Ends(steps[k], t);
      EndedIsPast(config, states, steps, j, k, t);
      StaysPast(config, states, steps, k + 1, i + 1, t);
    }
  }

  lemma EndedIsPast(config: Config, states: seq<State>, steps: seq<Step>, j: nat, k: nat, t: Transport)
    requires IsRun(config, states, steps) && j < k < |steps| && Mapped(states[j + 1], t) && Ends(steps[k], t)
    ensures Past(states[k + 1], t)
  {
    InvHolds(config, states, steps, j + 1);
    SerialsGrow(config, states, steps, j + 1, k);
    InvHolds(config, states, steps, k);
    assert StepAt(config, states, steps, k);
    StepEnds(config, states[k], steps[k], t);
  }

  // -------------------------------------------------------------------------
  // A session keeps working
  // -------------------------------------------------------------------------

  /** The entry is unexpired and `key` still resolves to its owner. */
  predicate Durable(s: State, id: string, key: string) {
    && key in s.h.issued && key in s.usable
    && Store.Live(s.entries, id, s.now).Some?
    && StoredOwner(Store.Live(s.entries, id, s.now).value) == Some(Texts(s.h.issued[key]))
  }

  predicate HasRoom(config: Config, m: Maps, id: string) {
    id in m.instances || config.maxSessions.None? || |m.instances| < config.maxSessions.value
  }

  /** A session opened with a usable key is durable from the moment it is recorded, for
      as long as the expiry. */
  lemma OpeningIsDurable(config: Config, s: State, r: nat, elapsed: nat)
    requires Inv(config, s) && Enabled(s, Persist(r, true)) && elapsed < Seconds(config.ttl)
    requires s.requests[r].key.Some? && s.requests[r].key.value in s.usable
    ensures var recorded := Do(config, s, Persist(r, true));
      Durable(Do(config, recorded, Tick(elapsed)), s.requests[r].pc.transport.id, s.requests[r].key.value)
  {
    var q := s.requests[r];
    assert RequestOk(q, s.h);
    PayloadNamesOwner(s.now, q.pc.owner, q.userAgent);
  }

  /** What can end it: its expiry, the loss of its entry, the key no longer usable. */
  predicate Endangers(s: State, step: Step, id: string, key: string) {
    match step
    case Tick(elapsed) => id in s.entries && s.now + elapsed >= s.entries[id].deadline
    case Lose(lost) => lost == id
    case SetUsable(keys) => key !in keys
    case _ => false
  }

  lemma DurableIsTheOpeners(config: Config, s: State, id: string, key: string)
    requires Inv(config, s) && Durable(s, id, key)
    ensures OpenedBy(s.h, id, Some(key))
  {
    assert Vouches(s.h, s.entries[id].fields, id);
    TextsAreInjective(s.h.issued[key], s.h.issued[s.h.openings[id].key.value]);
  }

  lemma RefreshKeepsDurable(config: Config, s: State, touched: string, id: string, key: string)
    requires Durable(s, id, key) && config.ttl > 0
    ensures Durable(s.(entries := RefreshedIf(config, s, touched, true)), id, key)
  {
    RefreshKeepsOwner(s.entries, touched, s.now, s.now, config.ttl);
  }

  /** Nothing else does: no restart, no discard, no request of anyone, no race of a touch
      with another. */
  lemma StaysDurable(config: Config, s: State, step: Step, id: string, key: string)
    requires Inv(config, s) && Enabled(s, step) && config.ttl > 0
    requires Durable(s, id, key) && !Endangers(s, step, id, key)
    ensures Durable(Do(config, s, step), id, key)
  {
    IssuedStays(config, s, step, key);
    UsableAndClock(config, s, step);
    match step
    case Refresh(r, lands) => RefreshKeepsDurable(config, s, s.requests[r].pc.transport.id, id, key);
    case RefreshInBackground(touched, lands) => RefreshKeepsDurable(config, s, touched, id, key);
    case Persist(r, lands) => PersistKeepsDurable(config, s, r, id, key);
    case Lose(lost) =>
    case _ => EntriesStay(config, s, step);
  }

  /** Recording a session leaves the entries of others, and names the same owner. */
  lemma PersistKeepsDurable(config: Config, s: State, r: nat, id: string, key: string)
    requires Inv(config, s) && Durable(s, id, key) && config.ttl > 0 && r < |s.requests| && s.requests[r].pc.Persisting?
    ensures Durable(s.(entries := Recorded(config, s, s.requests[r])), id, key)
  {
    var q := s.requests[r];
    assert RequestOk(q, s.h);
    PayloadNamesOwner(s.now, q.pc.owner, q.userAgent);
    DurableIsTheOpeners(config, s, id, key);
  }

  /** After a restart or a discard there is room again. */
  lemma RestartMakesRoom(config: Config, s: State, step: Step, id: string)
    requires step.Restart? || step.Discard?
    requires HasRoom(config, s.maps, id) && (config.maxSessions.Some? ==> config.maxSessions.value > 0)
    requires Inv(config, s)
    ensures HasRoom(config, Do(config, s, step).maps, id)
  {
    var m, m' := s.maps, Do(config, s, step).maps;
    if m'.instances != m.instances && step.Discard? {
      assert m.instances.Keys == m'.instances.Keys + {step.transport.id};
      assert |m.instances| == |m.instances.Keys| && |m'.instances| == |m'.instances.Keys|;
    }
  }

  /** A durable session stays durable over any run of steps none of which endangers it. */
  lemma {:induction false} StaysDurableUntil(config: Config, states: seq<State>, steps: seq<Step>, j: nat, i: nat,
                                             id: string, key: string)
    requires IsRun(config, states, steps) && j <= i <= |steps| && config.ttl > 0
    requires Durable(states[j], id, key)
    requires forall k :: j <= k < i ==> !Endangers(states[k], steps[k], id, key)
    ensures Durable(states[i], id, key)
    decreases i - j
  {
    if j < i {
      StaysDurableUntil(config, states, steps, j, i - 1, id, key);
      assert StepAt(config, states, steps, i - 1);
      InvHolds(config, states, steps, i - 1);
      StaysDurable(config, states[i - 1], steps[i - 1], id, key);
    }
  }

  predicate Fails(step: Step) {
    match step
    case Peek(_, answers) => !answers
    case Resolve(_, answers) => !answers
    case _ => false
  }

  /** Step `k` is the arrival of request `r` or a step of it. */
  predicate Concerns(states: seq<State>, steps: seq<Step>, k: nat, r: nat)
    requires |states| == |steps| + 1 && k < |steps|
  {
    (steps[k].Arrive? && r == |states[k].requests|) || (steps[k].OfRequest() && steps[k].r == r)
  }

  /** On the way to a transport of session `id`. */
  predicate OnTrack(h: History, pc: Pc, id: string, key: string) {
    match pc
    case Peeking(i) => i == id
    case Resolving(i, persisted) => i == id && key in h.issued && StoredOwner(persisted) == Some(Texts(h.issued[key]))
    case Locking(session) => session == Some(id)
    case Touching(t) => t.id == id
    case Refreshing(t) => t.id == id
    case Served(t) => t.id == id
    case Gone => true
    case _ => false
  }

  lemma ArrivesOnTrack(config: Config, s: State, step: Step, id: string, key: string)
    requires Inv(config, s) && step.Arrive? && step.header == Some(id) && step.key == Some(key) && Durable(s, id, key)
    ensures OnTrack(s.h, Do(config, s, step).requests[|s.requests|].pc, id, key)
  {
    DurableIsTheOpeners(config, s, id, key);
  }

  lemma StepsOnTrack(config: Config, s: State, step: Step, id: string, key: string)
    requires Inv(config, s) && Enabled(s, step) && step.OfRequest()
    requires s.requests[step.r].header == Some(id) && s.requests[step.r].key == Some(key)
    requires OnTrack(s.h, s.requests[step.r].pc, id, key)
    requires Durable(s, id, key) && HasRoom(config, s.maps, id) && !Fails(step)
    ensures OnTrack(Do(config, s, step).h, Do(config, s, step).requests[step.r].pc, id, key)
  {
    if step.Start? {
      StartsOnTrack(config, s, step.r, step.uuid, id);
    } else {
      assert RequestOk(s.requests[step.r], s.h);
    }
  }

  lemma StartsOnTrack(config: Config, s: State, r: nat, uuid: string, id: string)
    requires Inv(config, s) && r < |s.requests| && s.requests[r].pc == Locking(Some(id))
    requires HasRoom(config, s.maps, id) && id != ""
    ensures DoStart(config, s, r, uuid).h == s.h
    ensures var pc := DoStart(config, s, r, uuid).requests[r].pc;
      (pc.Touching? || pc.Served?) && pc.transport.id == id
  {
  }

  lemma OthersLeaveOnTrack(config: Config, s: State, step: Step, r: nat, id: string, key: string)
    requires Inv(config, s) && Enabled(s, step) && r < |s.requests| && !(step.OfRequest() && step.r == r)
    requires OnTrack(s.h, s.requests[r].pc, id, key)
    ensures OnTrack(Do(config, s, step).h, Do(config, s, step).requests[r].pc, id, key)
  {
    StepKeeps(config, s, step);
  }

  lemma RequestsStay(config: Config, s: State, step: Step, r: nat)
    requires Enabled(s, step) && r < |Do(config, s, step).requests|
    ensures var q := Do(config, s, step).requests[r];
      && (r < |s.requests| ==> q == s.requests[r].(pc := q.pc))
      && (r >= |s.requests| ==> r == |s.requests| && step.Arrive? && step.header == q.header && step.key == q.key)
  {
  }

  /** A request with the session's id and its key is never answered 404 or 503, whatever
      happens around it, if at its own steps the session is durable, the stores answer and
      there is room. */
  lemma {:induction false} NeverTurnedAway(config: Config, states: seq<State>, steps: seq<Step>, i: nat, r: nat,
                                           id: string, key: string)
    requires IsRun(config, states, steps) && i <= |steps| && r < |states[i].requests|
    requires states[i].requests[r].header == Some(id) && states[i].requests[r].key == Some(key)
    requires forall k :: 0 <= k < i && Concerns(states, steps, k, r) ==>
               Durable(states[k], id, key) && HasRoom(config, states[k].maps, id) && !Fails(steps[k])
    ensures OnTrack(states[i].h, states[i].requests[r].pc, id, key)
  {
    if i > 0 {
      var s, step := states[i - 1], steps[i - 1];
      assert StepAt(config, states, steps, i - 1);
      InvHolds(config, states, steps, i - 1);
      RequestsStay(config, s, step, r);
      if r < |s.requests| { NeverTurnedAway(config, states, steps, i - 1, r, id, key); }
      assert Concerns(states, steps, i - 1, r)
        <==> (step.Arrive? && r == |s.requests|) || (step.OfRequest() && step.r == r);
      NextOnTrack(config, s, step, r, id, key);
    }
  }

  /** A step taken by the request itself, its arrival, or a step of another. */
  lemma NextOnTrack(config: Config, s: State, step: Step, r: nat, id: string, key: string)
    requires Inv(config, s) && Enabled(s, step) && r < |Do(config, s, step).requests|
    requires if r < |s.requests| then s.requests[r].header == Some(id) && s.requests[r].key == Some(key)
                                      && OnTrack(s.h, s.requests[r].pc, id, key)
             else r == |s.requests| && step.Arrive? && step.header == Some(id) && step.key == Some(key)
    requires (step.Arrive? && r == |s.requests|) || (step.OfRequest() && step.r == r) ==>
               Durable(s, id, key) && HasRoom(config, s.maps, id) && !Fails(step)
    ensures OnTrack(Do(config, s, step).h, Do(config, s, step).requests[r].pc, id, key)
  {
    if r >= |s.requests| {
      ArrivesOnTrack(config, s, step, id, key);
      assert Do(config, s, step).h == s.h;
    } else if step.OfRequest() && step.r == r {
      StepsOnTrack(config, s, step, id, key);
    } else {
      OthersLeaveOnTrack(config, s, step, r, id, key);
    }
  }

  lemma {:induction false} RequestsRemain(config: Config, states: seq<State>, steps: seq<Step>, j: nat, i: nat)
    requires IsRun(config, states, steps) && j <= i <= |steps|
    ensures |states[j].requests| <= |states[i].requests|
    decreases i - j
  {
    if j < i {
      RequestsRemain(config, states, steps, j, i - 1);
      assert StepAt(config, states, steps, i - 1);
      RequestRemains(config, states[i - 1], steps[i - 1]);
    }
  }

  lemma RequestRemains(config: Config, s: State, step: Step)
    requires Enabled(s, step)
    ensures |Do(config, s, step).requests| == |s.requests| + if step.Arrive? then 1 else 0
  {
  }

  /** No step before a request arrives concerns it. */
  lemma ConcernsLater(config: Config, states: seq<State>, steps: seq<Step>, j: nat, k: nat, r: nat)
    requires IsRun(config, states, steps) && k < j <= |steps| && r >= |states[j].requests|
    ensures !Concerns(states, steps, k, r)
  {
    assert StepAt(config, states, steps, k);
    RequestRemains(config, states[k], steps[k]);
    RequestsRemain(config, states, steps, k + 1, j);
  }

  /** Once durable, a session keeps working over the whole rest of the run: whatever
      restarts, discards, races and other requests follow, as long as no step endangers it,
      every later request with its id and key is on its way to one of its transports, if
      the stores answer it and there is room when it needs one. */
  lemma KeepsWorking(config: Config, states: seq<State>, steps: seq<Step>, j: nat, i: nat, r: nat, id: string,
                     key: string)
    requires IsRun(config, states, steps) && j <= i <= |steps| && config.ttl > 0 && Durable(states[j], id, key)
    requires forall k :: j <= k < i ==> !Endangers(states[k], steps[k], id, key)
    requires |states[j].requests| <= r < |states[i].requests|
    requires states[i].requests[r].header == Some(id) && states[i].requests[r].key == Some(key)
    requires forall k :: j <= k < i && Concerns(states, steps, k, r) ==>
               HasRoom(config, states[k].maps, id) && !Fails(steps[k])
    ensures OnTrack(states[i].h, states[i].requests[r].pc, id, key)
  {
    forall k | 0 <= k < i && Concerns(states, steps, k, r)
      ensures Durable(states[k], id, key) && HasRoom(config, states[k].maps, id) && !Fails(steps[k])
    {
      if k < j {
        ConcernsLater(config, states, steps, j, k, r);
      } else {
        StaysDurableUntil(config, states, steps, j, k, id, key);
      }
    }
    NeverTurnedAway(config, states, steps, i, r, id, key);
  }

  // -------------------------------------------------------------------------
  // Nobody waits for ever
  // -------------------------------------------------------------------------

  /** An upper bound on the steps a request still takes. */
  function StepsLeft(pc: Pc): nat {
    match pc
    case Peeking(_) => 5
    case Resolving(_, _) => 4
    case Locking(_) => 3
    case Touching(_) => 2
    case Refreshing(_) => 1
    case Registering(_) => 2
    case Persisting(_, _) => 1
    case _ => 0
  }

  /** Every step of a request brings it closer to its answer, and no step of another
      sends it back. */
  lemma StepsComeToAnEnd(config: Config, s: State, step: Step, r: nat)
    requires Enabled(s, step) && r < |s.requests|
    ensures var pc, pc' := s.requests[r].pc, Do(config, s, step).requests[r].pc;
      if step.OfRequest() && step.r == r then StepsLeft(pc') < StepsLeft(pc) else StepsLeft(pc') <= StepsLeft(pc)
  {
  }

  /** A request without an answer can take a step, or waits for a request that can. */
  lemma NoDeadlock(config: Config, s: State, r: nat, uuid: string) returns (step: Step)
    requires Inv(config, s) && r < |s.requests| && !s.requests[r].pc.Final()
    requires uuid != "" && uuid !in s.h.openings
    ensures Enabled(s, step) && step.OfRequest() && !step.Abort?
    ensures step.r == r || (s.requests[r].pc.Locking? && s.lock == Some(step.r))
  {
    var mover := if s.requests[r].pc.Locking? && s.lock.Some? then s.lock.value else r;
    assert mover < |s.requests|;
    step := match s.requests[mover].pc
      case Peeking(_) => Peek(mover, true)
      case Resolving(_, _) => Resolve(mover, true)
      case Locking(_) => Start(mover, uuid)
      case Touching(_) => Touch(mover, true)
      case Refreshing(_) => Refresh(mover, true)
      case Registering(_) => Register(mover, true)
      case _ => Persist(mover, true);
  }
}
