/** What every run of the session protocol does to the record in Redis: a new session is
    written, a resumed one needs a usable key, and use extends the expiry. */
module McpRecording {
  import opened Wrappers
  import opened Clock
  import opened McpSessions
  import opened McpProtocol
  import opened McpContinuity
  import Store = SessionStore

  predicate StepOf(step: Step, r: nat) { step.OfRequest() && step.r == r }

  lemma OthersLeaveAlone(config: Config, s: State, step: Step, r: nat)
    requires Enabled(s, step) && r < |s.requests| && !StepOf(step, r)
    ensures Do(config, s, step).requests[r].pc == s.requests[r].pc || Do(config, s, step).requests[r].pc == Gone
    ensures s.requests[r].pc.Final() ==> Do(config, s, step).requests[r].pc == s.requests[r].pc
  {
  }

  // -------------------------------------------------------------------------
  // A new session
  // -------------------------------------------------------------------------

  predicate Full(config: Config, s: State) {
    config.maxSessions.Some? && |s.maps.instances| >= config.maxSessions.value
  }

  /** Where a request without a session id can stand. */
  predicate IsOpening(pc: Pc) {
    match pc
    case Locking(session) => session.None?
    case Registering(_) => true
    case Persisting(_, _) => true
    case Served(_) => true
    case TooMany => true
    case Gone => true
    case _ => false
  }

  lemma OpeningStep(config: Config, s: State, step: Step)
    requires Inv(config, s) && Enabled(s, step) && step.OfRequest()
    requires s.requests[step.r].header.None? && IsOpening(s.requests[step.r].pc)
    ensures var pc := Do(config, s, step).requests[step.r].pc;
      && IsOpening(pc)
      && (pc.TooMany? ==> step.Start? && Full(config, s))
      && (step.Start? && !Full(config, s) ==> pc.Registering?)
  {
    assert RequestOk(s.requests[step.r], s.h);
  }

  lemma ArrivesOpening(config: Config, s: State, step: Step)
    requires step.Arrive? && step.header.None?
    ensures Do(config, s, step).requests[|s.requests|].pc == Locking(None)
  {
  }

  /** A request without a session id is never answered 404, and is answered 503 only when,
      at its turn under the lock, as many sessions as allowed were open. */
  lemma {:induction false} RefusedOnlyWhenFull(config: Config, states: seq<State>, steps: seq<Step>, i: nat, r: nat)
    requires IsRun(config, states, steps) && i <= |steps| && r < |states[i].requests|
    requires states[i].requests[r].header.None?
    ensures IsOpening(states[i].requests[r].pc)
    ensures states[i].requests[r].pc.TooMany? ==>
              exists j :: 0 <= j < i && steps[j].Start? && steps[j].r == r && Full(config, states[j])
  {
    if i > 0 {
      var s, step := states[i - 1], steps[i - 1];
      assert StepAt(config, states, steps, i - 1);
      InvHolds(config, states, steps, i - 1);
      RequestsStay(config, s, step, r);
      if r >= |s.requests| {
        ArrivesOpening(config, s, step);
      } else {
        RefusedOnlyWhenFull(config, states, steps, i - 1, r);
        if StepOf(step, r) { OpeningStep(config, s, step); } else { OthersLeaveAlone(config, s, step, r); }
      }
    }
  }

  /** The database does not answer, or the write of the record is lost. */
  predicate LosesRecord(step: Step) {
    match step
    case Register(_, answers) => !answers
    case Persist(_, lands) => !lands
    case _ => false
  }

  /** The last step of an opening is the write of its record. */
  lemma RecordingStep(config: Config, s: State, step: Step, key: string)
    requires Inv(config, s) && Enabled(s, step) && step.OfRequest() && config.ttl > 0
    requires s.requests[step.r].header.None? && s.requests[step.r].key == Some(key)
    requires IsOpening(s.requests[step.r].pc) && !LosesRecord(step) && key in s.h.issued && key in s.usable
    ensures var s' := Do(config, s, step);
      var pc := s'.requests[step.r].pc;
      pc.Served? ==> step == Persist(step.r, true) && Durable(s', pc.transport.id, key)
  {
    assert RequestOk(s.requests[step.r], s.h);
    if step.Persist? {
      OpeningIsDurable(config, s, step.r, 0);
      var recorded := Do(config, s, step);
      assert Do(config, recorded, Tick(0)) == recorded;
    }
  }

  /** A session opened with a usable key is recorded before its opener is served, and can
      be resumed from then on, if the database answers and the write lands. */
  lemma {:induction false} ServedOnceRecorded(config: Config, states: seq<State>, steps: seq<Step>, i: nat, r: nat,
                                              key: string)
    requires IsRun(config, states, steps) && i <= |steps| && config.ttl > 0 && r < |states[i].requests|
    requires states[i].requests[r].header.None? && states[i].requests[r].key == Some(key)
    requires forall k :: 0 <= k < i && Concerns(states, steps, k, r) ==>
               key in states[k].h.issued && key in states[k].usable && !LosesRecord(steps[k])
    ensures states[i].requests[r].pc.Served? ==>
              exists j :: 0 <= j < i && steps[j] == Persist(r, true)
                       && Durable(states[j + 1], states[i].requests[r].pc.transport.id, key)
  {
    if i > 0 {
      var s, step := states[i - 1], steps[i - 1];
      assert StepAt(config, states, steps, i - 1);
      InvHolds(config, states, steps, i - 1);
      RequestsStay(config, s, step, r);
      if r >= |s.requests| {
        ArrivesOpening(config, s, step);
      } else {
        RefusedOnlyWhenFull(config, states, steps, i - 1, r);
        ServedOnceRecorded(config, states, steps, i - 1, r, key);
        if StepOf(step, r) {
          assert Concerns(states, steps, i - 1, r);
          RecordingStep(config, s, step, key);
        } else {
          OthersLeaveAlone(config, s, step, r);
        }
      }
    }
  }

  /** The owner about to be recorded is what the request's usable key resolved to. */
  lemma {:induction false} RecordedOnlyWhenResolved(config: Config, states: seq<State>, steps: seq<Step>, i: nat,
                                                    r: nat)
    requires IsRun(config, states, steps) && i <= |steps| && r < |states[i].requests|
    requires states[i].requests[r].pc.Persisting?
    ensures exists j :: 0 <= j < i && steps[j] == Register(r, true)
                     && Resolved(states[j], states[i].requests[r].key) == Some(states[i].requests[r].pc.owner)
  {
    var s, step := states[i - 1], steps[i - 1];
    assert StepAt(config, states, steps, i - 1);
    RequestsStay(config, s, step, r);
    if r >= |s.requests| {
      ArrivesElsewhere(config, s, step);
    } else if StepOf(step, r) {
      PersistingComesFromRegister(config, s, step);
    } else {
      OthersLeaveAlone(config, s, step, r);
      RecordedOnlyWhenResolved(config, states, steps, i - 1, r);
    }
  }

  lemma ArrivesElsewhere(config: Config, s: State, step: Step)
    requires step.Arrive?
    ensures var pc := Do(config, s, step).requests[|s.requests|].pc;
      !pc.Persisting? && !pc.Refreshing? && (pc.Locking? ==> pc.session.None?)
  {
  }

  lemma PersistingComesFromRegister(config: Config, s: State, step: Step)
    requires Enabled(s, step) && step.OfRequest()
    ensures var pc := Do(config, s, step).requests[step.r].pc;
      pc.Persisting? ==> step == Register(step.r, true) && Resolved(s, s.requests[step.r].key) == Some(pc.owner)
  {
  }

  // -------------------------------------------------------------------------
  // A session resumed
  // -------------------------------------------------------------------------

  /** A session is resumed only for a key that the database found usable, by a request that
      waits for the lock with that answer. A revoked or expired key resumes nothing. */
  lemma {:induction false} ResumedOnlyWithUsableKey(config: Config, states: seq<State>, steps: seq<Step>, i: nat,
                                                    r: nat)
    requires IsRun(config, states, steps) && i <= |steps| && r < |states[i].requests|
    requires states[i].requests[r].pc.Locking? && states[i].requests[r].header.Some?
    ensures states[i].requests[r].key.Some?
    ensures exists j :: 0 <= j < i && steps[j] == Resolve(r, true)
                     && states[i].requests[r].key.value in states[j].h.issued
                     && states[i].requests[r].key.value in states[j].usable
  {
    InvHolds(config, states, steps, i);
    assert RequestOk(states[i].requests[r], states[i].h);
    var s, step := states[i - 1], steps[i - 1];
    assert StepAt(config, states, steps, i - 1);
    RequestsStay(config, s, step, r);
    if r >= |s.requests| {
      ArrivesElsewhere(config, s, step);
    } else if StepOf(step, r) {
      LockingComesFromResolve(config, s, step);
    } else {
      OthersLeaveAlone(config, s, step, r);
      ResumedOnlyWithUsableKey(config, states, steps, i - 1, r);
    }
  }

  lemma LockingComesFromResolve(config: Config, s: State, step: Step)
    requires Enabled(s, step) && step.OfRequest()
    ensures Do(config, s, step).requests[step.r].pc.Locking? ==>
              step == Resolve(step.r, true) && Resolved(s, s.requests[step.r].key).Some?
  {
  }

  // -------------------------------------------------------------------------
  // Use extends the expiry
  // -------------------------------------------------------------------------

  /** The entry lives for the whole expiry from `now` on. */
  predicate Extended(config: Config, entries: Store.Entries, id: string, now: int) {
    id in entries && entries[id].deadline == now + Seconds(config.ttl)
  }

  /** Where a request that rehydrates its session can stand. */
  predicate IsTouching(pc: Pc, t: Transport) {
    pc == Touching(t) || pc == Refreshing(t) || pc == Served(t) || pc == Gone
  }

  lemma TouchingStep(config: Config, s: State, step: Step, t: Transport)
    requires Enabled(s, step) && step.OfRequest() && IsTouching(s.requests[step.r].pc, t)
    requires step.Touch? ==> step.answers && Store.Live(s.entries, t.id, s.now).Some?
    requires step.Refresh? ==> step.lands
    ensures var s' := Do(config, s, step);
      && IsTouching(s'.requests[step.r].pc, t)
      && (s'.requests[step.r].pc.Served? ==> step == Refresh(step.r, true) && Extended(config, s'.entries, t.id, s.now))
  {
  }

  /** A rehydrated session is served only once its expiry has been restarted, if Redis
      answers, the entry is still there and the write lands. */
  lemma {:induction false} ServedOnceExtended(config: Config, states: seq<State>, steps: seq<Step>, j: nat, i: nat,
                                              r: nat, t: Transport)
    requires IsRun(config, states, steps) && j <= i <= |steps| && r < |states[j].requests| <= |states[i].requests|
    requires states[j].requests[r].pc == Touching(t)
    requires forall k :: j <= k < i && StepOf(steps[k], r) ==>
               && (steps[k].Touch? ==> steps[k].answers && Store.Live(states[k].entries, t.id, states[k].now).Some?)
               && (steps[k].Refresh? ==> steps[k].lands)
    ensures IsTouching(states[i].requests[r].pc, t)
    ensures states[i].requests[r].pc.Served? ==>
              exists k :: j <= k < i && steps[k] == Refresh(r, true)
                       && Extended(config, states[k + 1].entries, t.id, states[k].now)
    decreases i - j
  {
    if j < i {
      var s, step := states[i - 1], steps[i - 1];
      assert StepAt(config, states, steps, i - 1);
      RequestsRemain(config, states, steps, j, i - 1);
      ServedOnceExtended(config, states, steps, j, i - 1, r, t);
      if StepOf(step, r) { TouchingStep(config, s, step, t); } else { OthersLeaveAlone(config, s, step, r); }
    }
  }

  /** A request served from memory leaves a touch to run in the background, and nothing
      else does; when it finds the entry, its write restarts the expiry. */
  lemma HitsExtend(config: Config, s: State, arrival: Step)
    requires Inv(config, s) && arrival.Arrive?
    ensures var hit := Do(config, s, arrival);
      var pc := hit.requests[|s.requests|].pc;
      if pc.Served? then
        && hit.looks == s.looks + multiset{pc.transport.id}
        && Enabled(hit, TouchInBackground(pc.transport.id, true))
        && (Store.Live(hit.entries, pc.transport.id, hit.now).Some? ==>
              pc.transport.id in Do(config, hit, TouchInBackground(pc.transport.id, true)).writes)
      else hit.looks == s.looks
  {
  }

  lemma BackgroundWriteExtends(config: Config, s: State, id: string)
    requires Enabled(s, RefreshInBackground(id, true))
    ensures Extended(config, Do(config, s, RefreshInBackground(id, true)).entries, id, s.now)
  {
  }

  // -------------------------------------------------------------------------
  // Nothing else extends it
  // -------------------------------------------------------------------------

  /** `id`'s record was live when the step looked for it. */
  predicate Finds(s: State, id: string) { Store.Live(s.entries, id, s.now).Some? }

  /** `step` hands a request the live transport of `id`. */
  predicate IsHit(s: State, step: Step, id: string) {
    step.Arrive? && step.header == Some(id) && Routed(s.maps, step.header, step.key).Handle?
  }

  /** A look in the background was left by a request served from memory. */
  lemma {:induction false} LooksFollowHits(config: Config, states: seq<State>, steps: seq<Step>, i: nat, id: string)
    requires IsRun(config, states, steps) && i <= |steps| && id in states[i].looks
    ensures exists j :: 0 <= j < i && IsHit(states[j], steps[j], id)
  {
    var s, step := states[i - 1], steps[i - 1];
    assert StepAt(config, states, steps, i - 1);
    if id in s.looks {
      LooksFollowHits(config, states, steps, i - 1, id);
    } else {
      assert IsHit(s, step, id);
    }
  }

  /** A write in the background follows a look that found the record, never one that did not. */
  lemma {:induction false} WritesFollowLooks(config: Config, states: seq<State>, steps: seq<Step>, i: nat, id: string)
    requires IsRun(config, states, steps) && i <= |steps| && id in states[i].writes
    ensures exists j :: 0 <= j < i && steps[j] == TouchInBackground(id, true) && Finds(states[j], id)
  {
    var s, step := states[i - 1], steps[i - 1];
    assert StepAt(config, states, steps, i - 1);
    if id in s.writes {
      WritesFollowLooks(config, states, steps, i - 1, id);
    } else {
      NewWrite(config, s, step, id);
    }
  }

  lemma NewWrite(config: Config, s: State, step: Step, id: string)
    requires Enabled(s, step) && id !in s.writes && id in Do(config, s, step).writes
    ensures step == TouchInBackground(id, true) && Finds(s, id)
  {
  }

  /** So does the write of a rehydration. */
  lemma {:induction false} RefreshingFollowsLook(config: Config, states: seq<State>, steps: seq<Step>, i: nat, r: nat)
    requires IsRun(config, states, steps) && i <= |steps| && r < |states[i].requests|
    requires states[i].requests[r].pc.Refreshing?
    ensures exists j :: 0 <= j < i && steps[j] == Touch(r, true)
                     && Finds(states[j], states[i].requests[r].pc.transport.id)
  {
    var s, step := states[i - 1], steps[i - 1];
    assert StepAt(config, states, steps, i - 1);
    RequestsStay(config, s, step, r);
    if r >= |s.requests| {
      ArrivesElsewhere(config, s, step);
    } else if StepOf(step, r) {
      RefreshingComesFromTouch(config, s, step);
    } else {
      OthersLeaveAlone(config, s, step, r);
      RefreshingFollowsLook(config, states, steps, i - 1, r);
    }
  }

  lemma RefreshingComesFromTouch(config: Config, s: State, step: Step)
    requires Enabled(s, step) && step.OfRequest()
    ensures var pc := Do(config, s, step).requests[step.r].pc;
      pc.Refreshing? ==> step == Touch(step.r, true) && Finds(s, pc.transport.id)
  {
  }
}
