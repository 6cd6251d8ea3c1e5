/** The sliding-window rate limiter over a Redis sorted set (specivo/core/rate_limit.py).

    Times are whole microseconds. A check reads the clock first (`now`) and its commands
    reach Redis a little later (`at`). */
module RateLimit {
  import opened Wrappers
  import opened Clock
  import opened Ordered

  datatype Limits = Limits(maxRequests: int, windowSeconds: nat) {
    function Window(): int { Seconds(windowSeconds) }
  }

  /** One sorted set. A member is its own score; the key is gone from `deadline` on. */
  datatype Bucket = Bucket(entries: set<int>, deadline: int) {
    function Alive(at: int): set<int> { if at < deadline then entries else {} }
  }

  datatype Answer = Answer(allowed: bool, remaining: int, retryAfter: int)

  function RetryAfter(limits: Limits, now: int, oldest: Option<int>): int {
    if oldest.None? then limits.windowSeconds
    else
      var left := limits.windowSeconds - Truncated(now - oldest.value);
      if left < 1 then 1 else left
  }

  // -------------------------------------------------------------------------
  // The commands of a check, each one step of the sorted set
  // -------------------------------------------------------------------------

  /** What the pipeline counts. */
  function Counted(limits: Limits, b: Bucket, now: int, at: int): set<int> {
    Above(b.Alive(at), now - limits.Window())
  }

  /** The set after the pipeline. */
  function Added(limits: Limits, b: Bucket, now: int, at: int): Bucket {
    Bucket(Counted(limits, b, now, at) + {now}, at + limits.Window() + Seconds(1))
  }

  function Oldest(b: Bucket, at: int): Option<int> {
    if b.Alive(at) == {} then None else Some(Min(b.Alive(at)))
  }

  function Removed(b: Bucket, e: int, at: int): Bucket {
    Bucket(b.Alive(at) - {e}, b.deadline)
  }

  function Rejects(limits: Limits, b: Bucket, now: int, at: int): bool {
    |Counted(limits, b, now, at)| >= limits.maxRequests
  }

  /** A whole check: the pipeline at `at`, then on rejection the oldest at `at2` and the
      removal at `at3`. */
  function Checked(limits: Limits, b: Bucket, now: int, at: int, at3: int): Bucket {
    var added := Added(limits, b, now, at);
    if Rejects(limits, b, now, at) then Removed(added, now, at3) else added
  }

  function Answered(limits: Limits, b: Bucket, now: int, at: int, at2: int): Answer {
    if Rejects(limits, b, now, at)
    then Answer(false, 0, RetryAfter(limits, now, Oldest(Added(limits, b, now, at), at2)))
    else
      var remaining := limits.maxRequests - |Counted(limits, b, now, at)| - 1;
      Answer(true, if remaining < 0 then 0 else remaining, 0)
  }

  class RateLimiter {
    const limits: Limits
    var buckets: map<string, Bucket>

    ghost function BucketOf(identifier: string): Bucket
      reads this
    {
      if identifier in buckets then buckets[identifier] else Bucket({}, 0)
    }

    constructor (limits: Limits)
      ensures this.limits == limits && buckets == map[]
    {
      this.limits := limits;
      buckets := map[];
    }

    method Find(identifier: string) returns (b: Bucket)
      ensures b == BucketOf(identifier)
    {
      if identifier in buckets { b := buckets[identifier]; } else { b := Bucket({}, 0); }
    }

    /** Drop what left the window, count, add this request, reset the expiry. */
    method Pipeline(identifier: string, now: int, at: int) returns (countBefore: nat)
      modifies this
      ensures countBefore == |Counted(limits, old(BucketOf(identifier)), now, at)|
      ensures buckets == old(buckets)[identifier := Added(limits, old(BucketOf(identifier)), now, at)]
    {
      var bucket := Find(identifier);
      var windowStart := now - Seconds(limits.windowSeconds);
      var entries := bucket.Alive(at);
      entries := set e | e in entries && e > windowStart;
      countBefore := |entries|;
      entries := entries + {now};
      buckets := buckets[identifier := Bucket(entries, at + Seconds(limits.windowSeconds + 1))];
    }

    /** `zrem`. */
    method Remove(identifier: string, e: int, at: int)
      modifies this
      ensures buckets == old(buckets)[identifier := Removed(old(BucketOf(identifier)), e, at)]
    {
      var bucket := Find(identifier);
      buckets := buckets[identifier := Bucket(bucket.Alive(at) - {e}, bucket.deadline)];
    }

    /** `check`, with nothing from other clients in between. Other identifiers are left
        alone. */
    method Check(identifier: string, now: int, at: int, at2: int, at3: int) returns (answer: Answer)
      modifies this
      ensures answer == Answered(limits, old(BucketOf(identifier)), now, at, at2)
      ensures buckets == old(buckets)[identifier := Checked(limits, old(BucketOf(identifier)), now, at, at3)]
    {
      var countBefore := Pipeline(identifier, now, at);
      if countBefore >= limits.maxRequests {
        var bucket := Find(identifier);
        var entries := bucket.Alive(at2);
        var retryAfter: int;
        if entries != {} {
          var oldest := Min(entries);
          retryAfter := limits.windowSeconds - Truncated(now - oldest);
          if retryAfter < 1 { retryAfter := 1; }
        } else {
          retryAfter := limits.windowSeconds;
        }
        Remove(identifier, now, at3);
        return Answer(false, 0, retryAfter);
      }
      var remaining := limits.maxRequests - countBefore - 1;
      return Answer(true, if remaining < 0 then 0 else remaining, 0);
    }
  }

  // -------------------------------------------------------------------------
  // Any interleaving of clients
  // -------------------------------------------------------------------------

  /** `Pipeline` decides a request; `Cleanup` is the later removal of a rejected one,
      which may come late or never. */
  datatype Step = Pipeline(now: int, at: int) | Cleanup(entry: int, at: int)

  /** `allowed` and `pending` are the requests allowed so far, and those rejected but not
      yet removed. */
  datatype State = State(bucket: Bucket, allowed: set<int>, pending: set<int>, now: int, at: int)

  function Start(t: int): State { State(Bucket({}, 0), {}, {}, t, t) }

  /** Clocks in pipeline order strictly increase, and commands reach Redis within a second. */
  predicate Enabled(s: State, step: Step) {
    s.at <= step.at &&
    match step
    case Pipeline(now, at) => s.now < now <= at <= now + Seconds(1)
    case Cleanup(entry, at) => entry in s.pending
  }

  function Do(limits: Limits, s: State, step: Step): State {
    match step
    case Pipeline(now, at) =>
      var rejected := Rejects(limits, s.bucket, now, at);
      State(Added(limits, s.bucket, now, at),
            if rejected then s.allowed else s.allowed + {now},
            if rejected then s.pending + {now} else s.pending, now, at)
    case Cleanup(entry, at) =>
      s.(bucket := Removed(s.bucket, entry, at), pending := s.pending - {entry}, at := at)
  }

  ghost predicate Possible(limits: Limits, t: int, steps: seq<Step>) {
    steps == [] ||
    (Possible(limits, t, steps[..|steps| - 1])
     && Enabled(After(limits, t, steps[..|steps| - 1]), steps[|steps| - 1]))
  }

  function After(limits: Limits, t: int, steps: seq<Step>): State {
    if steps == [] then Start(t) else Do(limits, After(limits, t, steps[..|steps| - 1]), steps[|steps| - 1])
  }

  ghost predicate Inv(limits: Limits, s: State) {
    && s.now <= s.at
    && s.allowed !! s.pending
    && (forall e :: e in s.allowed || e in s.pending ==> e <= s.now)
    && (s.allowed + s.pending != {} ==> s.bucket.deadline >= s.now + limits.Window() + Seconds(1))
    && s.bucket.entries <= s.allowed + s.pending
    && (s.at < s.bucket.deadline ==>
          forall e :: e > s.now - limits.Window() ==> (e in s.bucket.entries <==> e in s.allowed || e in s.pending))
  }

  /** What a check counts: the recent allowed requests and the recent rejected ones not
      yet removed. */
  lemma CountsWhatIsRecent(limits: Limits, s: State, now: int, at: int)
    requires Inv(limits, s) && Enabled(s, Pipeline(now, at))
    ensures Counted(limits, s.bucket, now, at)
         == Above(s.allowed, now - limits.Window()) + Above(s.pending, now - limits.Window())
  {
    if at >= s.bucket.deadline {
      assert forall e :: e in s.allowed || e in s.pending ==> e <= now - limits.Window();
    }
  }

  lemma DoKeepsInv(limits: Limits, s: State, step: Step)
    requires Inv(limits, s) && Enabled(s, step)
    ensures Inv(limits, Do(limits, s, step))
  {
    if step.Pipeline? { CountsWhatIsRecent(limits, s, step.now, step.at); }
  }

  lemma {:induction false} InvHolds(limits: Limits, t: int, steps: seq<Step>)
    requires Possible(limits, t, steps)
    ensures Inv(limits, After(limits, t, steps))
  {
    if steps != [] {
      InvHolds(limits, t, steps[..|steps| - 1]);
      DoKeepsInv(limits, After(limits, t, steps[..|steps| - 1]), steps[|steps| - 1]);
    }
  }

  /** In every interleaving a check answers by the recent allowed requests and the recent
      lingering rejected ones together. */
  lemma DecisionIsExact(limits: Limits, t: int, steps: seq<Step>, now: int, at: int)
    requires Possible(limits, t, steps) && Enabled(After(limits, t, steps), Pipeline(now, at))
    ensures var s := After(limits, t, steps);
      Rejects(limits, s.bucket, now, at) <==>
      |Above(s.allowed, now - limits.Window())| + |Above(s.pending, now - limits.Window())| >= limits.maxRequests
  {
    var s := After(limits, t, steps);
    InvHolds(limits, t, steps);
    CountsWhatIsRecent(limits, s, now, at);
  }

  /** The members of the window of `limits.Window()` that ends at `end`. */
  function InWindow(limits: Limits, entries: set<int>, end: int): set<int> {
    set e | e in entries && end - limits.Window() < e <= end
  }

  lemma SubsetIsSmaller<T>(a: set<T>, b: set<T>)
    requires a <= b
    ensures |a| <= |b|
  {
    assert b == a + (b - a);
  }

  ghost predicate WithinLimit(limits: Limits, allowed: set<int>, end: int) {
    |InWindow(limits, allowed, end)| <= if limits.maxRequests < 0 then 0 else limits.maxRequests
  }

  lemma AllowedStaysWithinLimit(limits: Limits, allowed: set<int>, now: int, end: int)
    requires WithinLimit(limits, allowed, end) && |Above(allowed, now - limits.Window())| < limits.maxRequests
    requires forall e :: e in allowed ==> e < now
    ensures WithinLimit(limits, allowed + {now}, end)
  {
    var window := InWindow(limits, allowed + {now}, end);
    var rest := InWindow(limits, allowed, end);
    if now in window {
      assert window == rest + {now};
      SubsetIsSmaller(rest, Above(allowed, now - limits.Window()));
    } else {
      assert window == rest;
    }
  }

  lemma StepStaysWithinLimit(limits: Limits, s: State, step: Step, end: int)
    requires Inv(limits, s) && Enabled(s, step) && WithinLimit(limits, s.allowed, end)
    ensures WithinLimit(limits, Do(limits, s, step).allowed, end)
  {
    if step.Pipeline? && !Rejects(limits, s.bucket, step.now, step.at) {
      CountsWhatIsRecent(limits, s, step.now, step.at);
      SubsetIsSmaller(Above(s.allowed, step.now - limits.Window()), Counted(limits, s.bucket, step.now, step.at));
      AllowedStaysWithinLimit(limits, s.allowed, step.now, end);
    }
  }

  /** In every interleaving, with rejected entries lingering at will, at most
      `maxRequests` requests are allowed in any half-open window. */
  lemma {:induction false} WindowNeverExceeded(limits: Limits, t: int, steps: seq<Step>, end: int)
    requires Possible(limits, t, steps)
    ensures WithinLimit(limits, After(limits, t, steps).allowed, end)
  {
    if steps == [] {
      assert InWindow(limits, {}, end) == {};
    } else {
      var before := steps[..|steps| - 1];
      WindowNeverExceeded(limits, t, before, end);
      InvHolds(limits, t, before);
      StepStaysWithinLimit(limits, After(limits, t, before), steps[|steps| - 1], end);
    }
  }

  // -------------------------------------------------------------------------
  // One check after another
  // -------------------------------------------------------------------------

  /** A check that starts at `now`, counts at `at` and is done by `done`. */
  datatype Visit = Visit(now: int, at: int, done: int)

  ghost predicate OneAfterAnother(visits: seq<Visit>) {
    visits == [] ||
    var before, v := visits[..|visits| - 1], visits[|visits| - 1];
    && v.now <= v.at <= v.now + Seconds(1) && v.at <= v.done
    && OneAfterAnother(before)
    && (before != [] ==> before[|before| - 1].now < v.now && before[|before| - 1].done <= v.at)
  }

  function BucketAfter(limits: Limits, visits: seq<Visit>): Bucket {
    if visits == [] then Bucket({}, 0)
    else
      var v := visits[|visits| - 1];
      Checked(limits, BucketAfter(limits, visits[..|visits| - 1]), v.now, v.at, v.done)
  }

  /** The plain rule, with no store, no expiry and nothing ever forgotten: a request is
      allowed when fewer than the limit were allowed in the window before it. */
  function AllowedByRule(limits: Limits, nows: seq<int>): set<int> {
    if nows == [] then {}
    else
      var before, now := AllowedByRule(limits, nows[..|nows| - 1]), nows[|nows| - 1];
      if |Above(before, now - limits.Window())| < limits.maxRequests then before + {now} else before
  }

  function Nows(visits: seq<Visit>): (nows: seq<int>)
    ensures |nows| == |visits|
  {
    seq(|visits|, i requires 0 <= i < |visits| => visits[i].now)
  }

  function RecentByRule(limits: Limits, visits: seq<Visit>, now: int): set<int> {
    Above(AllowedByRule(limits, Nows(visits)), now - limits.Window())
  }

  lemma RuleAppend(limits: Limits, visits: seq<Visit>, v: Visit)
    ensures AllowedByRule(limits, Nows(visits + [v]))
         == if |RecentByRule(limits, visits, v.now)| < limits.maxRequests
            then AllowedByRule(limits, Nows(visits)) + {v.now} else AllowedByRule(limits, Nows(visits))
  {
    assert Nows(visits + [v]) == Nows(visits) + [v.now];
    assert Nows(visits + [v])[..|visits|] == Nows(visits);
  }

  /** One whole check, from a state with nothing pending. */
  lemma VisitSteps(limits: Limits, s: State, v: Visit)
    requires Inv(limits, s) && s.pending == {} && v.at <= v.done && Enabled(s, Pipeline(v.now, v.at))
    ensures var counted := Do(limits, s, Pipeline(v.now, v.at));
      && (Rejects(limits, s.bucket, v.now, v.at) <==> |Above(s.allowed, v.now - limits.Window())| >= limits.maxRequests)
      && (!Rejects(limits, s.bucket, v.now, v.at) ==>
            counted == State(Checked(limits, s.bucket, v.now, v.at, v.done), s.allowed + {v.now}, {}, v.now, v.at))
      && (Rejects(limits, s.bucket, v.now, v.at) ==>
            && Enabled(counted, Cleanup(v.now, v.done))
            && Do(limits, counted, Cleanup(v.now, v.done))
               == State(Checked(limits, s.bucket, v.now, v.at, v.done), s.allowed, {}, v.now, v.done))
  {
    CountsWhatIsRecent(limits, s, v.now, v.at);
    assert Above(s.pending, v.now - limits.Window()) == {};
    assert {v.now} - {v.now} == {};
  }

  ghost predicate Simulated(limits: Limits, t: int, visits: seq<Visit>, s: State) {
    && s.bucket == BucketAfter(limits, visits)
    && s.allowed == AllowedByRule(limits, Nows(visits))
    && s.pending == {}
    && s.now == (if visits == [] then t else visits[|visits| - 1].now)
    && s.at <= (if visits == [] then t else visits[|visits| - 1].done)
  }

  lemma OneMoreVisit(limits: Limits, t: int, before: seq<Visit>, s: State, v: Visit)
    requires Inv(limits, s) && Simulated(limits, t, before, s) && v.at <= v.done && Enabled(s, Pipeline(v.now, v.at))
    ensures var counted := Do(limits, s, Pipeline(v.now, v.at));
      if Rejects(limits, s.bucket, v.now, v.at)
      then Enabled(counted, Cleanup(v.now, v.done))
           && Simulated(limits, t, before + [v], Do(limits, counted, Cleanup(v.now, v.done)))
      else Simulated(limits, t, before + [v], counted)
  {
    VisitSteps(limits, s, v);
    var counted := Do(limits, s, Pipeline(v.now, v.at));
    if Rejects(limits, s.bucket, v.now, v.at) {
      SimulatedAppend(limits, t, before, s, v, Do(limits, counted, Cleanup(v.now, v.done)));
    } else {
      SimulatedAppend(limits, t, before, s, v, counted);
    }
  }

  lemma SimulatedAppend(limits: Limits, t: int, before: seq<Visit>, s: State, v: Visit, next: State)
    requires Simulated(limits, t, before, s)
    requires next.bucket == Checked(limits, s.bucket, v.now, v.at, v.done)
    requires next.allowed == if |Above(s.allowed, v.now - limits.Window())| < limits.maxRequests
                             then s.allowed + {v.now} else s.allowed
    requires next.pending == {} && next.now == v.now && next.at <= v.done
    ensures Simulated(limits, t, before + [v], next)
  {
    BucketAppend(limits, before, v, s.bucket, next.bucket);
    AllowedAppend(limits, before, v, s.allowed, next.allowed);
    SimulatedBy(limits, t, before, v, next);
  }

  lemma BucketAppend(limits: Limits, before: seq<Visit>, v: Visit, b: Bucket, next: Bucket)
    requires b == BucketAfter(limits, before) && next == Checked(limits, b, v.now, v.at, v.done)
    ensures next == BucketAfter(limits, before + [v])
  {
    assert (before + [v])[..|before|] == before;
  }

  lemma AllowedAppend(limits: Limits, before: seq<Visit>, v: Visit, allowed: set<int>, next: set<int>)
    requires allowed == AllowedByRule(limits, Nows(before))
    requires next == if |Above(allowed, v.now - limits.Window())| < limits.maxRequests
                     then allowed + {v.now} else allowed
    ensures next == AllowedByRule(limits, Nows(before + [v]))
  {
    RuleAppend(limits, before, v);
  }

  lemma SimulatedBy(limits: Limits, t: int, before: seq<Visit>, v: Visit, next: State)
    requires next.bucket == BucketAfter(limits, before + [v])
    requires next.allowed == AllowedByRule(limits, Nows(before + [v]))
    requires next.pending == {} && next.now == v.now && next.at <= v.done
    ensures Simulated(limits, t, before + [v], next)
  {
    var all := before + [v];
    assert all != [] && all[|all| - 1] == v;
  }

  lemma LastVisit(t: int, before: seq<Visit>, v: Visit)
    requires OneAfterAnother(before + [v]) && t < (before + [v])[0].now
    ensures OneAfterAnother(before) && (before != [] ==> t < before[0].now)
    ensures v.now <= v.at <= v.now + Seconds(1) && v.at <= v.done
    ensures before == [] ==> t < v.now
    ensures before != [] ==> before[|before| - 1].now < v.now && before[|before| - 1].done <= v.at
  {
    assert (before + [v])[..|before|] == before;
  }

  /** `s` is where the interleaving of `visits` ends. */
  ghost predicate Reaches(limits: Limits, t: int, steps: seq<Step>, s: State) {
    Possible(limits, t, steps) && s == After(limits, t, steps)
  }

  lemma OneMoreStep(limits: Limits, t: int, steps: seq<Step>, s: State, step: Step)
    requires Reaches(limits, t, steps, s) && Enabled(s, step)
    ensures Reaches(limits, t, steps + [step], Do(limits, s, step))
  {
    assert (steps + [step])[..|steps|] == steps;
  }

  lemma {:induction false} SequentialRun(limits: Limits, t: int, visits: seq<Visit>)
    returns (steps: seq<Step>, s: State)
    requires OneAfterAnother(visits) && (visits != [] ==> t < visits[0].now)
    ensures Reaches(limits, t, steps, s) && Simulated(limits, t, visits, s)
  {
    if visits == [] {
      steps, s := [], Start(t);
    } else {
      var before, v := visits[..|visits| - 1], visits[|visits| - 1];
      assert before + [v] == visits;
      LastVisit(t, before, v);
      steps, s := SequentialRun(limits, t, before);
      steps, s := SequentialStep(limits, t, before, steps, s, v);
    }
  }

  lemma SequentialStep(limits: Limits, t: int, visits: seq<Visit>, steps: seq<Step>, s: State, v: Visit)
    returns (steps': seq<Step>, s': State)
    requires Reaches(limits, t, steps, s) && Simulated(limits, t, visits, s)
    requires s.now < v.now <= v.at <= v.now + Seconds(1) && s.at <= v.at <= v.done
    ensures Reaches(limits, t, steps', s') && Simulated(limits, t, visits + [v], s')
  {
    InvHolds(limits, t, steps);
    OneMoreVisit(limits, t, visits, s, v);
    var counted := Do(limits, s, Pipeline(v.now, v.at));
    steps', s' := steps + [Pipeline(v.now, v.at)], counted;
    OneMoreStep(limits, t, steps, s, Pipeline(v.now, v.at));
    if Rejects(limits, s.bucket, v.now, v.at) {
      OneMoreStep(limits, t, steps', s', Cleanup(v.now, v.done));
      steps', s' := steps' + [Cleanup(v.now, v.done)], Do(limits, counted, Cleanup(v.now, v.done));
    }
  }

  /** What a sequential check counts. */
  lemma RuleCounts(limits: Limits, visits: seq<Visit>, v: Visit)
    requires OneAfterAnother(visits + [v])
    ensures Counted(limits, BucketAfter(limits, visits), v.now, v.at) == RecentByRule(limits, visits, v.now)
    ensures forall e :: e in AllowedByRule(limits, Nows(visits)) ==> e < v.now
    ensures |RecentByRule(limits, visits, v.now)| <= if limits.maxRequests < 0 then 0 else limits.maxRequests
  {
    var t := (visits + [v])[0].now - 1;
    LastVisit(t, visits, v);
    var steps, s := SequentialRun(limits, t, visits);
    InvHolds(limits, t, steps);
    WindowNeverExceeded(limits, t, steps, v.now);
    CountedAlone(limits, s, v);
  }

  lemma CountedAlone(limits: Limits, s: State, v: Visit)
    requires Inv(limits, s) && s.pending == {} && Enabled(s, Pipeline(v.now, v.at))
    ensures Counted(limits, s.bucket, v.now, v.at) == Above(s.allowed, v.now - limits.Window())
    ensures InWindow(limits, s.allowed, v.now) == Above(s.allowed, v.now - limits.Window())
  {
    CountsWhatIsRecent(limits, s, v.now, v.at);
    assert Above(s.pending, v.now - limits.Window()) == {};
  }

  /** One check after another, the answer is the plain rule's: the sorted set and its
      expiry never change it, `remaining` counts what the rule still allows, and a
      rejected caller has nothing left and a second or more to wait. */
  lemma SequentialMeetsRule(limits: Limits, visits: seq<Visit>, v: Visit)
    requires OneAfterAnother(visits + [v])
    ensures var recent := |RecentByRule(limits, visits, v.now)|;
      var answer := Answered(limits, BucketAfter(limits, visits), v.now, v.at, v.done);
      && (answer.allowed <==> recent < limits.maxRequests)
      && (answer.allowed ==> answer.remaining == limits.maxRequests - recent - 1 && answer.retryAfter == 0)
      && (!answer.allowed ==> answer.remaining == 0 && (limits.windowSeconds >= 1 ==> answer.retryAfter >= 1))
  {
    RuleCounts(limits, visits, v);
    AnswerByCount(limits, BucketAfter(limits, visits), v.now, v.at, v.done);
  }

  lemma AnswerByCount(limits: Limits, b: Bucket, now: int, at: int, at2: int)
    ensures var answer, count := Answered(limits, b, now, at, at2), |Counted(limits, b, now, at)|;
      && (answer.allowed <==> count < limits.maxRequests)
      && (answer.allowed ==> answer.remaining == limits.maxRequests - count - 1 && answer.retryAfter == 0)
      && (!answer.allowed ==> answer.remaining == 0 && (limits.windowSeconds >= 1 ==> answer.retryAfter >= 1))
  {
  }

  /** The second's grace is exact: with a longer delay between the clock and Redis, the
      expiry forgets a request the rule still counts. */
  lemma LateCheckForgets(windowSeconds: nat, delay: int)
    requires windowSeconds >= 1 && Seconds(1) < delay < Seconds(windowSeconds + 1)
    ensures var limits, at := Limits(1, windowSeconds), Seconds(windowSeconds + 1);
      && Answered(limits, BucketAfter(limits, [Visit(0, 0, 0)]), at - delay, at, at).allowed
      && |Above(AllowedByRule(limits, [0]), at - delay - limits.Window())| == 1
  {
    var limits, at := Limits(1, windowSeconds), Seconds(windowSeconds + 1);
    assert Nows([Visit(0, 0, 0)]) == [0];
    assert BucketAfter(limits, []) == Bucket({}, 0);
    assert [Visit(0, 0, 0)][..0] == [];
    assert BucketAfter(limits, [Visit(0, 0, 0)]).deadline == at;
    assert AllowedByRule(limits, [0][..0]) == {};
    assert Above({}, 0 - limits.Window()) == {};
    assert AllowedByRule(limits, [0]) == {0};
    assert Above({0}, at - delay - limits.Window()) == {0};
  }

  /** Readings must differ: checks that read the same time share one member, so with a
      limit of two or more any number of them is allowed at once. */
  lemma {:induction false} EqualReadingsCollide(limits: Limits, visits: seq<Visit>)
    requires limits.maxRequests >= 2 && limits.windowSeconds >= 1
    requires forall v :: v in visits ==> v == Visit(0, 0, 0)
    ensures BucketAfter(limits, visits)
         == if visits == [] then Bucket({}, 0) else Bucket({0}, limits.Window() + Seconds(1))
    ensures Answered(limits, BucketAfter(limits, visits), 0, 0, 0).allowed
  {
    if visits != [] {
      var before := visits[..|visits| - 1];
      assert forall v :: v in before ==> v in visits;
      EqualReadingsCollide(limits, before);
      assert visits[|visits| - 1] in visits;
      OneMemberCounts(limits, BucketAfter(limits, before));
    }
    OneMemberCounts(limits, BucketAfter(limits, visits));
  }

  lemma OneMemberCounts(limits: Limits, b: Bucket)
    requires limits.windowSeconds >= 1 && (b.entries == {} || b == Bucket({0}, limits.Window() + Seconds(1)))
    ensures Counted(limits, b, 0, 0) == b.entries && |Counted(limits, b, 0, 0)| <= 1
    ensures Added(limits, b, 0, 0) == Bucket({0}, limits.Window() + Seconds(1))
  {
    assert b.Alive(0) == b.entries;
    assert Counted(limits, b, 0, 0) == b.entries;
    assert b.entries + {0} == {0};
  }

  // -------------------------------------------------------------------------
  // When to come back
  // -------------------------------------------------------------------------

  /** Of a full window, one entry has left `seconds` later exactly when the oldest has. */
  lemma OldestLeavesFirst(limits: Limits, allowed: set<int>, now: int, k: nat)
    requires limits.maxRequests >= 1 && |Above(allowed, now - limits.Window())| == limits.maxRequests
    requires forall e :: e in allowed ==> e < now
    ensures Above(allowed, now - limits.Window()) != {}
    ensures var oldest := Min(Above(allowed, now - limits.Window()));
      |Above(allowed, now + Seconds(k) - limits.Window())| < limits.maxRequests
      <==> oldest <= now + Seconds(k) - limits.Window()
  {
    var full := Above(allowed, now - limits.Window());
    var later := Above(allowed, now + Seconds(k) - limits.Window());
    assert |full| > 0;
    var oldest := Min(full);
    if oldest <= now + Seconds(k) - limits.Window() {
      SubsetIsSmaller(later, full - {oldest});
    } else {
      assert later == full;
    }
  }

  /** Rounding the age of the oldest entry down to seconds loses nothing. */
  lemma WholeSecondsSuffice(limits: Limits, now: int, oldest: int, k: int)
    requires 0 < now - oldest < limits.Window()
    ensures RetryAfter(limits, now, Some(oldest)) >= 1
    ensures oldest <= now + Seconds(k) - limits.Window() <==> k >= RetryAfter(limits, now, Some(oldest))
  {
    var age := now - oldest;
    assert age == Seconds(age / 1_000_000) + age % 1_000_000;
    var left := limits.windowSeconds - age / 1_000_000;
    assert Seconds(left) == limits.Window() - Seconds(age / 1_000_000);
  }

  lemma RejectionAnswers(limits: Limits, b: Bucket, now: int, at: int, at2: int)
    requires limits.maxRequests >= 1 && !Answered(limits, b, now, at, at2).allowed
    requires forall e :: e in Counted(limits, b, now, at) ==> e < now
    ensures var full := Counted(limits, b, now, at);
      && full != {}
      && Answered(limits, b, now, at, at2).retryAfter
         == RetryAfter(limits, now, if at2 < at + limits.Window() + Seconds(1) then Some(Min(full)) else None)
  {
    var full := Counted(limits, b, now, at);
    assert |full| > 0;
    assert Min(full + {now}) == Min(full);
  }

  /** The oldest request a rejected check sees, unless the key is gone when it looks. */
  function OldestSeen(limits: Limits, visits: seq<Visit>, v: Visit): Option<int> {
    var full := RecentByRule(limits, visits, v.now);
    if full == {} || v.done >= v.at + limits.Window() + Seconds(1) then None else Some(Min(full))
  }

  lemma FullWhenRejected(limits: Limits, visits: seq<Visit>, v: Visit)
    requires limits.maxRequests >= 1 && OneAfterAnother(visits + [v])
    requires !Answered(limits, BucketAfter(limits, visits), v.now, v.at, v.done).allowed
    ensures Counted(limits, BucketAfter(limits, visits), v.now, v.at) == RecentByRule(limits, visits, v.now)
    ensures |RecentByRule(limits, visits, v.now)| == limits.maxRequests
    ensures forall e :: e in AllowedByRule(limits, Nows(visits)) ==> e < v.now
  {
    RuleCounts(limits, visits, v);
    AnswerByCount(limits, BucketAfter(limits, visits), v.now, v.at, v.done);
  }

  /** What a rejected check answers. */
  lemma RejectedAnswer(limits: Limits, visits: seq<Visit>, v: Visit)
    requires limits.maxRequests >= 1 && OneAfterAnother(visits + [v])
    requires !Answered(limits, BucketAfter(limits, visits), v.now, v.at, v.done).allowed
    ensures Answered(limits, BucketAfter(limits, visits), v.now, v.at, v.done).retryAfter
         == RetryAfter(limits, v.now, OldestSeen(limits, visits, v))
  {
    FullWhenRejected(limits, visits, v);
    RejectionAnswers(limits, BucketAfter(limits, visits), v.now, v.at, v.done);
  }

  /** After a rejection, `retryAfter` is the least whole number of seconds after which
      the same caller, with nothing in between, is allowed. */
  lemma RetryAfterIsLeast(limits: Limits, visits: seq<Visit>, v: Visit, k: nat, next: Visit)
    requires limits.maxRequests >= 1 && k >= 1
    requires OneAfterAnother(visits + [v] + [next]) && next.now == v.now + Seconds(k)
    requires !Answered(limits, BucketAfter(limits, visits), v.now, v.at, v.done).allowed
    ensures Answered(limits, BucketAfter(limits, visits + [v]), next.now, next.at, next.done).allowed
       <==> k >= Answered(limits, BucketAfter(limits, visits), v.now, v.at, v.done).retryAfter
  {
    NextComesAfter(visits, v, next);
    RejectedAnswer(limits, visits, v);
    FullWhenRejected(limits, visits, v);
    RuleAllowsAfter(limits, visits, v, k, next);
    SequentialMeetsRule(limits, visits + [v], next);
  }

  lemma RuleAllowsAfter(limits: Limits, visits: seq<Visit>, v: Visit, k: nat, next: Visit)
    requires limits.maxRequests >= 1 && k >= 1 && |RecentByRule(limits, visits, v.now)| == limits.maxRequests
    requires forall e :: e in AllowedByRule(limits, Nows(visits)) ==> e < v.now
    requires next.now == v.now + Seconds(k) && v.now <= v.at && v.done <= next.at <= next.now + Seconds(1)
    ensures |RecentByRule(limits, visits + [v], next.now)| < limits.maxRequests
       <==> k >= RetryAfter(limits, v.now, OldestSeen(limits, visits, v))
  {
    RuleAppend(limits, visits, v);
    LeastWait(limits, AllowedByRule(limits, Nows(visits)), v, k, next,
              RetryAfter(limits, v.now, OldestSeen(limits, visits, v)));
  }

  lemma NextComesAfter(visits: seq<Visit>, v: Visit, next: Visit)
    requires OneAfterAnother(visits + [v] + [next])
    ensures OneAfterAnother(visits + [v]) && v.now <= v.at && v.done <= next.at <= next.now + Seconds(1)
  {
    assert (visits + [v] + [next])[..|visits| + 1] == visits + [v];
  }

  lemma LeastWait(limits: Limits, allowed: set<int>, v: Visit, k: nat, next: Visit, retryAfter: int)
    requires limits.maxRequests >= 1 && |Above(allowed, v.now - limits.Window())| == limits.maxRequests
    requires var full := Above(allowed, v.now - limits.Window());
      retryAfter == RetryAfter(limits, v.now,
                               if full == {} || v.done >= v.at + limits.Window() + Seconds(1) then None
                               else Some(Min(full)))
    requires forall e :: e in allowed ==> e < v.now
    requires k >= 1 && next.now == v.now + Seconds(k) && v.now <= v.at && v.done <= next.at <= next.now + Seconds(1)
    ensures |Above(allowed, next.now - limits.Window())| < limits.maxRequests <==> k >= retryAfter
  {
    OldestLeavesFirst(limits, allowed, v.now, k);
    var full := Above(allowed, v.now - limits.Window());
    WholeSecondsSuffice(limits, v.now, Min(full), k);
    if v.done >= v.at + limits.Window() + Seconds(1) {
      assert Seconds(k) >= limits.Window();
    }
  }

  /** With a limit of zero or less no wait is ever enough, whatever `retryAfter` says. */
  lemma NoLimitNeverAllows(limits: Limits, visits: seq<Visit>, v: Visit)
    requires OneAfterAnother(visits + [v]) && limits.maxRequests <= 0
    ensures !Answered(limits, BucketAfter(limits, visits), v.now, v.at, v.done).allowed
    ensures Answered(limits, BucketAfter(limits, visits), v.now, v.at, v.at).retryAfter
         == if limits.windowSeconds == 0 then 1 else limits.windowSeconds
  {
    RuleCounts(limits, visits, v);
    assert Counted(limits, BucketAfter(limits, visits), v.now, v.at) == {};
    assert Min({v.now}) == v.now;
  }
}
