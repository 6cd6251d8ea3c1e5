/** Session metadata in Redis with a sliding expiry (specivo/mcp/session_store.py).

    A key is gone from its deadline on. `get` and `touch` look first and write later, so
    another client's step, or the expiry itself, can come in between. */
module SessionStore {
  import opened Wrappers
  import opened Clock
  import opened Sequences
  import Ascii

  type Fields = map<string, string>

  datatype Entry = Entry(fields: Fields, deadline: int)

  type Entries = map<string, Entry>

  const CREATED_AT := "created_at"
  const LAST_SEEN_AT := "last_seen_at"

  /** `int(time.time())` as text. */
  function Stamp(now: nat): string { Ascii.Decimal(Truncated(now)) }

  /** A stamp reads back as the last whole second. */
  lemma StampIsLastSecond(now: nat)
    ensures Seconds(Ascii.Int(Stamp(now))) <= now < Seconds(Ascii.Int(Stamp(now)) + 1)
  {
    TruncatesTowardZero(now);
    Ascii.IntOfDecimal(Truncated(now));
  }

  /** What a reader sees at time `at`. */
  function Live(entries: Entries, id: string, at: int): Option<Fields> {
    if id in entries && at < entries[id].deadline then Some(entries[id].fields) else None
  }

  /** The hash `create` writes: the stamps, then the caller's values that are not None. */
  function Payload(now: nat, metadata: seq<(string, Option<string>)>): Fields {
    if metadata == [] then map[CREATED_AT := Stamp(now), LAST_SEEN_AT := Stamp(now)]
    else
      var last := metadata[|metadata| - 1];
      var before := Payload(now, metadata[..|metadata| - 1]);
      if last.1.None? then before else before[last.0 := last.1.value]
  }

  /** Every value that is not None is there, the last one given for its name; the stamps
      are there unless the caller gave their own. */
  lemma {:induction false} PayloadHolds(now: nat, metadata: seq<(string, Option<string>)>, k: string)
    ensures k in Payload(now, metadata) <==> k == CREATED_AT || k == LAST_SEEN_AT || Given(metadata, k).Some?
    ensures k in Payload(now, metadata) ==> Payload(now, metadata)[k] == Given(metadata, k).GetOr(Stamp(now))
  {
    if metadata != [] {
      var before, last := metadata[..|metadata| - 1], metadata[|metadata| - 1];
      PayloadHolds(now, before, k);
      assert metadata == before + [last];
      GivenAppend(before, last, k);
    }
  }

  /** The last value that is not None given for `k`. */
  function Given(metadata: seq<(string, Option<string>)>, k: string): Option<string> {
    if metadata == [] then None
    else if Given(metadata[1..], k).Some? then Given(metadata[1..], k)
    else if metadata[0].0 == k then metadata[0].1 else None
  }

  lemma {:induction false} GivenAppend(metadata: seq<(string, Option<string>)>, last: (string, Option<string>),
                                       k: string)
    ensures Given(metadata + [last], k) == if last.0 == k && last.1.Some? then last.1 else Given(metadata, k)
  {
    if metadata == [] {
      assert metadata + [last] == [last] && [last][1..] == [];
    } else {
      HeadAndTail(metadata, [last]);
      GivenAppend(metadata[1..], last, k);
    }
  }

  function Created(entries: Entries, id: string, payload: Fields, at: int, ttl: int): Entries {
    entries[id := Entry(payload, at + Seconds(ttl))]
  }

  /** The write of `get` and `touch`; on an absent key it makes a hash of its own. */
  function Refreshed(entries: Entries, id: string, now: nat, at: int, ttl: int): Entries {
    entries[id := Entry(Live(entries, id, at).GetOr(map[])[LAST_SEEN_AT := Stamp(now)], at + Seconds(ttl))]
  }

  class RedisSessionStore {
    const ttl: int
    var entries: Entries

    constructor (ttlSeconds: int)
      requires ttlSeconds > 0
      ensures ttl == ttlSeconds && entries == map[]
    {
      ttl := ttlSeconds;
      entries := map[];
    }

    method Create(id: string, metadata: seq<(string, Option<string>)>, now: nat, at: int)
      modifies this
      ensures entries == Created(old(entries), id, Payload(now, metadata), at, ttl)
    {
      var payload := map[CREATED_AT := Stamp(now), LAST_SEEN_AT := Stamp(now)];
      for i := 0 to |metadata|
        invariant payload == Payload(now, metadata[..i])
        invariant entries == old(entries)
      {
        assert metadata[..i + 1][..i] == metadata[..i];
        var (k, v) := metadata[i];
        if v.None? { continue; }
        payload := payload[k := v.value];
      }
      assert metadata[..|metadata|] == metadata;
      entries := entries[id := Entry(payload, at + Seconds(ttl))];
    }

    method Peek(id: string, at: int) returns (raw: Option<Fields>)
      ensures raw == Live(entries, id, at)
    {
      if id in entries && at < entries[id].deadline { raw := Some(entries[id].fields); } else { raw := None; }
    }

    /** The write of `get` and `touch`. */
    method Refresh(id: string, now: nat, at: int)
      modifies this
      ensures entries == Refreshed(old(entries), id, now, at, ttl)
    {
      var current := Peek(id, at);
      var fields := current.GetOr(map[]);
      entries := entries[id := Entry(fields[LAST_SEEN_AT := Stamp(now)], at + Seconds(ttl))];
    }

    /** `get`: read at `at`, write at `later`. The answer is what was read, stamped. */
    method Get(id: string, at: int, now: nat, later: int) returns (found: Option<Fields>)
      modifies this
      ensures Live(old(entries), id, at).None? ==> found.None? && entries == old(entries)
      ensures Live(old(entries), id, at).Some? ==>
                && found == Some(Live(old(entries), id, at).value[LAST_SEEN_AT := Stamp(now)])
                && entries == Refreshed(old(entries), id, now, later, ttl)
    {
      var raw := Peek(id, at);
      if raw.None? { return None; }
      Refresh(id, now, later);
      found := Some(raw.value[LAST_SEEN_AT := Stamp(now)]);
    }

    method Touch(id: string, at: int, now: nat, later: int) returns (there: bool)
      modifies this
      ensures there <==> Live(old(entries), id, at).Some?
      ensures entries == if there then Refreshed(old(entries), id, now, later, ttl) else old(entries)
    {
      there := Exists(id, at);
      if !there { return; }
      Refresh(id, now, later);
    }

    method Delete(id: string)
      modifies this
      ensures entries == old(entries) - {id}
    {
      entries := entries - {id};
    }

    method Exists(id: string, at: int) returns (found: bool)
      ensures found <==> Live(entries, id, at).Some?
    {
      found := id in entries && at < entries[id].deadline;
    }
  }

  // -------------------------------------------------------------------------
  // Any interleaving of clients
  // -------------------------------------------------------------------------

  /** `Look` is the first half of a `get` or `touch`; when it finds the key, a `Write`
      follows at some later time, or never. */
  datatype Step =
    | Create(id: string, payload: Fields, at: int)
    | Peek(id: string, at: int)
    | Look(id: string, at: int)
    | Write(id: string, now: nat, at: int)
    | Delete(id: string, at: int)

  /** `writes` are the writes whose look has found the key. */
  datatype State = State(entries: Entries, writes: multiset<string>, at: int)

  predicate Enabled(s: State, step: Step) {
    s.at <= step.at && (step.Write? ==> step.id in s.writes)
  }

  function Do(ttl: int, s: State, step: Step): State {
    match step
    case Create(id, payload, at) => s.(entries := Created(s.entries, id, payload, at, ttl), at := at)
    case Peek(id, at) => s.(at := at)
    case Look(id, at) =>
      s.(writes := if Live(s.entries, id, at).Some? then s.writes + multiset{id} else s.writes, at := at)
    case Write(id, now, at) =>
      State(Refreshed(s.entries, id, now, at, ttl), s.writes - multiset{id}, at)
    case Delete(id, at) => s.(entries := s.entries - {id}, at := at)
  }

  function After(ttl: int, steps: seq<Step>): State {
    if steps == [] then State(map[], multiset{}, 0)
    else Do(ttl, After(ttl, steps[..|steps| - 1]), steps[|steps| - 1])
  }

  ghost predicate Possible(ttl: int, steps: seq<Step>) {
    steps == [] ||
    (Possible(ttl, steps[..|steps| - 1]) && Enabled(After(ttl, steps[..|steps| - 1]), steps[|steps| - 1]))
  }

  /** When `id` was last created, got or touched, if it was not deleted since: read off
      the steps alone. */
  function LastWrite(steps: seq<Step>, id: string): Option<int> {
    if steps == [] then None
    else
      var last := steps[|steps| - 1];
      if last.id == id && (last.Create? || last.Write?) then Some(last.at)
      else if last.id == id && last.Delete? then None
      else LastWrite(steps[..|steps| - 1], id)
  }

  /** The `create` that `id` has lived on since, with no lapse and no deletion. */
  function Origin(ttl: int, steps: seq<Step>, id: string): Option<Fields> {
    if steps == [] then None
    else
      var before, last := steps[..|steps| - 1], steps[|steps| - 1];
      if last.id != id || last.Peek? || last.Look? then Origin(ttl, before, id)
      else if last.Create? then Some(last.payload)
      else if last.Delete? then None
      else if Lasts(ttl, before, id, last.at) then Origin(ttl, before, id)
      else None
  }

  /** `id` was written less than `ttl` before `at`. */
  predicate Lasts(ttl: int, steps: seq<Step>, id: string, at: int) {
    LastWrite(steps, id).Some? && at < LastWrite(steps, id).value + Seconds(ttl)
  }

  /** An entry lives exactly until the expiry after the last create, get or touch; a peek
      never extends it. */
  lemma {:induction false} LivesUntil(ttl: int, steps: seq<Step>, id: string, at: int)
    requires Possible(ttl, steps) && After(ttl, steps).at <= at
    ensures Live(After(ttl, steps).entries, id, at).Some? <==> Lasts(ttl, steps, id, at)
  {
    if steps != [] {
      LivesUntil(ttl, steps[..|steps| - 1], id, at);
    }
  }

  /** The time of last use written since `id` was created or deleted. */
  function LastUse(steps: seq<Step>, id: string): Option<nat> {
    if steps == [] then None
    else
      var last := steps[|steps| - 1];
      if last.id != id || last.Peek? || last.Look? then LastUse(steps[..|steps| - 1], id)
      else if last.Write? then Some(last.now)
      else None
  }

  function Used(fields: Fields, lastUse: Option<nat>): Fields {
    if lastUse.None? then fields else fields[LAST_SEEN_AT := Stamp(lastUse.value)]
  }

  /** The entry right after a refresh. */
  lemma AfterWrite(ttl: int, before: seq<Step>, last: Step, at: int)
    requires Possible(ttl, before) && Enabled(After(ttl, before), last) && last.Write? && last.at <= at
    requires var live := Live(After(ttl, before).entries, last.id, last.at);
      live.Some? ==> live.value == Used(Origin(ttl, before, last.id).GetOr(map[]), LastUse(before, last.id))
    ensures var steps := before + [last];
      var live := Live(After(ttl, steps).entries, last.id, at);
      live.Some? ==> live.value == Used(Origin(ttl, steps, last.id).GetOr(map[]), LastUse(steps, last.id))
  {
    LivesUntil(ttl, before, last.id, last.at);
    assert (before + [last])[..|before|] == before;
  }

  /** A live entry is the payload of the create it has lived on since, with the time of
      last use; or, when it was refreshed after it had lapsed or been deleted, that time
      and nothing else. */
  lemma {:induction false} ComesFromCreate(ttl: int, steps: seq<Step>, id: string, at: int)
    requires Possible(ttl, steps) && After(ttl, steps).at <= at
    ensures var live := Live(After(ttl, steps).entries, id, at);
      live.Some? ==> live.value == Used(Origin(ttl, steps, id).GetOr(map[]), LastUse(steps, id))
  {
    if steps != [] {
      var before, last := steps[..|steps| - 1], steps[|steps| - 1];
      ComesFromCreate(ttl, before, id, at);
      if last.id == id && last.Write? {
        ComesFromCreate(ttl, before, id, last.at);
        AfterWrite(ttl, before, last, at);
        assert steps == before + [last];
      }
    }
  }

  /** Such an entry can appear: a touch that looked in time writes after the expiry. */
  lemma LateTouchRecreates(ttl: int, id: string, payload: Fields, now: nat)
    requires ttl > 0
    ensures var steps := [Create(id, payload, 0), Look(id, 0), Write(id, now, Seconds(ttl))];
      && Possible(ttl, steps)
      && Live(After(ttl, steps).entries, id, Seconds(ttl)) == Some(map[LAST_SEEN_AT := Stamp(now)])
  {
    var steps := [Create(id, payload, 0), Look(id, 0), Write(id, now, Seconds(ttl))];
    assert steps[..2] == [Create(id, payload, 0), Look(id, 0)];
    assert steps[..2][..1] == [Create(id, payload, 0)];
    assert steps[..2][..1][..0] == [];
    assert Possible(ttl, steps[..2][..1][..0]);
    assert After(ttl, steps[..2][..1]) == State(map[id := Entry(payload, Seconds(ttl))], multiset{}, 0);
    assert Possible(ttl, steps[..2][..1]);
    assert After(ttl, steps[..2]) == State(map[id := Entry(payload, Seconds(ttl))], multiset{id}, 0);
    assert Possible(ttl, steps[..2]);
  }
}
