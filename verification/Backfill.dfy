/** The full rebuild of the search index (specivo/cli/backfill_embeddings.py), over a
    database that does not change meanwhile. */
module Backfill {
  import opened Wrappers
  import opened Ordered
  import opened Sequences

  datatype Kind = Issue | WikiPage | Journal | Attachment

  /** What an index row is about, and what it holds. */
  datatype Key = Key(kind: Kind, id: int)
  datatype Source = Source(projectId: int, chunks: seq<string>)

  type Index = map<Key, Source>

  /** `items` are the ids of each table but the comments; `notes` the texts of the comments;
      `read` is what an item that is there loads, if the settings and its container let it
      be indexed. */
  datatype Content = Content(items: Kind -> set<int>, notes: map<int, Option<string>>, read: Key -> Option<Source>)

  /** What goes wrong, and how many chunks an embedding call embeds. */
  datatype Outcomes = Outcomes(modelUsable: bool, syncFails: Key -> bool, embedded: Key -> Option<nat>)

  datatype Report = Report(sourcesChunked: nat, chunks: nat, sourcesRemoved: nat, chunksEmbedded: nat, failures: nat) {
    function ExitCode(): int { if failures > 0 then 1 else 0 }
  }

  const BATCH_SIZE := 20
  const KINDS := [Issue, WikiPage, Journal, Attachment]

  /** The items of a kind that could be indexed: a comment only when it says something. */
  function Entities(content: Content, kind: Kind): set<int> {
    if kind.Journal? then set id | id in content.notes && content.notes[id].GetOr("") != "" else content.items(kind)
  }

  function Indexed(index: Index, kind: Kind): set<int> { set key | key in index && key.kind == kind :: key.id }

  /** `_candidate_ids`. */
  function Candidates(content: Content, index: Index, kind: Kind): set<int> {
    Entities(content, kind) + Indexed(index, kind)
  }

  function Limited(ids: seq<int>): seq<int> { if |ids| <= BATCH_SIZE then ids else ids[..BATCH_SIZE] }

  /** `load_source_chunks`: nothing for an item that is gone, no chunks for an empty comment. */
  function Load(content: Content, key: Key): Option<Source> {
    if key.kind.Journal? then
      if key.id !in content.notes then None
      else if content.notes[key.id].GetOr("") == "" then
        if content.read(key).None? then None else Some(Source(content.read(key).value.projectId, []))
      else content.read(key)
    else if key.id in content.items(key.kind) then content.read(key)
    else None
  }

  /** What the index should hold for a key. */
  function Wanted(content: Content, key: Key): Option<Source> {
    var loaded := Load(content, key);
    if loaded.None? || loaded.value.chunks == [] then None else loaded
  }

  function Lookup(index: Index, key: Key): Option<Source> { if key in index then Some(index[key]) else None }

  function With(index: Index, key: Key, source: Option<Source>): Index {
    if source.None? then index - {key} else index[key := source.value]
  }

  datatype Progress = Progress(index: Index, report: Report)

  /** One visit. */
  function Visited(content: Content, outcomes: Outcomes, p: Progress, key: Key): Progress {
    var r, wanted := p.report, Wanted(content, key);
    if outcomes.syncFails(key) then p.(report := r.(failures := r.failures + 1))
    else Progress(With(p.index, key, wanted),
      if wanted.None? then (if key in p.index then r.(sourcesRemoved := r.sourcesRemoved + 1) else r)
      else
        var chunked := r.(sourcesChunked := r.sourcesChunked + 1, chunks := r.chunks + |wanted.value.chunks|);
        if !outcomes.modelUsable then chunked
        else if outcomes.embedded(key).None? then chunked.(failures := r.failures + 1)
        else chunked.(chunksEmbedded := r.chunksEmbedded + outcomes.embedded(key).value))
  }

  function AfterVisits(content: Content, outcomes: Outcomes, p: Progress, keys: seq<Key>): Progress {
    if keys == [] then p
    else Visited(content, outcomes, AfterVisits(content, outcomes, p, keys[..|keys| - 1]), keys[|keys| - 1])
  }

  function Keys(kind: Kind, ids: seq<int>): seq<Key> {
    if ids == [] then [] else Keys(kind, ids[..|ids| - 1]) + [Key(kind, ids[|ids| - 1])]
  }

  /** Every positive candidate of the kinds, in ascending order. */
  function Schedule(content: Content, index: Index, kinds: seq<Kind>): seq<Key> {
    if kinds == [] then []
    else
      var kind := kinds[|kinds| - 1];
      Schedule(content, index, kinds[..|kinds| - 1]) + Keys(kind, Ascending(Above(Candidates(content, index, kind), 0)))
  }

  lemma VisitTouchesOnlyIts(content: Content, outcomes: Outcomes, p: Progress, key: Key, k: Key)
    ensures Lookup(Visited(content, outcomes, p, key).index, k)
         == if k != key || outcomes.syncFails(key) then Lookup(p.index, k) else Wanted(content, key)
  {
  }

  /** After a run of visits, what was visited without a failure holds what is wanted, and
      all else holds what it held. */
  lemma {:induction false} IndexAfterVisits(content: Content, outcomes: Outcomes, p: Progress, keys: seq<Key>, k: Key)
    ensures Lookup(AfterVisits(content, outcomes, p, keys).index, k)
         == if k in keys && !outcomes.syncFails(k) then Wanted(content, k) else Lookup(p.index, k)
  {
    if keys != [] {
      var before, last := keys[..|keys| - 1], keys[|keys| - 1];
      IndexAfterVisits(content, outcomes, p, before, k);
      VisitTouchesOnlyIts(content, outcomes, AfterVisits(content, outcomes, p, before), last, k);
      assert k in keys <==> k in before || k == last;
    }
  }

  lemma {:induction false} AfterVisitsConcat(content: Content, outcomes: Outcomes, p: Progress, a: seq<Key>,
                                             b: seq<Key>)
    ensures AfterVisits(content, outcomes, p, a + b)
         == AfterVisits(content, outcomes, AfterVisits(content, outcomes, p, a), b)
  {
    if b == [] {
      assert a + b == a;
    } else {
      var before, last := b[..|b| - 1], b[|b| - 1];
      AfterVisitsConcat(content, outcomes, p, a, before);
      LastAndInit(a + before, last);
      assert a + b == a + before + [last];
    }
  }

  lemma {:induction false} KeysMembers(kind: Kind, ids: seq<int>, k: Key)
    ensures k in Keys(kind, ids) <==> k.kind == kind && k.id in ids
  {
    if ids != [] {
      var before, last := ids[..|ids| - 1], ids[|ids| - 1];
      KeysMembers(kind, before, k);
      assert ids == before + [last];
      assert k == Key(kind, last) <==> k.kind == kind && k.id == last;
    }
  }

  lemma SameCandidatesAbove(content: Content, i: Index, j: Index, kind: Kind, last: int)
    requires forall id :: id > last ==> Lookup(i, Key(kind, id)) == Lookup(j, Key(kind, id))
    ensures Above(Candidates(content, i, kind), last) == Above(Candidates(content, j, kind), last)
  {
    forall id | id > last ensures id in Indexed(i, kind) <==> id in Indexed(j, kind) {
      assert Key(kind, id) in i <==> Lookup(i, Key(kind, id)).Some?;
      assert Key(kind, id) in j <==> Lookup(j, Key(kind, id)).Some?;
    }
  }

  /** `ids` are the candidates above zero, in order. */
  ghost predicate InOrderAt(content: Content, start: Progress, kind: Kind, ids: seq<int>) {
    ids == Ascending(Above(Candidates(content, start.index, kind), 0))
  }

  /** The first `n` of `ids` are visited. */
  ghost predicate VisitedTo(content: Content, outcomes: Outcomes, start: Progress, kind: Kind, ids: seq<int>, n: nat,
                            now: Progress) {
    n <= |ids| && now == AfterVisits(content, outcomes, start, Keys(kind, ids[..n]))
  }

  /** What is still above `lastId`, in order. */
  ghost predicate RestIs(content: Content, now: Progress, kind: Kind, lastId: int, rest: seq<int>) {
    Ascending(Above(Candidates(content, now.index, kind), lastId)) == rest
  }

  /** The pages still to come, asked of the changed index, are the rest of the first
      answer: a run never disturbs what is above its last id. */
  lemma RestOfTheOrder(content: Content, outcomes: Outcomes, start: Progress, kind: Kind, ids: seq<int>, n: nat,
                       now: Progress)
    requires InOrderAt(content, start, kind, ids) && VisitedTo(content, outcomes, start, kind, ids, n, now) && n >= 1
    ensures RestIs(content, now, kind, ids[n - 1], ids[n..])
  {
    var positive, last := Above(Candidates(content, start.index, kind), 0), ids[n - 1];
    AscendingHolds(positive);
    forall id | id > last ensures Lookup(now.index, Key(kind, id)) == Lookup(start.index, Key(kind, id)) {
      KeysMembers(kind, ids[..n], Key(kind, id));
      IndexAfterVisits(content, outcomes, start, Keys(kind, ids[..n]), Key(kind, id));
    }
    SameCandidatesAbove(content, now.index, start.index, kind, last);
    AscendingTail(positive, n);
    assert last in ids;
    assert Above(positive, last) == Above(Candidates(content, start.index, kind), last);
  }

  lemma OneMoreKey(kind: Kind, ids: seq<int>, n: nat)
    requires n < |ids|
    ensures Keys(kind, ids[..n + 1]) == Keys(kind, ids[..n]) + [Key(kind, ids[n])]
  {
    assert ids[..n + 1][..n] == ids[..n];
  }

  lemma OneMoreVisit(content: Content, outcomes: Outcomes, p: Progress, kind: Kind, ids: seq<int>, n: nat)
    requires n < |ids|
    ensures AfterVisits(content, outcomes, p, Keys(kind, ids[..n + 1]))
         == Visited(content, outcomes, AfterVisits(content, outcomes, p, Keys(kind, ids[..n])), Key(kind, ids[n]))
  {
    OneMoreKey(kind, ids, n);
    LastAndInit(Keys(kind, ids[..n]), Key(kind, ids[n]));
  }

  lemma {:induction false} KeysConcat(kind: Kind, a: seq<int>, b: seq<int>)
    ensures Keys(kind, a + b) == Keys(kind, a) + Keys(kind, b)
  {
    if b == [] {
      assert a + b == a;
    } else {
      var before, last := b[..|b| - 1], b[|b| - 1];
      KeysConcat(kind, a, before);
      LastAndInit(a + before, last);
      assert a + b == a + before + [last];
    }
  }

  /** The page after the first `done` visits. */
  lemma PageDone(content: Content, outcomes: Outcomes, start: Progress, kind: Kind, ids: seq<int>, done: nat,
                 now: Progress, batch: seq<int>, next: Progress) returns (n: nat)
    requires VisitedTo(content, outcomes, start, kind, ids, done, now)
    requires batch != [] && batch == Limited(ids[done..])
    requires next == AfterVisits(content, outcomes, now, Keys(kind, batch))
    ensures done < n == done + |batch| && VisitedTo(content, outcomes, start, kind, ids, n, next)
    ensures ids[n - 1] == batch[|batch| - 1]
  {
    n := done + |batch|;
    assert ids[..n] == ids[..done] + batch;
    KeysConcat(kind, ids[..done], batch);
    AfterVisitsConcat(content, outcomes, start, Keys(kind, ids[..done]), Keys(kind, batch));
  }

  function NextIds(content: Content, now: Progress, kind: Kind, lastId: int): seq<int> {
    Limited(Ascending(Above(Candidates(content, now.index, kind), lastId)))
  }

  lemma StartPaging(content: Content, outcomes: Outcomes, start: Progress, kind: Kind) returns (ids: seq<int>)
    ensures InOrderAt(content, start, kind, ids)
    ensures VisitedTo(content, outcomes, start, kind, ids, 0, start) && RestIs(content, start, kind, 0, ids[0..])
  {
    ids := Ascending(Above(Candidates(content, start.index, kind), 0));
    assert ids[..0] == [];
  }

  lemma NextIdsOfRest(content: Content, now: Progress, kind: Kind, lastId: int, rest: seq<int>)
    requires RestIs(content, now, kind, lastId, rest)
    ensures NextIds(content, now, kind, lastId) == Limited(rest)
  {}

  lemma AllPaged(content: Content, outcomes: Outcomes, start: Progress, kind: Kind, ids: seq<int>, done: nat,
                 now: Progress)
    requires InOrderAt(content, start, kind, ids) && VisitedTo(content, outcomes, start, kind, ids, done, now)
    requires Limited(ids[done..]) == []
    ensures now == AfterVisits(content, outcomes, start,
                               Keys(kind, Ascending(Above(Candidates(content, start.index, kind), 0))))
  {
    assert ids[..done] == ids;
  }

  lemma KindsInOrder(k: nat)
    requires k < |KINDS|
    ensures KINDS[..k + 1] == KINDS[..k] + [KINDS[k]] && KINDS[k] !in KINDS[..k]
  {
  }

  lemma {:induction false} ScheduleHasOnlyKinds(content: Content, index: Index, kinds: seq<Kind>, k: Key)
    ensures k in Schedule(content, index, kinds)
        <==> k.kind in kinds && k.id in Above(Candidates(content, index, k.kind), 0)
  {
    if kinds != [] {
      var before, last := kinds[..|kinds| - 1], kinds[|kinds| - 1];
      ScheduleHasOnlyKinds(content, index, before, k);
      KeysMembers(last, Ascending(Above(Candidates(content, index, last), 0)), k);
      AscendingHolds(Above(Candidates(content, index, last), 0));
      assert kinds == before + [last];
    }
  }

  /** The candidates of a kind do not depend on the kinds done before it. */
  lemma LaterKindsWait(content: Content, outcomes: Outcomes, start: Progress, kinds: seq<Kind>, kind: Kind)
    requires kind !in kinds
    ensures Above(Candidates(content,
        AfterVisits(content, outcomes, start, Schedule(content, start.index, kinds)).index, kind), 0)
         == Above(Candidates(content, start.index, kind), 0)
  {
    var keys := Schedule(content, start.index, kinds);
    var after := AfterVisits(content, outcomes, start, keys);
    forall id | id > 0 ensures Lookup(after.index, Key(kind, id)) == Lookup(start.index, Key(kind, id)) {
      ScheduleHasOnlyKinds(content, start.index, kinds, Key(kind, id));
      IndexAfterVisits(content, outcomes, start, keys, Key(kind, id));
    }
    SameCandidatesAbove(content, after.index, start.index, kind, 0);
  }

  lemma OneMoreKind(content: Content, outcomes: Outcomes, start: Progress, kinds: seq<Kind>, kind: Kind)
    requires kind !in kinds
    ensures var before := AfterVisits(content, outcomes, start, Schedule(content, start.index, kinds));
      AfterVisits(content, outcomes, start, Schedule(content, start.index, kinds + [kind]))
      == AfterVisits(content, outcomes, before,
        Keys(kind, Ascending(Above(Candidates(content, before.index, kind), 0))))
  {
    var keys := Keys(kind, Ascending(Above(Candidates(content, start.index, kind), 0)));
    LaterKindsWait(content, outcomes, start, kinds, kind);
    LastAndInit(kinds, kind);
    AfterVisitsConcat(content, outcomes, start, Schedule(content, start.index, kinds), keys);
  }

  class Run {
    const content: Content
    const outcomes: Outcomes
    var index: Index
    var report: Report

    ghost function View(): Progress
      reads this
    {
      Progress(index, report)
    }

    constructor (content: Content, outcomes: Outcomes, index: Index)
      ensures this.content == content && this.outcomes == outcomes
      ensures View() == Progress(index, Report(0, 0, 0, 0, 0))
    {
      this.content, this.outcomes, this.index := content, outcomes, index;
      report := Report(0, 0, 0, 0, 0);
    }

    /** `_sync_source`. */
    method SyncSource(key: Key) returns (chunkCount: nat, removed: bool)
      modifies this`index
      ensures var loaded := Load(content, key);
        if loaded.None? || |loaded.value.chunks| == 0
        then index == old(index) - {key} && chunkCount == 0 && (removed <==> key in old(index))
        else index == old(index)[key := loaded.value] && chunkCount == |loaded.value.chunks| && !removed
    {
      var loaded := Load(content, key);
      if loaded.None? || loaded.value.chunks == [] {
        removed := key in index;
        index := index - {key};
        return 0, removed;
      }
      index := index[key := loaded.value];
      return |loaded.value.chunks|, false;
    }

    /** One pass of the inner loop. */
    method Visit(key: Key)
      modifies this
      ensures View() == Visited(content, outcomes, old(View()), key)
    {
      if outcomes.syncFails(key) {
        report := report.(failures := report.failures + 1);
        return;
      }
      var chunkCount, removed := SyncSource(key);
      if removed { report := report.(sourcesRemoved := report.sourcesRemoved + 1); }
      if chunkCount == 0 { return; }
      report := report.(sourcesChunked := report.sourcesChunked + 1, chunks := report.chunks + chunkCount);
      if !outcomes.modelUsable { return; }
      var embedded := outcomes.embedded(key);
      if embedded.None? {
        report := report.(failures := report.failures + 1);
      } else {
        report := report.(chunksEmbedded := report.chunksEmbedded + embedded.value);
      }
    }

    /** The inner loop, over one page. */
    method VisitPage(kind: Kind, batch: seq<int>)
      modifies this
      ensures View() == AfterVisits(content, outcomes, old(View()), Keys(kind, batch))
    {
      assert batch[..|batch|] == batch;
      for i := 0 to |batch|
        invariant View() == AfterVisits(content, outcomes, old(View()), Keys(kind, batch[..i]))
      {
        OneMoreVisit(content, outcomes, old(View()), kind, batch, i);
        Visit(Key(kind, batch[i]));
      }
    }

    /** The next ids to visit. */
    method Page(kind: Kind, lastId: int) returns (batch: seq<int>)
      ensures batch == NextIds(content, View(), kind, lastId)
    {
      batch := Limited(Ascending(Above(Candidates(content, index, kind), lastId)));
    }

    /** One kind, a page at a time; the pages are asked of the index the run is changing. */
    method BackfillKind(kind: Kind)
      modifies this
      ensures View() == AfterVisits(content, outcomes, old(View()),
                                    Keys(kind, Ascending(Above(Candidates(content, old(index), kind), 0))))
    {
      ghost var start := View();
      ghost var ids := StartPaging(content, outcomes, start, kind);
      var lastId := 0;
      ghost var done := 0;
      while true
        invariant InOrderAt(content, start, kind, ids)
        invariant VisitedTo(content, outcomes, start, kind, ids, done, View())
        invariant RestIs(content, View(), kind, lastId, ids[done..])
        decreases |ids| - done
      {
        ghost var before := View();
        var batch := Page(kind, lastId);
        NextIdsOfRest(content, before, kind, lastId, ids[done..]);
        if batch == [] {
          AllPaged(content, outcomes, start, kind, ids, done, before);
          break;
        }
        VisitPage(kind, batch);
        done := PageDone(content, outcomes, start, kind, ids, done, before, batch, View());
        RestOfTheOrder(content, outcomes, start, kind, ids, done, View());
        lastId := batch[|batch| - 1];
      }
    }

    /** The loop over the kinds in `run_backfill`. */
    method BackfillAll()
      modifies this
      ensures View() == AfterVisits(content, outcomes, old(View()), Schedule(content, old(index), KINDS))
    {
      ghost var start := View();
      for k := 0 to |KINDS|
        invariant View() == AfterVisits(content, outcomes, start, Schedule(content, start.index, KINDS[..k]))
      {
        KindsInOrder(k);
        OneMoreKind(content, outcomes, start, KINDS[..k], KINDS[k]);
        BackfillKind(KINDS[k]);
      }
      assert KINDS[..|KINDS|] == KINDS;
    }
  }

  // -------------------------------------------------------------------------
  // What a whole run does
  // -------------------------------------------------------------------------

  /** What has chunks is a candidate, so that the run finds it. */
  lemma WantedIsCandidate(content: Content, index: Index, key: Key)
    ensures Wanted(content, key).Some? || key in index ==> key.id in Candidates(content, index, key.kind)
  {
  }

  lemma EveryKind(kind: Kind)
    ensures kind in KINDS
  {
    assert KINDS[0] == Issue && KINDS[1] == WikiPage && KINDS[2] == Journal && KINDS[3] == Attachment;
  }

  /** `a` comes before `b`: an earlier kind, or a smaller id of the same kind. */
  predicate Before(a: Key, b: Key) {
    (a.kind == b.kind && a.id < b.id) || Rank(a.kind) < Rank(b.kind)
  }

  function Rank(kind: Kind): nat {
    match kind case Issue => 0 case WikiPage => 1 case Journal => 2 case Attachment => 3
  }

  ghost predicate InOrder(keys: seq<Key>) { forall i, j :: 0 <= i < j < |keys| ==> Before(keys[i], keys[j]) }

  lemma {:induction false} KeysAt(kind: Kind, ids: seq<int>)
    ensures |Keys(kind, ids)| == |ids|
    ensures forall i :: 0 <= i < |ids| ==> Keys(kind, ids)[i] == Key(kind, ids[i])
  {
    if ids != [] { KeysAt(kind, ids[..|ids| - 1]); }
  }

  lemma OrderedKeys(kind: Kind, ids: set<int>)
    ensures InOrder(Keys(kind, Ascending(ids)))
  {
    KeysAt(kind, Ascending(ids));
    AscendingHolds(ids);
  }

  lemma OrderedConcat(a: seq<Key>, b: seq<Key>)
    requires InOrder(a) && InOrder(b) && forall x, y :: x in a && y in b ==> Before(x, y)
    ensures InOrder(a + b)
  {
    forall i, j | 0 <= i < j < |a + b| ensures Before((a + b)[i], (a + b)[j]) {
      if i < |a| && j >= |a| { assert a[i] in a && b[j - |a|] in b; }
    }
  }

  lemma {:induction false} ScheduleInOrder(content: Content, index: Index, n: nat)
    requires n <= |KINDS|
    ensures InOrder(Schedule(content, index, KINDS[..n]))
  {
    if n > 0 {
      ScheduleInOrder(content, index, n - 1);
      var kind, before := KINDS[n - 1], KINDS[..n - 1];
      LastAndInit(before, kind);
      assert KINDS[..n] == before + [kind];
      var a, b := Schedule(content, index, before), Keys(kind, Ascending(Above(Candidates(content, index, kind), 0)));
      OrderedKeys(kind, Above(Candidates(content, index, kind), 0));
      forall x, y | x in a && y in b ensures Before(x, y) {
        ScheduleHasOnlyKinds(content, index, before, x);
        KeysMembers(kind, Ascending(Above(Candidates(content, index, kind), 0)), y);
      }
      OrderedConcat(a, b);
    }
  }

  /** Every candidate above zero is visited exactly once, kind by kind in ascending order,
      and nothing else is. */
  lemma EachVisitedOnce(content: Content, index: Index, k: Key)
    ensures k in Schedule(content, index, KINDS) <==> k.id > 0 && k.id in Candidates(content, index, k.kind)
    ensures InOrder(Schedule(content, index, KINDS))
  {
    ScheduleHasOnlyKinds(content, index, KINDS, k);
    EveryKind(k.kind);
    ScheduleInOrder(content, index, |KINDS|);
    assert KINDS[..|KINDS|] == KINDS;
  }

  function AfterRun(content: Content, outcomes: Outcomes, p: Progress): Progress {
    AfterVisits(content, outcomes, p, Schedule(content, p.index, KINDS))
  }

  /** After a run, what was visited holds what is wanted and all else what it held. */
  lemma IndexHoldsWanted(content: Content, outcomes: Outcomes, p: Progress, k: Key)
    ensures Lookup(AfterRun(content, outcomes, p).index, k)
         == if k.id > 0 && !outcomes.syncFails(k) then Wanted(content, k) else Lookup(p.index, k)
  {
    EachVisitedOnce(content, p.index, k);
    IndexAfterVisits(content, outcomes, p, Schedule(content, p.index, KINDS), k);
    WantedIsCandidate(content, p.index, k);
  }

  /** After a run there is a row for a source above zero that did not fail exactly when
      loading it gives chunks, however many, and it holds what loading gives. A failed
      source is as it was, and so is one at or below zero, which the paging never reaches. */
  lemma IndexAgrees(content: Content, outcomes: Outcomes, p: Progress, k: Key)
    ensures var after, loaded := AfterRun(content, outcomes, p).index, Load(content, k);
      if k.id > 0 && !outcomes.syncFails(k)
      then (k in after <==> loaded.Some? && |loaded.value.chunks| > 0) && (k in after ==> after[k] == loaded.value)
      else (k in after <==> k in p.index) && (k in after ==> after[k] == p.index[k])
  {
    IndexHoldsWanted(content, outcomes, p, k);
    var after := AfterRun(content, outcomes, p).index;
    assert Lookup(after, k).Some? <==> k in after;
    assert Lookup(p.index, k).Some? <==> k in p.index;
  }

  /** Said of the tables: an issue, a wiki page or an attachment has a row when it is there
      and reading it gives chunks; a comment also has to say something. */
  lemma RowsAreContent(content: Content, outcomes: Outcomes, p: Progress, k: Key)
    requires k.id > 0 && !outcomes.syncFails(k)
    ensures k in AfterRun(content, outcomes, p).index
       <==> && content.read(k).Some? && content.read(k).value.chunks != []
            && (k.kind == Journal ==>
                  k.id in content.notes && content.notes[k.id].Some? && content.notes[k.id] != Some(""))
            && (k.kind != Journal ==> k.id in content.items(k.kind))
    ensures k in AfterRun(content, outcomes, p).index ==>
              AfterRun(content, outcomes, p).index[k] == content.read(k).value
  {
    IndexAgrees(content, outcomes, p, k);
  }

  // -------------------------------------------------------------------------
  // What the report says
  // -------------------------------------------------------------------------

  function Those(keys: seq<Key>, p: Key -> bool): set<Key> { set k | k in keys && p(k) }

  lemma OneMoreOfThose(keys: seq<Key>, k: Key, p: Key -> bool)
    requires k !in keys
    ensures |Those(keys + [k], p)| == |Those(keys, p)| + if p(k) then 1 else 0
  {
    assert Those(keys + [k], p) == Those(keys, p) + if p(k) then {k} else {};
  }

  /** The visited keys that lose their row. */
  function Stale(content: Content, outcomes: Outcomes, index: Index, keys: seq<Key>): set<Key> {
    Those(keys, k => !outcomes.syncFails(k) && k in index && Wanted(content, k).None?)
  }

  /** The visited keys that get chunks. */
  function Filled(content: Content, outcomes: Outcomes, keys: seq<Key>): set<Key> {
    Those(keys, k => !outcomes.syncFails(k) && Wanted(content, k).Some?)
  }

  /** The visited keys that could not be indexed, or not embedded. */
  function Failed(content: Content, outcomes: Outcomes, keys: seq<Key>): set<Key> {
    Those(keys, k => outcomes.syncFails(k)
                     || (Wanted(content, k).Some? && outcomes.modelUsable && outcomes.embedded(k).None?))
  }

  /** The counters count sources: those removed, those chunked, those that failed. */
  lemma {:induction false} ReportCounts(content: Content, outcomes: Outcomes, p: Progress, keys: seq<Key>)
    requires InOrder(keys)
    ensures var before, after := p.report, AfterVisits(content, outcomes, p, keys).report;
      && after.sourcesRemoved == before.sourcesRemoved + |Stale(content, outcomes, p.index, keys)|
      && after.sourcesChunked == before.sourcesChunked + |Filled(content, outcomes, keys)|
      && after.failures == before.failures + |Failed(content, outcomes, keys)|
  {
    if keys == [] {
      assert Stale(content, outcomes, p.index, keys) == {} && Filled(content, outcomes, keys) == {}
          && Failed(content, outcomes, keys) == {};
    } else {
      var before, last := keys[..|keys| - 1], keys[|keys| - 1];
      assert keys == before + [last];
      ReportCounts(content, outcomes, p, before);
      assert last !in before by { assert forall i :: 0 <= i < |before| ==> Before(before[i], last); }
      OneMoreOfThose(before, last, k => !outcomes.syncFails(k) && k in p.index && Wanted(content, k).None?);
      OneMoreOfThose(before, last, k => !outcomes.syncFails(k) && Wanted(content, k).Some?);
      OneMoreOfThose(before, last, k => outcomes.syncFails(k)
                     || (Wanted(content, k).Some? && outcomes.modelUsable && outcomes.embedded(k).None?));
      IndexAfterVisits(content, outcomes, p, before, last);
      assert last in AfterVisits(content, outcomes, p, before).index <==> last in p.index;
    }
  }

  /** The chunks that stand in the index for the keys visited without a failure. */
  function ChunksOf(index: Index, outcomes: Outcomes, keys: seq<Key>): nat {
    if keys == [] then 0
    else ChunksOf(index, outcomes, keys[..|keys| - 1]) + ChunksAt(index, outcomes, keys[|keys| - 1])
  }

  function ChunksAt(index: Index, outcomes: Outcomes, k: Key): nat {
    if k in index && !outcomes.syncFails(k) then |index[k].chunks| else 0
  }

  lemma {:induction false} ChunksOfSame(i: Index, j: Index, outcomes: Outcomes, keys: seq<Key>)
    requires forall k :: k in keys ==> Lookup(i, k) == Lookup(j, k)
    ensures ChunksOf(i, outcomes, keys) == ChunksOf(j, outcomes, keys)
  {
    if keys != [] {
      ChunksOfSame(i, j, outcomes, keys[..|keys| - 1]);
      assert Lookup(i, keys[|keys| - 1]) == Lookup(j, keys[|keys| - 1]);
    }
  }

  /** The chunks counted are those that stand in the index afterwards. */
  lemma {:induction false} ChunksAreConserved(content: Content, outcomes: Outcomes, p: Progress, keys: seq<Key>)
    requires InOrder(keys)
    ensures var after := AfterVisits(content, outcomes, p, keys);
      after.report.chunks == p.report.chunks + ChunksOf(after.index, outcomes, keys)
  {
    if keys != [] {
      var before, last := keys[..|keys| - 1], keys[|keys| - 1];
      var mid := AfterVisits(content, outcomes, p, before);
      ChunksAreConserved(content, outcomes, p, before);
      assert last !in before by { assert forall i :: 0 <= i < |before| ==> Before(before[i], last); }
      var after := Visited(content, outcomes, mid, last);
      forall k | k in before ensures Lookup(after.index, k) == Lookup(mid.index, k) {
        VisitTouchesOnlyIts(content, outcomes, mid, last, k);
      }
      ChunksOfSame(after.index, mid.index, outcomes, before);
      VisitTouchesOnlyIts(content, outcomes, mid, last, last);
    }
  }

  /** The chunks embedded, over the visited keys that got chunks. */
  function EmbeddedOf(content: Content, outcomes: Outcomes, keys: seq<Key>): nat {
    if keys == [] then 0
    else
      var k := keys[|keys| - 1];
      EmbeddedOf(content, outcomes, keys[..|keys| - 1])
      + if k in Filled(content, outcomes, [k]) then outcomes.embedded(k).GetOr(0) else 0
  }

  /** Every chunk embedded is counted, and none is without a usable model. */
  lemma {:induction false} EmbeddedAreCounted(content: Content, outcomes: Outcomes, p: Progress, keys: seq<Key>)
    ensures AfterVisits(content, outcomes, p, keys).report.chunksEmbedded
         == p.report.chunksEmbedded + if outcomes.modelUsable then EmbeddedOf(content, outcomes, keys) else 0
  {
    if keys != [] { EmbeddedAreCounted(content, outcomes, p, keys[..|keys| - 1]); }
  }

  /** What a run reports, from a report that starts at zero. */
  lemma RunReportCounts(content: Content, outcomes: Outcomes, index: Index)
    ensures var keys := Schedule(content, index, KINDS);
      var report := AfterRun(content, outcomes, Progress(index, Report(0, 0, 0, 0, 0))).report;
      && report.sourcesRemoved == |Stale(content, outcomes, index, keys)|
      && report.sourcesChunked == |Filled(content, outcomes, keys)|
      && report.failures == |Failed(content, outcomes, keys)|
      && report.chunks == ChunksOf(AfterRun(content, outcomes, Progress(index, Report(0, 0, 0, 0, 0))).index,
        outcomes, keys)
      && report.chunksEmbedded == (if outcomes.modelUsable then EmbeddedOf(content, outcomes, keys) else 0)
      && report.ExitCode() == if forall k :: k in keys ==> k !in Failed(content, outcomes, keys) then 0 else 1
  {
    var keys := Schedule(content, index, KINDS);
    EachVisitedOnce(content, index, Key(Issue, 0));
    ReportCounts(content, outcomes, Progress(index, Report(0, 0, 0, 0, 0)), keys);
    ChunksAreConserved(content, outcomes, Progress(index, Report(0, 0, 0, 0, 0)), keys);
    EmbeddedAreCounted(content, outcomes, Progress(index, Report(0, 0, 0, 0, 0)), keys);
    var failed := Failed(content, outcomes, keys);
    if forall k :: k in keys ==> k !in failed { assert failed == {}; }
  }

  /** A second run, after one in which every source could be indexed, changes nothing: it
      removes no source and leaves the index as it is. */
  lemma SecondRunChangesNothing(content: Content, outcomes: Outcomes, later: Outcomes, p: Progress)
    requires forall k: Key :: !outcomes.syncFails(k)
    ensures var first := AfterRun(content, outcomes, p);
      && AfterRun(content, later, first).index == first.index
      && AfterRun(content, later, first).report.sourcesRemoved == first.report.sourcesRemoved
  {
    var first := AfterRun(content, outcomes, p);
    var second := AfterRun(content, later, first);
    var keys := Schedule(content, first.index, KINDS);
    forall k ensures Lookup(second.index, k) == Lookup(first.index, k) {
      IndexHoldsWanted(content, outcomes, p, k);
      IndexHoldsWanted(content, later, first, k);
    }
    assert forall k :: k in second.index <==> k in first.index by {
      forall k ensures k in second.index <==> k in first.index {
        assert Lookup(second.index, k) == Lookup(first.index, k);
      }
    }
    forall k | k in first.index ensures second.index[k] == first.index[k] {
      assert Lookup(second.index, k) == Lookup(first.index, k);
    }
    assert second.index == first.index;
    EachVisitedOnce(content, first.index, Key(Issue, 0));
    ReportCounts(content, later, first, keys);
    forall k | k in keys ensures k !in Stale(content, later, first.index, keys) {
      EachVisitedOnce(content, first.index, k);
      IndexHoldsWanted(content, outcomes, p, k);
    }
    assert Stale(content, later, first.index, keys) == {};
  }
}
