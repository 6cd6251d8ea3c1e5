/** Which issues a pull request references, and which event replaces the stored
    request (specivo/hooks/pull_requests.py). */
module PullRequests {
  import opened Wrappers
  import Ascii
  import opened Refs
  import opened RefsSpec
  import opened RefsMatches
  import opened OrderedDicts
  import opened Sequences

  // -------------------------------------------------------------------------
  // Links
  // -------------------------------------------------------------------------

  const MAX_REFS := 20   // REPOSITORY_MAX_REFS_PER_COMMIT

  datatype Source = Title | Body | Branch

  datatype Link = Link(key: string, number: nat, source: Source, closing: bool) {
    function DisplayKey(): string { DisplayKeyOf(key, number) }
  }

  function LinkOf(source: Source, r: Ref): Link { Link(r.key, r.number, source, r.keyword == Fixing) }

  function LinksOf(source: Source, refs: seq<Ref>): (links: seq<Link>)
    ensures |links| == |refs|
  {
    seq(|refs|, i requires 0 <= i < |refs| => LinkOf(source, refs[i]))
  }

  /** The link that stays when `current` is followed by `l`: the first source, closing
      when either closes. */
  function Joined(current: Link, l: Link): Link {
    if l.closing && !current.closing then Link(l.key, l.number, current.source, true) else current
  }

  function MergeLink(acc: seq<Link>, l: Link): seq<Link> {
    if acc == [] then [l]
    else if acc[0].DisplayKey() == l.DisplayKey() then [Joined(acc[0], l)] + acc[1..]
    else [acc[0]] + MergeLink(acc[1..], l)
  }

  function MergedLinks(links: seq<Link>): seq<Link> {
    if links == [] then [] else MergeLink(MergedLinks(links[..|links| - 1]), links[|links| - 1])
  }

  /** The links of several sources, one source after the other. */
  function LinksFrom(sources: seq<(Source, seq<Ref>)>): seq<Link> {
    if sources == [] then []
    else
      var last := sources[|sources| - 1];
      LinksFrom(sources[..|sources| - 1]) + LinksOf(last.0, last.1)
  }

  function Sources(title: seq<Ref>, body: seq<Ref>, branch: seq<Ref>): seq<(Source, seq<Ref>)> {
    [(Title, title), (Body, body), (Branch, branch)]
  }

  /** Everything named by the title, then the body, then the branch. */
  function AllLinks(title: string, body: string, branch: Option<string>, known: set<string>): seq<Link> {
    LinksFrom(Sources(Extract(title, known), Extract(body, known), ExtractBranch(branch.GetOr(""), known)))
  }

  function Limited(links: seq<Link>): seq<Link> {
    if |links| <= MAX_REFS then links else links[..MAX_REFS]
  }

  ghost predicate DistinctLinks(acc: seq<Link>) {
    forall i, j :: 0 <= i < j < |acc| ==> acc[i].DisplayKey() != acc[j].DisplayKey()
  }

  lemma {:induction false} MergeLinkAt(acc: seq<Link>, l: Link, i: nat)
    requires DistinctLinks(acc) && i <= |acc|
    requires i < |acc| ==> acc[i].DisplayKey() == l.DisplayKey()
    requires i == |acc| ==> forall j :: 0 <= j < |acc| ==> acc[j].DisplayKey() != l.DisplayKey()
    ensures MergeLink(acc, l) == if i < |acc| then acc[i := Joined(acc[i], l)] else acc + [l]
    ensures DistinctLinks(MergeLink(acc, l))
  {
    if acc != [] && i > 0 {
      MergeLinkAt(acc[1..], l, i - 1);
    }
  }

  function LinkKeys(links: seq<Link>): (keys: seq<string>)
    ensures |keys| == |links|
  {
    seq(|links|, i requires 0 <= i < |links| => links[i].DisplayKey())
  }

  /** Merging joins the link at place `i`, or adds a new one at the end. */
  lemma MergeLinkKeys(acc: seq<Link>, last: Link, i: nat)
    requires DistinctLinks(acc) && i <= |acc|
    requires if i < |acc| then LinkKeys(acc)[i] == last.DisplayKey() else last.DisplayKey() !in LinkKeys(acc)
    ensures MergeLink(acc, last) == if i < |acc| then acc[i := Joined(acc[i], last)] else acc + [last]
    ensures LinkKeys(MergeLink(acc, last)) == if i < |acc| then LinkKeys(acc) else LinkKeys(acc) + [last.DisplayKey()]
    ensures DistinctLinks(MergeLink(acc, last))
  {
    forall j | 0 <= j < |acc| && i == |acc| ensures acc[j].DisplayKey() != last.DisplayKey() {
      assert LinkKeys(acc)[j] == acc[j].DisplayKey();
    }
    MergeLinkAt(acc, last, i);
  }

  ghost predicate HoldsLinks(d: Dict<Link>, acc: seq<Link>) {
    Holds(d, LinkKeys(acc), acc) && DistinctLinks(acc)
  }

  /** One link recorded. */
  lemma RecordedMerges(d: Dict<Link>, done: seq<Link>, l: Link)
    requires HoldsLinks(d, MergedLinks(done))
    ensures HoldsLinks(Recorded(d, l), MergedLinks(done + [l]))
  {
    MergedLinksAppend(done, l);
    RecordedHolds(d, MergedLinks(done), l);
  }

  /** The update of the loop's body. */
  function Recorded(d: Dict<Link>, l: Link): Dict<Link> {
    var current := d.Get(l.DisplayKey());
    if current.None? then d.Set(l.DisplayKey(), l)
    else if l.closing && !current.value.closing
      then d.Set(l.DisplayKey(), Link(l.key, l.number, current.value.source, true))
    else d
  }

  lemma RecordedHolds(d: Dict<Link>, acc: seq<Link>, l: Link)
    requires HoldsLinks(d, acc)
    ensures HoldsLinks(Recorded(d, l), MergeLink(acc, l))
  {
    var key, keys := l.DisplayKey(), LinkKeys(acc);
    var i := KeyIsThere(d, keys, acc, key);
    MergeLinkKeys(acc, l, i);
    if i == |acc| {
      SetNew(d, keys, acc, key, l);
    } else {
      SetKnown(d, keys, acc, i, Joined(acc[i], l));
      assert acc[i := acc[i]] == acc;
    }
  }

  /** The dict's first links, at most `REPOSITORY_MAX_REFS_PER_COMMIT`. */
  method FirstLinks(links: Dict<Link>, ghost acc: seq<Link>) returns (result: seq<Link>)
    requires HoldsLinks(links, acc)
    ensures result == Limited(acc)
  {
    result := [];
    for n := 0 to if |links.order| <= MAX_REFS then |links.order| else MAX_REFS
      invariant result == acc[..n]
    {
      result := result + [links.Get(links.order[n]).value];
    }
  }

  /** The inner loop: one source's references. */
  method AddSource(links: Dict<Link>, source: Source, refs: seq<Ref>, ghost done: seq<Link>) returns (added: Dict<Link>)
    requires HoldsLinks(links, MergedLinks(done))
    ensures HoldsLinks(added, MergedLinks(done + LinksOf(source, refs)))
  {
    added := links;
    ghost var all := LinksOf(source, refs);
    assert done + all[..0] == done;
    for n := 0 to |refs|
      invariant HoldsLinks(added, MergedLinks(done + all[..n]))
    {
      var ref: Ref := refs[n];
      var closing := ref.keyword == Fixing;
      ghost var l := all[n];
      Associative(done, all[..n], [l]);
      assert all[..n + 1] == all[..n] + [l];
      RecordedMerges(added, done + all[..n], l);
      var current := added.Get(ref.DisplayKey());
      if current.None? {
        added := added.Set(ref.DisplayKey(), Link(ref.key, ref.number, source, closing));
      } else if closing && !current.value.closing {
        added := added.Set(ref.DisplayKey(), Link(ref.key, ref.number, current.value.source, true));
      }
    }
    assert all[..|refs|] == all;
  }

  lemma LinksFromNext(sources: seq<(Source, seq<Ref>)>, s: nat)
    requires s < |sources|
    ensures LinksFrom(sources[..s + 1]) == LinksFrom(sources[..s]) + LinksOf(sources[s].0, sources[s].1)
  {
    assert sources[..s + 1][..s] == sources[..s];
  }

  lemma LinksFromAll(sources: seq<(Source, seq<Ref>)>)
    ensures LinksFrom(sources[..|sources|]) == LinksFrom(sources)
  {
    assert sources[..|sources|] == sources;
  }

  /** `pull_request_links`; the result is the dict's values, in its order. */
  method PullRequestLinks(title: string, body: string, branch: Option<string>, known: set<string>)
    returns (result: seq<Link>)
    ensures result == Limited(MergedLinks(AllLinks(title, body, branch, known)))
  {
    var inTitle := ExtractRefs(title, known);
    var inBody := ExtractRefs(body, known);
    var inBranch := ExtractBranchRefs(branch.GetOr(""), known);
    var sources := Sources(inTitle, inBody, inBranch);
    var links: Dict<Link> := Empty();
    for s := 0 to |sources|
      invariant HoldsLinks(links, MergedLinks(LinksFrom(sources[..s])))
    {
      LinksFromNext(sources, s);
      links := AddSource(links, sources[s].0, sources[s].1, LinksFrom(sources[..s]));
    }
    LinksFromAll(sources);
    result := FirstLinks(links, MergedLinks(LinksFrom(sources)));
  }

  lemma MergedLinksAppend(done: seq<Link>, l: Link)
    ensures MergedLinks(done + [l]) == MergeLink(MergedLinks(done), l)
  {
    assert (done + [l])[..|done|] == done;
  }

  // -------------------------------------------------------------------------
  // What the links are
  // -------------------------------------------------------------------------

  /** Some link to `k` closes. */
  ghost predicate AnyCloses(links: seq<Link>, k: string) {
    exists i :: 0 <= i < |links| && links[i].DisplayKey() == k && links[i].closing
  }

  ghost predicate MergedAs(links: seq<Link>, merged: seq<Link>) {
    && LinkKeys(merged) == DistinctKeys(LinkKeys(links))
    && forall l :: l in merged ==> LinkIs(links, l)
  }

  /** Closing when some link to the issue closes, and from the first source that names it. */
  ghost predicate LinkIs(links: seq<Link>, l: Link) {
    && (l.closing <==> AnyCloses(links, l.DisplayKey()))
    && l.DisplayKey() in LinkKeys(links)
    && l.source == links[FirstIndex(LinkKeys(links), l.DisplayKey())].source
  }

  lemma FirstIndexOfMember(keys: seq<string>, k: string)
    requires k in keys
    ensures FirstIndex(keys, k) < |keys|
  {
    var i :| 0 <= i < |keys| && keys[i] == k;
  }

  /** The first place of a key in a concatenation. */
  lemma {:induction false} FirstIndexConcat(a: seq<string>, b: seq<string>, k: string)
    ensures FirstIndex(a + b, k) == if k in a then FirstIndex(a, k) else |a| + FirstIndex(b, k)
  {
    if a == [] {
      assert a + b == b;
    } else {
      assert (a + b)[1..] == a[1..] + b;
      assert k in a <==> a[0] == k || k in a[1..];
      FirstIndexConcat(a[1..], b, k);
    }
  }

  lemma {:induction false} MergedLinksMeetSpec(links: seq<Link>)
    ensures MergedAs(links, MergedLinks(links)) && DistinctLinks(MergedLinks(links))
  {
    if links != [] {
      var before, last := links[..|links| - 1], links[|links| - 1];
      MergedLinksMeetSpec(before);
      assert links == before + [last];
      assert LinkKeys(links) == LinkKeys(before) + [last.DisplayKey()];
      assert LinkKeys(links)[..|links| - 1] == LinkKeys(before);
      var i := FirstIndex(LinkKeys(MergedLinks(before)), last.DisplayKey());
      MergeLinkKeys(MergedLinks(before), last, i);
      DistinctKeysInOrder(LinkKeys(before));
      forall l | l in MergedLinks(links) ensures LinkIs(before + [last], l) {
        MergeOneLink(before, MergedLinks(before), last, i, l);
      }
    }
  }

  lemma MergeOneLink(before: seq<Link>, acc: seq<Link>, last: Link, i: nat, l: Link)
    requires MergedAs(before, acc) && DistinctLinks(acc)
    requires i <= |acc| && (i < |acc| ==> acc[i].DisplayKey() == last.DisplayKey())
    requires i < |acc| <==> last.DisplayKey() in LinkKeys(acc)
    requires l in if i < |acc| then acc[i := Joined(acc[i], last)] else acc + [last]
    ensures LinkIs(before + [last], l)
  {
    var k, keys := l.DisplayKey(), LinkKeys(before);
    assert LinkKeys(before + [last]) == keys + [last.DisplayKey()];
    FirstIndexConcat(keys, [last.DisplayKey()], k);
    AnyClosesAppend(before, last, k);
    DistinctKeysInOrder(keys);
    if i == |acc| && l == last {
      assert k !in keys;
      NeverNamed(before, k);
    } else {
      var j :| 0 <= j < |acc| && (if j == i then l == Joined(acc[j], last) else l == acc[j]);
      assert acc[j] in acc && acc[j].DisplayKey() == k && LinkKeys(acc)[j] == k;
      assert k in keys;
      FirstIndexOfMember(keys, k);
    }
  }

  lemma AnyClosesAppend(links: seq<Link>, last: Link, k: string)
    ensures AnyCloses(links + [last], k) <==> AnyCloses(links, k) || (last.DisplayKey() == k && last.closing)
  {
    var all := links + [last];
    if AnyCloses(links, k) {
      var i :| 0 <= i < |links| && links[i].DisplayKey() == k && links[i].closing;
      assert all[i] == links[i];
    }
    assert all[|links|] == last;
  }

  lemma NeverNamed(links: seq<Link>, k: string)
    requires k !in LinkKeys(links)
    ensures !AnyCloses(links, k)
  {
    forall i | 0 <= i < |links| ensures links[i].DisplayKey() != k {
      assert LinkKeys(links)[i] == links[i].DisplayKey();
    }
  }

  ghost predicate Fixes(refs: seq<Ref>, k: string) {
    exists r :: r in refs && r.DisplayKey() == k && r.keyword == Fixing
  }

  lemma LinksOfSource(source: Source, refs: seq<Ref>)
    ensures LinkKeys(LinksOf(source, refs)) == KeysOf(refs)
    ensures forall l :: l in LinksOf(source, refs) ==> l.source == source
    ensures forall k :: AnyCloses(LinksOf(source, refs), k) <==> Fixes(refs, k)
  {
    forall k ensures AnyCloses(LinksOf(source, refs), k) <==> Fixes(refs, k) {
      if r :| r in refs && r.DisplayKey() == k && r.keyword == Fixing {
        var i :| 0 <= i < |refs| && refs[i] == r;
        assert LinksOf(source, refs)[i] == LinkOf(source, r);
      }
      if i :| 0 <= i < |refs| && LinksOf(source, refs)[i].DisplayKey() == k && LinksOf(source, refs)[i].closing {
        assert refs[i] in refs && refs[i].DisplayKey() == k;
      }
    }
  }

  lemma Concatenated(a: seq<Link>, b: seq<Link>)
    ensures LinkKeys(a + b) == LinkKeys(a) + LinkKeys(b)
    ensures forall k :: AnyCloses(a + b, k) <==> AnyCloses(a, k) || AnyCloses(b, k)
  {
    forall k ensures AnyCloses(a + b, k) <==> AnyCloses(a, k) || AnyCloses(b, k) {
      if i :| 0 <= i < |a| && a[i].DisplayKey() == k && a[i].closing { assert (a + b)[i] == a[i]; }
      if i :| 0 <= i < |b| && b[i].DisplayKey() == k && b[i].closing { assert (a + b)[|a| + i] == b[i]; }
      if AnyCloses(a + b, k) {
        var i :| 0 <= i < |a + b| && (a + b)[i].DisplayKey() == k && (a + b)[i].closing;
        if i >= |a| { assert (a + b)[i] == b[i - |a|]; }
      }
    }
  }

  /** What one more source adds. */
  lemma OneMoreSource(before: seq<(Source, seq<Ref>)>, source: Source, refs: seq<Ref>)
    ensures var links := LinksFrom(before + [(source, refs)]);
      && LinkKeys(links) == LinkKeys(LinksFrom(before)) + KeysOf(refs)
      && (forall k :: AnyCloses(links, k) <==> AnyCloses(LinksFrom(before), k) || Fixes(refs, k))
      && (forall k :: k in LinkKeys(LinksFrom(before)) || k in KeysOf(refs) ==>
            && FirstIndex(LinkKeys(links), k) < |links|
            && links[FirstIndex(LinkKeys(links), k)].source
               == if k in LinkKeys(LinksFrom(before))
                  then LinksFrom(before)[FirstIndex(LinkKeys(LinksFrom(before)), k)].source else source)
  {
    var sources := before + [(source, refs)];
    assert sources[..|sources| - 1] == before;
    var a, b := LinksFrom(before), LinksOf(source, refs);
    assert LinksFrom(sources) == a + b;
    LinksOfSource(source, refs);
    Concatenated(a, b);
    forall k | k in LinkKeys(a) || k in LinkKeys(b)
      ensures FirstIndex(LinkKeys(a + b), k) < |a + b|
      ensures (a + b)[FirstIndex(LinkKeys(a + b), k)].source
           == if k in LinkKeys(a) then a[FirstIndex(LinkKeys(a), k)].source else source
    {
      FirstIndexConcat(LinkKeys(a), LinkKeys(b), k);
      if k in LinkKeys(a) {
        FirstIndexOfMember(LinkKeys(a), k);
      } else {
        FirstIndexOfMember(LinkKeys(b), k);
        assert b[FirstIndex(LinkKeys(b), k)] in b;
      }
    }
  }

  /** The first source that names an issue is its source, and a title or body that
      fixes it is what closes it. */
  lemma SourcesMeetSpec(title: seq<Ref>, body: seq<Ref>, branch: seq<Ref>)
    ensures var all := LinksFrom(Sources(title, body, branch));
      && LinkKeys(all) == KeysOf(title) + KeysOf(body) + KeysOf(branch)
      && (forall k :: AnyCloses(all, k) <==> Fixes(title, k) || Fixes(body, k) || Fixes(branch, k))
      && (forall k :: k in LinkKeys(all) ==>
            && FirstIndex(LinkKeys(all), k) < |all|
            && all[FirstIndex(LinkKeys(all), k)].source
               == if k in KeysOf(title) then Title else if k in KeysOf(body) then Body else Branch)
  {
    OneMoreSource([], Title, title);
    OneMoreSource([(Title, title)], Body, body);
    OneMoreSource([(Title, title), (Body, body)], Branch, branch);
    assert [] + [(Title, title)] == [(Title, title)];
    assert [(Title, title)] + [(Body, body)] == [(Title, title), (Body, body)];
    assert [(Title, title), (Body, body)] + [(Branch, branch)] == Sources(title, body, branch);
  }

  /** The links are the first 20 distinct issues of title, body and branch, each with
      the first of those that names it, closing exactly when the title or the body
      names it with a fixing keyword. */
  lemma LinksMeetSpec(title: string, body: string, branch: Option<string>, known: set<string>)
    ensures LinksAre(Limited(MergedLinks(AllLinks(title, body, branch, known))),
                     Extract(title, known), Extract(body, known), ExtractBranch(branch.GetOr(""), known))
  {
    var t, b, br := Extract(title, known), Extract(body, known), ExtractBranch(branch.GetOr(""), known);
    BranchNeverFixes(branch.GetOr(""), known);
    assert forall k :: !Fixes(br, k);
    LimitedMeetsSpec(t, b, br);
  }

  ghost predicate LinksAre(links: seq<Link>, title: seq<Ref>, body: seq<Ref>, branch: seq<Ref>) {
    var keys := DistinctKeys(KeysOf(title) + KeysOf(body) + KeysOf(branch));
    && LinkKeys(links) == (if |keys| <= 20 then keys else keys[..20])
    && forall l :: l in links ==>
         && l.source == (if l.DisplayKey() in KeysOf(title) then Title
                         else if l.DisplayKey() in KeysOf(body) then Body else Branch)
         && (l.closing <==> Fixes(title, l.DisplayKey()) || Fixes(body, l.DisplayKey()))
  }

  lemma LimitedMeetsSpec(title: seq<Ref>, body: seq<Ref>, branch: seq<Ref>)
    requires forall k :: !Fixes(branch, k)
    ensures LinksAre(Limited(MergedLinks(LinksFrom(Sources(title, body, branch)))), title, body, branch)
  {
    var all := LinksFrom(Sources(title, body, branch));
    SourcesMeetSpec(title, body, branch);
    MergedLinksMeetSpec(all);
    assert forall l :: l in Limited(MergedLinks(all)) ==> l in MergedLinks(all);
  }

  // -------------------------------------------------------------------------
  // Event ordering
  // -------------------------------------------------------------------------

  const MERGED := "merged"

  /** What an event says, and what is stored of it; times are the forge's. */
  datatype Event = Event(updatedAt: Option<int>, state: string)

  /** `is_newer`; `stored` is None when the request is not stored. */
  function IsNewer(stored: Option<Event>, event: Event): bool {
    if stored.None? then true
    else if stored.value.state == MERGED && event.state != MERGED then false
    else if stored.value.updatedAt.None? then true
    else if event.updatedAt.None? then false
    else event.updatedAt.value >= stored.value.updatedAt.value
  }

  function Apply(stored: Option<Event>, event: Event): Option<Event> {
    if IsNewer(stored, event) then Some(event) else stored
  }

  /** Deliveries applied in order, from nothing stored. */
  function Run(events: seq<Event>): Option<Event> {
    if events == [] then None else Apply(Run(events[..|events| - 1]), events[|events| - 1])
  }

  ghost predicate AtMost(a: Option<int>, b: Option<int>) {
    a.None? || (b.Some? && a.value <= b.value)
  }

  /** A merge is never left, and the stored time never goes back (no time counting as
      least), whatever is delivered in whatever order. */
  lemma {:induction false} NeverGoesBack(events: seq<Event>, n: nat)
    requires 0 < n <= |events|
    ensures Run(events[..n]).Some? && Run(events).Some?
    ensures Run(events[..n]).value.state == MERGED ==> Run(events).value.state == MERGED
    ensures AtMost(Run(events[..n]).value.updatedAt, Run(events).value.updatedAt)
    decreases |events|
  {
    if n == |events| {
      assert events[..n] == events;
      if n > 1 { NeverGoesBack(events[..n - 1], n - 1); }
    } else {
      var before := events[..|events| - 1];
      assert before[..n] == events[..n];
      NeverGoesBack(before, n);
    }
  }

  ghost predicate Timed(events: seq<Event>) { forall e :: e in events ==> e.updatedAt.Some? }

  ghost predicate AnyMerged(events: seq<Event>) { exists e :: e in events && e.state == MERGED }

  /** `t` is the greatest update time. */
  ghost predicate Greatest(events: seq<Event>, t: int) {
    && Timed(events)
    && (exists e :: e in events && e.updatedAt.value == t)
    && (forall e :: e in events ==> e.updatedAt.value <= t)
  }

  /** When any event is merged, a merged one has the greatest update time. */
  ghost predicate MergeIsLatest(events: seq<Event>)
    requires Timed(events)
  {
    AnyMerged(events) ==>
      exists m :: m in events && m.state == MERGED && forall e :: e in events ==> e.updatedAt.value <= m.updatedAt.value
  }

  lemma {:induction false} RunIsSomeEvent(events: seq<Event>)
    requires events != []
    ensures Run(events).Some? && Run(events).value in events
  {
    if |events| > 1 { RunIsSomeEvent(events[..|events| - 1]); }
  }

  /** Among events up to `t`, a merged event at `t` stays once delivered. */
  lemma {:induction false} MergeAtTopStays(events: seq<Event>, t: int)
    requires Timed(events) && (forall e :: e in events ==> e.updatedAt.value <= t)
    requires exists m :: m in events && m.state == MERGED && m.updatedAt.value == t
    ensures Run(events) == Some(Event(Some(t), MERGED))
  {
    var before, last := events[..|events| - 1], events[|events| - 1];
    if last.state == MERGED && last.updatedAt.value == t {
      if before != [] { RunIsSomeEvent(before); }
    } else {
      var m :| m in events && m.state == MERGED && m.updatedAt.value == t;
      assert m in before;
      MergeAtTopStays(before, t);
    }
  }

  /** Without a merge, the greatest time wins. */
  lemma {:induction false} UnmergedEndsAtGreatest(events: seq<Event>, t: int)
    requires Greatest(events, t) && !AnyMerged(events)
    ensures Run(events).Some? && Run(events).value.updatedAt == Some(t)
  {
    var before, last := events[..|events| - 1], events[|events| - 1];
    RunIsSomeEvent(events);
    assert last in events;
    if before != [] {
      RunIsSomeEvent(before);
      if last.updatedAt.value < t {
        var e :| e in events && e.updatedAt.value == t;
        assert e in before;
        UnmergedEndsAtGreatest(before, t);
      }
    }
  }

  /** A delivery sequence of timed events ends at the greatest update time, merged
      exactly if some event is merged, if and only if no event is newer than every
      merged one. The condition does not depend on the order of delivery. */
  lemma EndsAtGreatestIff(events: seq<Event>, t: int)
    requires Greatest(events, t)
    ensures Run(events).Some?
    ensures MergeIsLatest(events)
       <==> Run(events).value.updatedAt == Some(t) && (Run(events).value.state == MERGED <==> AnyMerged(events))
  {
    var top :| top in events && top.updatedAt.value == t;
    RunIsSomeEvent(events);
    if MergeIsLatest(events) {
      if AnyMerged(events) {
        var m :| m in events && m.state == MERGED && forall e :: e in events ==> e.updatedAt.value <= m.updatedAt.value;
        MergeAtTopStays(events, t);
      } else {
        UnmergedEndsAtGreatest(events, t);
      }
    }
  }

  /** Where an event is newer than the merge, the end is not the greatest time. */
  lemma LaterOpenIsIgnored()
    ensures var merged, reopened := Event(Some(5), "merged"), Event(Some(10), "open");
      && Run([merged, reopened]) == Some(merged)
      && Greatest([merged, reopened], 10) && !MergeIsLatest([merged, reopened])
  {
    var merged, reopened := Event(Some(5), "merged"), Event(Some(10), "open");
    assert [merged, reopened][..1] == [merged] && [merged][..0] == [];
    assert Run([merged]) == Some(merged);
    EndsAtGreatestIff([merged, reopened], 10);
  }

  /** Order and redeliveries do not matter: sequences of the same timed events, none of
      them newer than every merged one, end at the same time and agree on the merge. */
  lemma OrderDoesNotMatter(events: seq<Event>, others: seq<Event>)
    requires events != [] && Timed(events) && MergeIsLatest(events)
    requires forall e :: e in events <==> e in others
    ensures Run(events).Some? && Run(others).Some?
    ensures Run(events).value.updatedAt == Run(others).value.updatedAt
    ensures Run(events).value.state == MERGED <==> Run(others).value.state == MERGED
  {
    var t := GreatestTime(events);
    assert events[0] in others;
    EndsAtGreatestIff(events, t);
    EndsAtGreatestIff(others, t);
  }

  lemma {:induction false} GreatestTime(events: seq<Event>) returns (t: int)
    requires events != [] && Timed(events)
    ensures Greatest(events, t)
  {
    var last := events[|events| - 1];
    t := last.updatedAt.value;
    if |events| > 1 {
      var before := events[..|events| - 1];
      var s := GreatestTime(before);
      assert forall e :: e in events <==> e in before || e == last;
      if s > t { t := s; }
    }
  }

  // -------------------------------------------------------------------------
  // The event that stands
  // -------------------------------------------------------------------------

  /** A merge no older than anything delivered before it. */
  ghost predicate RecordsMerge(events: seq<Event>, j: nat) {
    && j < |events| && events[j].state == "merged"
    && forall i :: 0 <= i < j ==> AtMost(events[i].updatedAt, events[j].updatedAt)
  }

  /** The last of the events from `j` on with the greatest time, among all of them or
      among merges alone. */
  ghost predicate LastGreatest(events: seq<Event>, i: nat, j: nat, merges: bool) {
    && j <= i < |events| && (merges ==> events[i].state == "merged")
    && forall k :: j <= k < |events| && (merges ==> events[k].state == "merged") ==>
         AtMost(events[k].updatedAt, events[i].updatedAt)
         && (k > i ==> !AtMost(events[i].updatedAt, events[k].updatedAt))
  }

  /** Which event stands, of any delivery, with times or without: until a merge is
      recorded the last with the greatest time, then the last such merge. */
  ghost predicate Stands(events: seq<Event>, i: nat) {
    && ((forall j :: !RecordsMerge(events, j)) ==> LastGreatest(events, i, 0, false))
    && (forall j :: RecordsMerge(events, j) ==> LastGreatest(events, i, j, true))
  }

  lemma LastGreatestAppend(before: seq<Event>, last: Event, i: nat, j: nat, merges: bool)
    requires LastGreatest(before, i, j, merges)
    ensures LastGreatest(before + [last],
                         if (merges ==> last.state == "merged") && AtMost(before[i].updatedAt, last.updatedAt)
                         then |before| else i, j, merges)
  {
    var all := before + [last];
    assert forall k :: 0 <= k < |before| ==> all[k] == before[k];
  }

  lemma RecordsMergeAppend(before: seq<Event>, last: Event, j: nat)
    requires j < |before|
    ensures RecordsMerge(before + [last], j) <==> RecordsMerge(before, j)
  {
    var all := before + [last];
    assert forall k :: 0 <= k < |before| ==> all[k] == before[k];
  }

  /** The last greatest event is a recorded merge when it is merged. */
  lemma GreatestRecords(events: seq<Event>, i: nat)
    requires LastGreatest(events, i, 0, false) && events[i].state == "merged"
    ensures RecordsMerge(events, i)
  {}

  /** Before any merge is recorded. */
  lemma UnrecordedStep(before: seq<Event>, last: Event, i: nat)
    requires LastGreatest(before, i, 0, false) && forall j :: !RecordsMerge(before, j)
    ensures Stands(before + [last], if IsNewer(Some(before[i]), last) then |before| else i)
  {
    var all, n := before + [last], |before|;
    LastGreatestAppend(before, last, i, 0, false);
    if before[i].state == "merged" { GreatestRecords(before, i); }
    forall j: nat | RecordsMerge(all, j) ensures j == n && IsNewer(Some(before[i]), last) {
      if j < n { RecordsMergeAppend(before, last, j); }
      assert all[i] == before[i];
    }
    if IsNewer(Some(before[i]), last) && last.state == "merged" {
      assert RecordsMerge(all, n) by { assert LastGreatest(all, n, 0, false); }
    }
  }

  /** Once a merge has been recorded, at `j`. */
  lemma RecordedStep(before: seq<Event>, last: Event, i: nat, j: nat)
    requires RecordsMerge(before, j) && Stands(before, i)
    ensures Stands(before + [last], if IsNewer(Some(before[i]), last) then |before| else i)
  {
    var all, n := before + [last], |before|;
    RecordsMergeAppend(before, last, j);
    var next := if IsNewer(Some(before[i]), last) then n else i;
    forall k: nat | RecordsMerge(all, k) ensures LastGreatest(all, next, k, true) {
      if k < n {
        RecordsMergeAppend(before, last, k);
        LastGreatestAppend(before, last, i, k, true);
      } else {
        assert all[i] == before[i];
      }
    }
  }

  lemma {:induction false} RunStands(events: seq<Event>) returns (i: nat)
    requires events != []
    ensures i < |events| && Run(events) == Some(events[i])
    ensures Stands(events, i)
  {
    i := 0;
    if |events| > 1 {
      var before, last := events[..|events| - 1], events[|events| - 1];
      i := RunStands(before);
      assert events == before + [last];
      if j :| RecordsMerge(before, j) {
        RecordedStep(before, last, i, j);
      } else {
        UnrecordedStep(before, last, i);
      }
      if IsNewer(Some(before[i]), last) { i := |before|; }
    }
  }
}
