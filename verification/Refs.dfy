/** Issue references in commit messages and branch names (specivo/hooks/refs.py). */
module Refs {
  import opened Wrappers
  import opened OrderedDicts
  import opened Sequences
  import opened Ascii
  import opened RefScanner

  datatype Keyword = Referencing | Fixing

  /** `display_key`. */
  function DisplayKeyOf(key: string, number: nat): string { key + "-" + Decimal(number) }

  /** One reference; `hours` counts hundredths of an hour. */
  datatype Ref = Ref(key: string, number: nat, keyword: Keyword, hours: Option<nat>) {
    function DisplayKey(): string { DisplayKeyOf(key, number) }
  }

  // -------------------------------------------------------------------------
  // Matches: what `finditer` yields
  // -------------------------------------------------------------------------

  datatype Pattern = InMessage | InBranch

  function At(p: Pattern, t: string, i: nat): (m: Option<Match>)
    requires i <= |t|
    ensures m.Some? ==> m.value.start == i < m.value.end <= |t|
  {
    match p
    case InMessage => MatchAt(t, i)
    case InBranch => BranchMatchAt(t, i)
  }

  /** The first match that starts at or after `pos`. */
  function Next(p: Pattern, t: string, pos: nat): (m: Option<Match>)
    requires pos <= |t|
    ensures m.Some? ==> pos <= m.value.start < m.value.end <= |t|
    decreases |t| - pos
  {
    var here := At(p, t, pos);
    if here.Some? || pos == |t| then here else Next(p, t, pos + 1)
  }

  lemma {:induction false} NextIsFirst(p: Pattern, t: string, pos: nat)
    requires pos <= |t|
    ensures var m := Next(p, t, pos);
      var stop := if m.Some? then m.value.start else |t| + 1;
      && (m.Some? ==> At(p, t, m.value.start) == m)
      && forall i :: pos <= i < stop ==> At(p, t, i).None?
    decreases |t| - pos
  {
    if At(p, t, pos).None? && pos < |t| { NextIsFirst(p, t, pos + 1); }
  }

  /** `m` and the matches after it. */
  function MatchesFrom(p: Pattern, t: string, m: Option<Match>): seq<Match>
    requires m.Some? ==> m.value.end <= |t|
    requires m.Some? ==> m.value.start < m.value.end
    decreases if m.Some? then 1 + |t| - m.value.end else 0
  {
    if m.None? then [] else [m.value] + MatchesFrom(p, t, Next(p, t, m.value.end))
  }

  function IssueKey(p: Pattern, m: Match): string { if p.InBranch? then UpperText(m.key) else m.key }

  /** A key out of scope, or issue number 0, is no reference at all. */
  predicate InScope(p: Pattern, m: Match, known: set<string>) {
    IssueKey(p, m) in known && Int(m.number) != 0
  }

  function Scoped(p: Pattern, ms: seq<Match>, known: set<string>): seq<Match> {
    if ms == [] then []
    else Kept(p, ms[0], known) + Scoped(p, ms[1..], known)
  }

  function Kept(p: Pattern, m: Match, known: set<string>): seq<Match> { if InScope(p, m, known) then [m] else [] }

  /** The in-scope mentions of a text, in order. */
  function Mentions(p: Pattern, t: string, known: set<string>): seq<Match> {
    Scoped(p, MatchesFrom(p, t, Next(p, t, 0)), known)
  }

  // -------------------------------------------------------------------------
  // Keywords and time, mention by mention
  // -------------------------------------------------------------------------

  function KeywordFor(gap: string, previous: Option<Keyword>): Keyword {
    match KeywordWord(gap)
    case Some(word) => if word in FIXING_WORDS then Fixing else Referencing
    case None => if previous.Some? && IsSeparator(gap) then previous.value else Referencing
  }

  /** `_time_at`: the time written at `pos` (zero is no time) and where it ends. */
  function TimeAt(t: string, pos: nat): (r: (Option<nat>, nat))
    requires pos <= |t|
    ensures pos <= r.1 <= |t|
  {
    match TimeMatch(t, pos)
    case None => (None, pos)
    case Some(time) => (if time.hundredths > 0 then Some(time.hundredths) else None, time.end)
  }

  /** Python's `t[a:b]`. */
  function Slice(t: string, a: nat, b: nat): string {
    if a < b <= |t| then t[a..b] else ""
  }

  ghost predicate Within(t: string, ms: seq<Match>) { forall m :: m in ms ==> m.start < m.end <= |t| }

  /** Where the text read for the last of `ms`, time included, ends. */
  function LastEnd(t: string, ms: seq<Match>): (e: nat)
    requires Within(t, ms)
    ensures e <= |t|
  {
    if ms == [] then 0 else TimeAt(t, ms[|ms| - 1].end).1
  }

  /** The text between the last mention of `ms` and the one before it. */
  function GapBefore(t: string, ms: seq<Match>): string
    requires ms != [] && Within(t, ms)
  {
    Slice(t, LastEnd(t, ms[..|ms| - 1]), ms[|ms| - 1].start)
  }

  function LastKeyword(t: string, ms: seq<Match>): Keyword
    requires ms != [] && Within(t, ms)
  {
    KeywordFor(GapBefore(t, ms), if |ms| == 1 then None else Some(LastKeyword(t, ms[..|ms| - 1])))
  }

  /** One reference per mention, before merging. */
  function Found(t: string, ms: seq<Match>): (refs: seq<Ref>)
    requires Within(t, ms)
    ensures |refs| == |ms|
  {
    if ms == [] then []
    else
      var last := ms[|ms| - 1];
      Found(t, ms[..|ms| - 1]) + [Ref(last.key, Int(last.number), LastKeyword(t, ms), TimeAt(t, last.end).0)]
  }

  function FoundInBranch(ms: seq<Match>): (refs: seq<Ref>)
    ensures |refs| == |ms|
  {
    seq(|ms|, i requires 0 <= i < |ms| =>
          Ref(UpperText(ms[i].key), Int(ms[i].number), Referencing, None))
  }

  // -------------------------------------------------------------------------
  // Merging
  // -------------------------------------------------------------------------

  /** A later mention of the same issue: `fixes` wins, the first time wins. */
  function Combine(current: Ref, ref: Ref): Ref {
    Ref(ref.key, ref.number,
        if current.keyword == Fixing || ref.keyword == Fixing then Fixing else Referencing,
        if current.hours.Some? then current.hours else ref.hours)
  }

  function Merge(acc: seq<Ref>, ref: Ref): seq<Ref> {
    if acc == [] then [ref]
    else if acc[0].DisplayKey() == ref.DisplayKey() then [Combine(acc[0], ref)] + acc[1..]
    else [acc[0]] + Merge(acc[1..], ref)
  }

  function Merged(refs: seq<Ref>): seq<Ref> {
    if refs == [] then [] else Merge(Merged(refs[..|refs| - 1]), refs[|refs| - 1])
  }

  /** `extract_refs`. */
  function Extract(t: string, known: set<string>): seq<Ref> {
    MentionsWithin(InMessage, t, known);
    Merged(Found(t, Mentions(InMessage, t, known)))
  }

  /** `extract_branch_refs`. */
  function ExtractBranch(t: string, known: set<string>): seq<Ref> {
    Merged(FoundInBranch(Mentions(InBranch, t, known)))
  }

  lemma {:induction false} MatchesWithin(p: Pattern, t: string, m: Option<Match>)
    requires m.Some? ==> m.value.start < m.value.end <= |t|
    ensures Within(t, MatchesFrom(p, t, m))
    decreases if m.Some? then 1 + |t| - m.value.end else 0
  {
    if m.Some? { MatchesWithin(p, t, Next(p, t, m.value.end)); }
  }

  lemma {:induction false} ScopedKeepsWithin(p: Pattern, t: string, ms: seq<Match>, known: set<string>)
    requires Within(t, ms)
    ensures Within(t, Scoped(p, ms, known))
    ensures forall m :: m in Scoped(p, ms, known) <==> m in ms && InScope(p, m, known)
  {
    if ms != [] { ScopedKeepsWithin(p, t, ms[1..], known); }
  }

  lemma MentionsWithin(p: Pattern, t: string, known: set<string>)
    ensures Within(t, Mentions(p, t, known))
  {
    var first := Next(p, t, 0);
    MatchesWithin(p, t, first);
    ScopedKeepsWithin(p, t, MatchesFrom(p, t, first), known);
  }

  // -------------------------------------------------------------------------
  // The code's loops
  // -------------------------------------------------------------------------

  ghost predicate Distinct(acc: seq<Ref>) {
    forall i, j :: 0 <= i < j < |acc| ==> acc[i].DisplayKey() != acc[j].DisplayKey()
  }

  lemma {:induction false} MergeAt(acc: seq<Ref>, ref: Ref, i: nat)
    requires Distinct(acc) && i <= |acc|
    requires i < |acc| ==> acc[i].DisplayKey() == ref.DisplayKey()
    requires i == |acc| ==> forall j :: 0 <= j < |acc| ==> acc[j].DisplayKey() != ref.DisplayKey()
    ensures Merge(acc, ref) == if i < |acc| then acc[i := Combine(acc[i], ref)] else acc + [ref]
    ensures Distinct(Merge(acc, ref))
  {
    if acc != [] && i > 0 {
      MergeAt(acc[1..], ref, i - 1);
    }
  }

  function KeysOf(refs: seq<Ref>): (keys: seq<string>)
    ensures |keys| == |refs|
  {
    seq(|refs|, i requires 0 <= i < |refs| => refs[i].DisplayKey())
  }

  /** Merging combines with the reference at place `i`, or adds a new one at the end. */
  lemma MergeKeys(acc: seq<Ref>, last: Ref, i: nat)
    requires Distinct(acc) && i <= |acc|
    requires if i < |acc| then KeysOf(acc)[i] == last.DisplayKey() else last.DisplayKey() !in KeysOf(acc)
    ensures Merge(acc, last) == if i < |acc| then acc[i := Combine(acc[i], last)] else acc + [last]
    ensures KeysOf(Merge(acc, last)) == if i < |acc| then KeysOf(acc) else KeysOf(acc) + [last.DisplayKey()]
    ensures Distinct(Merge(acc, last))
  {
    forall j | 0 <= j < |acc| && i == |acc| ensures acc[j].DisplayKey() != last.DisplayKey() {
      assert KeysOf(acc)[j] == acc[j].DisplayKey();
    }
    MergeAt(acc, last, i);
  }

  ghost predicate HoldsRefs(seen: Dict<Ref>, acc: seq<Ref>) {
    Holds(seen, KeysOf(acc), acc) && Distinct(acc)
  }

  lemma SeenMerges(seen: Dict<Ref>, acc: seq<Ref>, ref: Ref)
    requires HoldsRefs(seen, acc)
    ensures var current := seen.Get(ref.DisplayKey());
      HoldsRefs(seen.Set(ref.DisplayKey(), if current.None? then ref else Combine(current.value, ref)), Merge(acc, ref))
  {
    var key, keys := ref.DisplayKey(), KeysOf(acc);
    var i := KeyIsThere(seen, keys, acc, key);
    MergeKeys(acc, ref, i);
    if i == |acc| { SetNew(seen, keys, acc, key, ref); } else { SetKnown(seen, keys, acc, i, Combine(acc[i], ref)); }
  }

  /** `_dedupe`. */
  method Dedupe(refs: seq<Ref>) returns (merged: seq<Ref>)
    ensures merged == Merged(refs)
  {
    var seen: Dict<Ref> := Empty();
    for n := 0 to |refs|
      invariant HoldsRefs(seen, Merged(refs[..n]))
    {
      var ref := refs[n];
      assert refs[..n + 1][..n] == refs[..n];
      SeenMerges(seen, Merged(refs[..n]), ref);
      var current := seen.Get(ref.DisplayKey());
      if current.None? {
        seen := seen.Set(ref.DisplayKey(), ref);
        continue;
      }
      var keyword := if current.value.keyword == Fixing || ref.keyword == Fixing then Fixing else Referencing;
      var hours := if current.value.hours.Some? then current.value.hours else ref.hours;
      var combined := Ref(ref.key, ref.number, keyword, hours);
      assert combined == Combine(current.value, ref);
      seen := seen.Set(ref.DisplayKey(), combined);
    }
    assert refs[..|refs|] == refs;
    merged := [];
    for n := 0 to |seen.order|
      invariant merged == Merged(refs)[..n]
    {
      merged := merged + [seen.Get(seen.order[n]).value];
    }
  }

  /** The mentions still to come when the loop stands at `next`. */
  function Ahead(p: Pattern, t: string, next: Option<Match>, known: set<string>): seq<Match>
    requires next.Some? ==> next.value.start < next.value.end <= |t|
  {
    Scoped(p, MatchesFrom(p, t, next), known)
  }

  lemma AheadStep(p: Pattern, t: string, ms: seq<Match>, m: Match, next: Option<Match>, known: set<string>)
    requires m.start < m.end <= |t| && next == Next(p, t, m.end)
    ensures ms + Ahead(p, t, Some(m), known)
         == ms + Kept(p, m, known) + Ahead(p, t, next, known)
  {
    var rest := MatchesFrom(p, t, next);
    assert MatchesFrom(p, t, Some(m)) == [m] + rest;
    assert ([m] + rest)[1..] == rest;
    Associative(ms, Kept(p, m, known), Scoped(p, rest, known));
  }

  lemma FoundStep(t: string, ms: seq<Match>, m: Match)
    requires Within(t, ms) && m.start < m.end <= |t|
    ensures Within(t, ms + [m])
    ensures LastEnd(t, ms + [m]) == TimeAt(t, m.end).1
    ensures LastKeyword(t, ms + [m])
         == KeywordFor(Slice(t, LastEnd(t, ms), m.start), if ms == [] then None else Some(LastKeyword(t, ms)))
    ensures Found(t, ms + [m])
         == Found(t, ms) + [Ref(m.key, Int(m.number), LastKeyword(t, ms + [m]), TimeAt(t, m.end).0)]
  {
    var all := ms + [m];
    assert all[..|all| - 1] == ms;
  }

  /** What the loop of `extract_refs` has read before `next`. */
  ghost predicate ReadBefore(t: string, known: set<string>, ms: seq<Match>, next: Option<Match>,
                             found: seq<Ref>, previous: Option<Keyword>, lastEnd: nat) {
    && (next.Some? ==> next.value.start < next.value.end <= |t|)
    && Mentions(InMessage, t, known) == ms + Ahead(InMessage, t, next, known)
    && Within(t, ms)
    && found == Found(t, ms) && lastEnd == LastEnd(t, ms)
    && previous == if ms == [] then None else Some(LastKeyword(t, ms))
  }

  /** A match out of scope changes nothing. */
  lemma PassesOver(t: string, known: set<string>, ms: seq<Match>, m: Match, next: Option<Match>,
                   found: seq<Ref>, previous: Option<Keyword>, lastEnd: nat)
    requires ReadBefore(t, known, ms, Some(m), found, previous, lastEnd)
    requires next == Next(InMessage, t, m.end) && !InScope(InMessage, m, known)
    ensures ReadBefore(t, known, ms, next, found, previous, lastEnd)
  {
    AheadStep(InMessage, t, ms, m, next, known);
    assert ms + [] == ms;
  }

  lemma ReadsOne(t: string, known: set<string>, ms: seq<Match>, m: Match, next: Option<Match>,
                 found: seq<Ref>, previous: Option<Keyword>, lastEnd: nat, keyword: Keyword, time: (Option<nat>, nat))
    requires ReadBefore(t, known, ms, Some(m), found, previous, lastEnd)
    requires next == Next(InMessage, t, m.end) && InScope(InMessage, m, known)
    requires keyword == KeywordFor(Slice(t, lastEnd, m.start), previous) && time == TimeAt(t, m.end)
    ensures ReadBefore(t, known, ms + [m], next, found + [Ref(m.key, Int(m.number), keyword, time.0)],
                       Some(keyword), time.1)
  {
    AheadStep(InMessage, t, ms, m, next, known);
    FoundStep(t, ms, m);
  }

  lemma NothingLeft(t: string, known: set<string>, ms: seq<Match>, found: seq<Ref>, previous: Option<Keyword>,
                    lastEnd: nat)
    requires ReadBefore(t, known, ms, None, found, previous, lastEnd)
    ensures Extract(t, known) == Merged(found)
  {
    assert Ahead(InMessage, t, None, known) == [];
    assert ms + [] == ms;
  }

  method ExtractRefs(text: string, known: set<string>) returns (refs: seq<Ref>)
    ensures refs == Extract(text, known)
  {
    if text == "" || known == {} {
      NothingToFind(text, known);
      return [];
    }
    var found: seq<Ref> := [];
    var previous: Option<Keyword> := None;
    var lastEnd: nat := 0;
    var next := Next(InMessage, text, 0);
    ghost var ms: seq<Match> := [];
    while next.Some?
      invariant ReadBefore(text, known, ms, next, found, previous, lastEnd)
      decreases if next.Some? then 1 + |text| - next.value.end else 0
    {
      var m := next.value;
      next := Next(InMessage, text, m.end);
      var number := Int(m.number);
      if m.key !in known || number == 0 {
        PassesOver(text, known, ms, m, next, found, previous, lastEnd);
        continue;
      }
      var keyword := KeywordFor(Slice(text, lastEnd, m.start), previous);
      var time := TimeAt(text, m.end);
      ReadsOne(text, known, ms, m, next, found, previous, lastEnd, keyword, time);
      lastEnd := time.1;
      found := found + [Ref(m.key, number, keyword, time.0)];
      previous := Some(keyword);
      ms := ms + [m];
    }
    NothingLeft(text, known, ms, found, previous, lastEnd);
    refs := Dedupe(found);
  }

  lemma NothingToFind(text: string, known: set<string>)
    requires text == "" || known == {}
    ensures Extract(text, known) == [] && ExtractBranch(text, known) == []
  {
    MentionsWithin(InMessage, text, known);
    forall p: Pattern ensures Mentions(p, text, known) == [] {
      if text == "" {
        assert Next(p, text, 0).None?;
      } else {
        ScopedInNothing(p, MatchesFrom(p, text, Next(p, text, 0)));
      }
    }
    assert Mentions(InMessage, text, known) == [] && Mentions(InBranch, text, known) == [];
  }

  lemma {:induction false} ScopedInNothing(p: Pattern, ms: seq<Match>)
    ensures Scoped(p, ms, {}) == []
  {
    if ms != [] { ScopedInNothing(p, ms[1..]); }
  }

  /** What the loop of `extract_branch_refs` has read before `next`. */
  ghost predicate BranchReadBefore(t: string, known: set<string>, ms: seq<Match>, next: Option<Match>,
                                   found: seq<Ref>) {
    && (next.Some? ==> next.value.start < next.value.end <= |t|)
    && Mentions(InBranch, t, known) == ms + Ahead(InBranch, t, next, known)
    && found == FoundInBranch(ms)
  }

  lemma BranchReadsOne(t: string, known: set<string>, ms: seq<Match>, m: Match, next: Option<Match>, found: seq<Ref>)
    requires BranchReadBefore(t, known, ms, Some(m), found) && next == Next(InBranch, t, m.end)
    ensures if InScope(InBranch, m, known)
            then BranchReadBefore(t, known, ms + [m], next,
              found + [Ref(UpperText(m.key), Int(m.number), Referencing, None)])
            else BranchReadBefore(t, known, ms, next, found)
  {
    AheadStep(InBranch, t, ms, m, next, known);
    assert ms + [] == ms;
  }

  lemma NothingLeftInBranch(t: string, known: set<string>, ms: seq<Match>, found: seq<Ref>)
    requires BranchReadBefore(t, known, ms, None, found)
    ensures ExtractBranch(t, known) == Merged(found)
  {
    assert Ahead(InBranch, t, None, known) == [];
    assert ms + [] == ms;
  }

  method ExtractBranchRefs(branch: string, known: set<string>) returns (refs: seq<Ref>)
    ensures refs == ExtractBranch(branch, known)
  {
    if branch == "" || known == {} {
      NothingToFind(branch, known);
      return [];
    }
    var found: seq<Ref> := [];
    var next := Next(InBranch, branch, 0);
    ghost var ms: seq<Match> := [];
    while next.Some?
      invariant BranchReadBefore(branch, known, ms, next, found)
      decreases if next.Some? then 1 + |branch| - next.value.end else 0
    {
      var m := next.value;
      next := Next(InBranch, branch, m.end);
      BranchReadsOne(branch, known, ms, m, next, found);
      var key := UpperText(m.key);
      var number := Int(m.number);
      if key in known && number > 0 {
        found := found + [Ref(key, number, Referencing, None)];
        ms := ms + [m];
      }
    }
    NothingLeftInBranch(branch, known, ms, found);
    refs := Dedupe(found);
  }
}
