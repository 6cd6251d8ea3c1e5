/** What a smaller key scope changes in `extract_refs`: it filters the issues, keeps
    their order and times, and can only lose `fixes`. */
module RefsScope {
  import opened Wrappers
  import opened Ascii
  import opened RefScanner
  import opened Refs
  import opened RefsSpec
  import opened Sequences

  /** A reference without its keyword. */
  datatype Issue = Issue(key: string, number: nat, hours: Option<nat>) {
    function DisplayKey(): string { DisplayKeyOf(key, number) }
  }

  function IssueOf(r: Ref): Issue { Issue(r.key, r.number, r.hours) }

  function Issues(refs: seq<Ref>): (issues: seq<Issue>)
    ensures |issues| == |refs|
  {
    if refs == [] then [] else [IssueOf(refs[0])] + Issues(refs[1..])
  }

  function InKeys(issues: seq<Issue>, known: set<string>): seq<Issue> {
    if issues == [] then []
    else Kept(issues[0], known) + InKeys(issues[1..], known)
  }

  function Kept(x: Issue, known: set<string>): seq<Issue> { if x.key in known then [x] else [] }

  function MergeIssue(acc: seq<Issue>, x: Issue): seq<Issue> {
    if acc == [] then [x]
    else if acc[0].DisplayKey() == x.DisplayKey()
    then [Issue(x.key, x.number, if acc[0].hours.Some? then acc[0].hours else x.hours)] + acc[1..]
    else [acc[0]] + MergeIssue(acc[1..], x)
  }

  function MergedIssues(xs: seq<Issue>): seq<Issue> {
    if xs == [] then [] else MergeIssue(MergedIssues(xs[..|xs| - 1]), xs[|xs| - 1])
  }

  // -------------------------------------------------------------------------
  // Display keys name issues
  // -------------------------------------------------------------------------

  ghost predicate DashFree(key: string) { '-' !in key }

  /** Keys hold no dash, so a display key names one key and one number. */
  lemma DisplayKeyIsInjective(key: string, n: nat, key': string, n': nat)
    requires DashFree(key) && DashFree(key')
    requires key + "-" + Decimal(n) == key' + "-" + Decimal(n')
    ensures key == key' && n == n'
  {
    var s, s' := key + "-" + Decimal(n), key' + "-" + Decimal(n');
    assert s[|key|] == '-' && s'[|key'|] == '-';
    forall i | 0 <= i < |key| ensures s[i] != '-' { assert s[i] in key; }
    forall i | 0 <= i < |key'| ensures s'[i] != '-' { assert s'[i] in key'; }
    assert key == s[..|key|] && key' == s'[..|key'|];
    assert Decimal(n) == s[|key| + 1..] && Decimal(n') == s'[|key'| + 1..];
    IntOfDecimal(n);
    IntOfDecimal(n');
  }

  // -------------------------------------------------------------------------
  // Merging commutes with forgetting keywords and with filtering keys
  // -------------------------------------------------------------------------

  lemma {:induction false} IssuesAppend(refs: seq<Ref>, r: Ref)
    ensures Issues(refs + [r]) == Issues(refs) + [IssueOf(r)]
  {
    if refs == [] {
      assert refs + [r] == [r];
    } else {
      assert (refs + [r])[1..] == refs[1..] + [r];
      IssuesAppend(refs[1..], r);
    }
  }

  lemma {:induction false} IssuesOfMerge(acc: seq<Ref>, r: Ref)
    ensures Issues(Merge(acc, r)) == MergeIssue(Issues(acc), IssueOf(r))
  {
    if acc == [] {
      assert [r][1..] == [];
    } else if acc[0].DisplayKey() == r.DisplayKey() {
      var m := [Combine(acc[0], r)] + acc[1..];
      assert m[1..] == acc[1..];
    } else {
      IssuesOfMerge(acc[1..], r);
      var m := [acc[0]] + Merge(acc[1..], r);
      assert m[1..] == Merge(acc[1..], r);
    }
  }

  lemma {:induction false} IssuesOfMerged(refs: seq<Ref>)
    ensures Issues(Merged(refs)) == MergedIssues(Issues(refs))
  {
    if refs != [] {
      var before, last := refs[..|refs| - 1], refs[|refs| - 1];
      assert refs == before + [last];
      IssuesOfMerged(before);
      MergedAppend(before, last);
      IssuesOfMerge(Merged(before), last);
      IssuesAppend(before, last);
      MergedIssuesAppend(Issues(before), IssueOf(last));
    }
  }

  lemma MergedAppend(refs: seq<Ref>, r: Ref)
    ensures Merged(refs + [r]) == Merge(Merged(refs), r)
  {
    LastAndInit(refs, r);
  }

  lemma MergedIssuesAppend(xs: seq<Issue>, x: Issue)
    ensures MergedIssues(xs + [x]) == MergeIssue(MergedIssues(xs), x)
  {
    LastAndInit(xs, x);
  }

  lemma {:induction false} InKeysAppend(xs: seq<Issue>, x: Issue, known: set<string>)
    ensures InKeys(xs + [x], known) == InKeys(xs, known) + Kept(x, known)
  {
    if xs == [] {
      assert xs + [x] == [x] && [x][1..] == [];
    } else {
      HeadAndTail(xs, [x]);
      InKeysAppend(xs[1..], x, known);
      Associative(Kept(xs[0], known), InKeys(xs[1..], known), Kept(x, known));
    }
  }

  ghost predicate AllDashFree(xs: seq<Issue>) { forall x :: x in xs ==> DashFree(x.key) }

  lemma {:induction false} InKeysOfMerge(acc: seq<Issue>, x: Issue, known: set<string>)
    requires AllDashFree(acc) && DashFree(x.key)
    ensures InKeys(MergeIssue(acc, x), known)
         == if x.key in known then MergeIssue(InKeys(acc, known), x) else InKeys(acc, known)
    ensures AllDashFree(MergeIssue(acc, x))
  {
    if acc == [] {
      assert [x][1..] == [];
    } else if acc[0].DisplayKey() == x.DisplayKey() {
      DisplayKeyIsInjective(acc[0].key, acc[0].number, x.key, x.number);
      var merged := MergeIssue(acc, x);
      assert merged[1..] == acc[1..];
      assert InKeys(acc, known) == Kept(acc[0], known) + InKeys(acc[1..], known);
    } else {
      InKeysOfMerge(acc[1..], x, known);
      var merged := MergeIssue(acc, x);
      assert merged[1..] == MergeIssue(acc[1..], x);
      var kept := InKeys(acc, known);
      if acc[0].key in known {
        assert kept[0] == acc[0] && kept[1..] == InKeys(acc[1..], known);
      } else {
        assert kept == InKeys(acc[1..], known) && InKeys(merged, known) == InKeys(merged[1..], known);
      }
    }
  }

  lemma InKeysSplit(xs: seq<Issue>, last: Issue, known: set<string>)
    ensures MergedIssues(InKeys(xs + [last], known))
         == if last.key in known then MergeIssue(MergedIssues(InKeys(xs, known)), last)
            else MergedIssues(InKeys(xs, known))
  {
    InKeysAppend(xs, last, known);
    if last.key in known { MergedIssuesAppend(InKeys(xs, known), last); }
    assert InKeys(xs, known) + [] == InKeys(xs, known);
  }

  lemma {:induction false} InKeysOfMerged(xs: seq<Issue>, known: set<string>)
    requires AllDashFree(xs)
    ensures InKeys(MergedIssues(xs), known) == MergedIssues(InKeys(xs, known))
    ensures AllDashFree(MergedIssues(xs))
    decreases |xs|
  {
    if xs != [] {
      var before, last := LastDashFree(xs);
      InKeysOfMerged(before, known);
      OneMoreMerged(before, last, known);
    }
  }

  lemma LastDashFree(xs: seq<Issue>) returns (before: seq<Issue>, last: Issue)
    requires AllDashFree(xs) && xs != []
    ensures xs == before + [last] && |before| < |xs| && AllDashFree(before) && DashFree(last.key)
  {
    before, last := xs[..|xs| - 1], xs[|xs| - 1];
  }

  lemma OneMoreMerged(before: seq<Issue>, last: Issue, known: set<string>)
    requires AllDashFree(MergedIssues(before)) && DashFree(last.key)
    requires InKeys(MergedIssues(before), known) == MergedIssues(InKeys(before, known))
    ensures InKeys(MergedIssues(before + [last]), known) == MergedIssues(InKeys(before + [last], known))
    ensures AllDashFree(MergedIssues(before + [last]))
  {
    MergedIssuesAppend(before, last);
    InKeysOfMerge(MergedIssues(before), last, known);
    InKeysSplit(before, last, known);
  }

  // -------------------------------------------------------------------------
  // A smaller scope
  // -------------------------------------------------------------------------

  lemma {:induction false} ScopedTwice(ms: seq<Match>, known: set<string>, fewer: set<string>)
    requires fewer <= known
    ensures Scoped(InMessage, Scoped(InMessage, ms, known), fewer) == Scoped(InMessage, ms, fewer)
  {
    if ms != [] {
      ScopedTwice(ms[1..], known, fewer);
      var s := Scoped(InMessage, ms, known);
      if InScope(InMessage, ms[0], known) {
        assert s[0] == ms[0] && s[1..] == Scoped(InMessage, ms[1..], known);
      } else {
        assert s == Scoped(InMessage, ms[1..], known);
        assert Scoped(InMessage, ms, fewer) == Scoped(InMessage, ms[1..], fewer);
      }
    }
  }

  function MentionIssues(xs: seq<Mention>): (issues: seq<Issue>)
    ensures |issues| == |xs|
  {
    if xs == [] then [] else [Issue(xs[0].key, xs[0].number, xs[0].hours)] + MentionIssues(xs[1..])
  }

  lemma {:induction false} MentionIssuesAt(xs: seq<Mention>, i: nat)
    requires i < |xs|
    ensures MentionIssues(xs)[i] == Issue(xs[i].key, xs[i].number, xs[i].hours)
  {
    if i > 0 { MentionIssuesAt(xs[1..], i - 1); }
  }

  lemma {:induction false} IssuesAt(refs: seq<Ref>, i: nat)
    requires i < |refs|
    ensures Issues(refs)[i] == IssueOf(refs[i])
  {
    if i > 0 { IssuesAt(refs[1..], i - 1); }
  }

  lemma {:induction false} IssuesOfFound(xs: seq<Mention>, refs: seq<Ref>)
    requires |refs| == |xs|
    requires forall i :: 0 <= i < |xs| ==>
      refs[i].key == xs[i].key && refs[i].number == xs[i].number && refs[i].hours == xs[i].hours
    ensures Issues(refs) == MentionIssues(xs)
  {
    if xs != [] { IssuesOfFound(xs[1..], refs[1..]); }
  }

  lemma {:induction false} MentionIssuesInKeys(t: string, ms: seq<Match>, fewer: set<string>)
    requires Within(t, ms) && Within(t, Scoped(InMessage, ms, fewer))
    requires forall m :: m in ms ==> Int(m.number) != 0
    ensures InKeys(MentionIssues(Annotate(t, ms)), fewer) == MentionIssues(Annotate(t, Scoped(InMessage, ms, fewer)))
  {
    if ms != [] {
      var m, rest := ms[0], ms[1..];
      ScopedKeepsWithin(InMessage, t, rest, fewer);
      MentionIssuesInKeys(t, rest, fewer);
      MentionIssuesCons(t, m, rest);
      assert ms == [m] + rest;
      var s, xs := Scoped(InMessage, rest, fewer), MentionIssues(Annotate(t, ms));
      assert xs[1..] == MentionIssues(Annotate(t, rest)) && xs[0].key == m.key;
      if m.key in fewer {
        MentionIssuesCons(t, m, s);
        assert Scoped(InMessage, ms, fewer) == [m] + s;
      } else {
        assert Scoped(InMessage, ms, fewer) == s;
      }
    }
  }

  lemma MentionIssuesCons(t: string, m: Match, rest: seq<Match>)
    requires Within(t, [m] + rest)
    ensures Within(t, rest)
    ensures var y := MentionOf(t, m);
      && y.key == m.key
      && MentionIssues(Annotate(t, [m] + rest)) == [Issue(y.key, y.number, y.hours)] + MentionIssues(Annotate(t, rest))
  {
    assert ([m] + rest)[1..] == rest;
    assert forall x :: x in rest ==> x in [m] + rest;
    AnnotateHead(t, [m] + rest);
  }

  lemma AnnotateHead(t: string, ms: seq<Match>)
    requires Within(t, ms) && ms != []
    ensures Annotate(t, ms)[1..] == Annotate(t, ms[1..])
    ensures Annotate(t, ms)[0].key == ms[0].key && Annotate(t, ms)[0].number == Int(ms[0].number)
    ensures Annotate(t, ms)[0] == MentionOf(t, ms[0])
  {}

  lemma KeysHaveNoDash(t: string, i: nat)
    requires i <= |t| && MatchAt(t, i).Some?
    ensures DashFree(MatchAt(t, i).value.key)
  {
    var k, e := MessageRegexIsScanner(t, i);
    var key := t[k..e];
    assert MatchAt(t, i).value.key == key;
    forall j | 0 <= j < |key| ensures key[j] != '-' { assert key[j] == t[k + j] && (j == 0 || IsKeyChar(t[k + j])); }
  }

  lemma ScopedMentions(t: string, known: set<string>, fewer: set<string>)
    requires fewer <= known
    ensures Mentions(InMessage, t, fewer) == Scoped(InMessage, Mentions(InMessage, t, known), fewer)
    ensures forall m :: m in Mentions(InMessage, t, known) ==> Int(m.number) != 0
    ensures Within(t, Mentions(InMessage, t, known)) && Within(t, Mentions(InMessage, t, fewer))
  {
    var all := MatchesFrom(InMessage, t, Next(InMessage, t, 0));
    ScopedTwice(all, known, fewer);
    MatchesWithin(InMessage, t, Next(InMessage, t, 0));
    ScopedKeepsWithin(InMessage, t, all, known);
    ScopedKeepsWithin(InMessage, t, all, fewer);
  }

  lemma MentionKeysDashFree(t: string, known: set<string>)
    ensures AllDashFree(MentionIssues(MentionsOf(t, known)))
  {
    MentionsWithin(InMessage, t, known);
    MentionsInOrder(t, known);
    var ms, xs := Mentions(InMessage, t, known), MentionIssues(MentionsOf(t, known));
    forall i | 0 <= i < |xs| ensures DashFree(xs[i].key) {
      MentionIssuesAt(MentionsOf(t, known), i);
      AnnotateAt(t, ms, i);
      KeysHaveNoDash(t, ms[i].start);
    }
  }

  /** Shrinking the scope yields exactly the same issues filtered, in the same order
      and with the same times. */
  lemma SmallerScopeFilters(t: string, known: set<string>, fewer: set<string>)
    requires fewer <= known
    ensures Issues(Extract(t, fewer)) == InKeys(Issues(Extract(t, known)), fewer)
  {
    ScopedMentions(t, known, fewer);
    var ms, ms' := Mentions(InMessage, t, known), Mentions(InMessage, t, fewer);
    FoundAgrees(t, known);
    FoundAgrees(t, fewer);
    IssuesOfFound(MentionsOf(t, known), Found(t, ms));
    IssuesOfFound(MentionsOf(t, fewer), Found(t, ms'));
    IssuesOfMerged(Found(t, ms));
    IssuesOfMerged(Found(t, ms'));
    MentionIssuesInKeys(t, ms, fewer);
    MentionKeysDashFree(t, known);
    InKeysOfMerged(MentionIssues(MentionsOf(t, known)), fewer);
  }

  // -------------------------------------------------------------------------
  // A smaller scope can only lose `fixes`
  // -------------------------------------------------------------------------

  /** A separator holds no dash, so no mention lies inside it. */
  lemma {:induction false} SeparatorHasNoDash(gap: string, i: nat, k: nat)
    requires i <= k < |gap| && SeparatorFrom(gap, i)
    ensures gap[k] != '-'
    decreases |gap| - i
  {
    if IsSeparatorChar(gap[i]) {
      if k > i { SeparatorHasNoDash(gap, i + 1, k); }
    } else if k < i + 3 {
      AndIsWord(gap, i);
    } else {
      SeparatorHasNoDash(gap, i + 3, k);
    }
  }

  ghost predicate WellEnded(t: string, x: Mention) {
    && x.start + 2 <= x.end <= |t|
    && (IsDigit(t[x.end - 1]) || (IsLetter(t[x.end - 1]) && IsDigit(t[x.end - 2])))
    && '-' in t[x.start..x.end]
  }

  /** The character before the end of a mention's text is the last digit of its
      number, or a unit letter right after a digit. */
  lemma MentionEnding(t: string, m: Match)
    requires m.start < m.end <= |t| && MatchAt(t, m.start) == Some(m)
    ensures WellEnded(t, MentionOf(t, m))
  {
    NumberEnding(t, m);
    TextEnding(t, m.end);
    DashStays(t, m.start, m.end, TimeAt(t, m.end).1);
  }

  lemma TextEnding(t: string, pos: nat)
    requires 0 < pos <= |t| && IsDigit(t[pos - 1])
    ensures var end := TimeAt(t, pos).1;
      end == pos || (end >= pos + 2 && IsLetter(t[end - 1]) && IsDigit(t[end - 2]))
  {
    if TimeMatch(t, pos).Some? { TimeEnding(t, pos); }
  }

  lemma NumberEnding(t: string, m: Match)
    requires m.start < m.end <= |t| && MatchAt(t, m.start) == Some(m)
    ensures m.start + 2 <= m.end && IsDigit(t[m.end - 1]) && '-' in t[m.start..m.end]
  {
    var k, e := MessageRegexIsScanner(t, m.start);
    assert t[m.start..m.end][e - m.start] == '-';
  }

  lemma DashStays(t: string, start: nat, stop: nat, later: nat)
    requires start <= stop <= later <= |t| && '-' in t[start..stop]
    ensures '-' in t[start..later]
  {
    var i :| 0 <= i < stop - start && t[start..stop][i] == '-';
    assert t[start..later][i] == '-';
  }

  lemma TimeEnding(t: string, pos: nat)
    requires pos <= |t| && TimeMatch(t, pos).Some?
    ensures var end := TimeMatch(t, pos).value.end;
      end >= pos + 2 && IsLetter(t[end - 1]) && IsDigit(t[end - 2])
  {
    var at, d, u := TimeRegexIsScanner(t, pos);
    var end := TimeMatch(t, pos).value.end;
    assert end == d + 1 || end == u + 1;
    assert IsDigit(t[d - 1]);
    assert IsLetter(t[end - 1]);
  }

  /** The word of a gap starts after a place that ends in a digit, or in a unit letter
      after a digit. */
  lemma WordStartsLater(gap: string, cut: nat, s: nat, e: nat, a: nat)
    requires KeywordShape(gap, s, e, a) && 2 <= cut <= |gap|
    requires forall i :: s <= i < e ==> IsLetter(gap[i])
    requires IsDigit(gap[cut - 1]) || (IsLetter(gap[cut - 1]) && IsDigit(gap[cut - 2]))
    ensures s >= cut
  {
    assert s < cut ==> cut - 1 < e && s == cut - 1;
  }

  lemma ShapeOfSuffix(gap: string, cut: nat, s: nat, e: nat, a: nat)
    requires KeywordShape(gap, s, e, a) && cut <= s && IsWord(gap[s])
    ensures KeywordShape(gap[cut..], s - cut, e - cut, a - cut)
  {
    var shorter := gap[cut..];
    assert forall i :: 0 <= i < |shorter| ==> shorter[i] == gap[cut + i];
    assert DollarAt(shorter) == DollarAt(gap) - cut;
    assert BoundaryAt(shorter, s - cut) && BoundaryAt(shorter, e - cut);
  }

  lemma PartsOfSuffix(gap: string, cut: nat, s: nat, e: nat, a: nat, word: string)
    requires KeywordShape(gap, s, e, a) && word == gap[s..e] && 2 <= cut <= |gap|
    requires forall i :: s <= i < e ==> IsLetter(gap[i])
    requires IsDigit(gap[cut - 1]) || (IsLetter(gap[cut - 1]) && IsDigit(gap[cut - 2]))
    ensures cut <= s && KeywordShape(gap[cut..], s - cut, e - cut, a - cut)
    ensures word == gap[cut..][s - cut..e - cut]
  {
    WordStartsLater(gap, cut, s, e, a);
    ShapeOfSuffix(gap, cut, s, e, a);
  }

  /** A gap that ends in a fixing word still does when it starts later, at the end of
      a mention's text. */
  lemma FixingGapSuffix(gap: string, cut: nat)
    requires FixingGap(gap) && 2 <= cut <= |gap|
    requires IsDigit(gap[cut - 1]) || (IsLetter(gap[cut - 1]) && IsDigit(gap[cut - 2]))
    ensures FixingGap(gap[cut..])
  {
    var s: nat, e: nat, a: nat :| KeywordShape(gap, s, e, a) && LowerText(gap[s..e]) in FIXING_WORDS;
    var word := gap[s..e];
    WordsAreLetters(word);
    assert forall i :: s <= i < e ==> gap[i] == word[i - s];
    PartsOfSuffix(gap, cut, s, e, a, word);
  }

  // -------------------------------------------------------------------------

  /** Where mention `i` of a list stands in a longer list that contains it. */
  ghost predicate Embeds(ms': seq<Mention>, ms: seq<Mention>, at: seq<nat>) {
    && |at| == |ms'|
    && (forall i :: 0 <= i < |at| ==> at[i] < |ms| && ms[at[i]] == ms'[i])
    && (forall i, j :: 0 <= i < j < |at| ==> at[i] < at[j])
  }

  lemma MentionSplitsSeparator(t: string, from: nat, m: Mention, stop: nat)
    requires from <= m.start < m.end <= stop <= |t| && '-' in t[m.start..m.end]
    ensures !IsSeparator(t[from..stop])
  {
    var d :| 0 <= d < m.end - m.start && t[m.start..m.end][d] == '-';
    assert t[from..stop][m.start - from + d] == '-';
    if IsSeparator(t[from..stop]) { SeparatorHasNoDash(t[from..stop], 0, m.start - from + d); }
  }

  /** The position in the larger list right after the previous mention of the smaller one. */
  function After(at: seq<nat>, i: nat): nat
    requires i < |at|
  {
    if i == 0 then 0 else at[i - 1] + 1
  }

  /** When the larger scope holds more mentions in a gap, its last gap is a suffix of
      that gap, and starts at the end of a mention's text. */
  lemma MentionInside(t: string, ms': seq<Mention>, ms: seq<Mention>, at: seq<nat>, i: nat) returns (cut: nat)
    requires InOrder(t, ms') && InOrder(t, ms) && Embeds(ms', ms, at) && i < |ms'|
    requires After(at, i) < at[i] && WellEnded(t, ms[at[i] - 1])
    ensures var gap := Gap(t, ms', i);
      && 2 <= cut <= |gap| && Gap(t, ms, at[i]) == gap[cut..]
      && (IsDigit(gap[cut - 1]) || (IsLetter(gap[cut - 1]) && IsDigit(gap[cut - 2])))
      && !IsSeparator(gap)
  {
    var from := if i == 0 then 0 else ms'[i - 1].end;
    var m, stop := ms[at[i] - 1], ms'[i].start;
    assert from <= m.start;
    cut := m.end - from;
    MentionSplitsSeparator(t, from, m, stop);
    CutGap(t, from, m.end, stop);
  }

  lemma CutGap(t: string, from: nat, later: nat, stop: nat)
    requires from + 2 <= later <= stop <= |t|
    ensures t[from..stop][later - from..] == t[later..stop]
    ensures t[from..stop][later - from - 1] == t[later - 1] && t[from..stop][later - from - 2] == t[later - 2]
  {}

  /** A gap that is a list separator in the small scope is the same gap in the large one. */
  lemma SeparatorInLargerScope(t: string, ms': seq<Mention>, ms: seq<Mention>, at: seq<nat>, i: nat)
    requires InOrder(t, ms') && InOrder(t, ms) && Embeds(ms', ms, at) && 0 < i < |ms'|
    requires IsSeparator(Gap(t, ms', i))
    requires forall m :: m in ms ==> WellEnded(t, m)
    ensures at[i] == at[i - 1] + 1 && IsSeparator(Gap(t, ms, at[i]))
  {
    if After(at, i) < at[i] { var cut := MentionInside(t, ms', ms, at, i); }
  }

  lemma FixingInLargerScope(t: string, ms': seq<Mention>, ms: seq<Mention>, at: seq<nat>, i: nat)
    requires InOrder(t, ms') && InOrder(t, ms) && Embeds(ms', ms, at) && i < |ms'|
    requires FixingGap(Gap(t, ms', i))
    requires forall m :: m in ms ==> WellEnded(t, m)
    ensures FixesAt(t, ms, at[i])
  {
    if After(at, i) < at[i] {
      var cut := MentionInside(t, ms', ms, at, i);
      FixingGapSuffix(Gap(t, ms', i), cut);
    } else {
      assert Gap(t, ms, at[i]) == Gap(t, ms', i);
    }
    FixesFrom(t, ms, at[i], false);
  }

  ghost predicate Nested(t: string, ms': seq<Mention>, ms: seq<Mention>, at: seq<nat>) {
    InOrder(t, ms') && InOrder(t, ms) && Embeds(ms', ms, at) && forall m :: m in ms ==> WellEnded(t, m)
  }

  ghost predicate Inherits(t: string, ms': seq<Mention>, ms: seq<Mention>, at: seq<nat>, i: nat)
    requires Nested(t, ms', ms, at) && i < |ms'|
  {
    FixesAt(t, ms', i) ==> FixesAt(t, ms, at[i])
  }

  lemma InheritsNext(t: string, ms': seq<Mention>, ms: seq<Mention>, at: seq<nat>, i: nat)
    requires Nested(t, ms', ms, at) && i < |ms'| && (i > 0 ==> Inherits(t, ms', ms, at, i - 1))
    ensures Inherits(t, ms', ms, at, i)
  {
    if FixesAt(t, ms', i) {
      var shared := FixesBySharing(t, ms', i);
      if shared {
        SharedInLargerScope(t, ms', ms, at, i);
      } else {
        FixingInLargerScope(t, ms', ms, at, i);
      }
    }
  }

  lemma {:induction false} FixesInLargerScope(t: string, ms': seq<Mention>, ms: seq<Mention>, at: seq<nat>, i: nat)
    requires Nested(t, ms', ms, at) && i < |ms'|
    ensures Inherits(t, ms', ms, at, i)
  {
    if i > 0 { FixesInLargerScope(t, ms', ms, at, i - 1); }
    InheritsNext(t, ms', ms, at, i);
  }

  lemma SharedInLargerScope(t: string, ms': seq<Mention>, ms: seq<Mention>, at: seq<nat>, i: nat)
    requires InOrder(t, ms') && InOrder(t, ms) && Embeds(ms', ms, at) && 0 < i < |ms'|
    requires forall m :: m in ms ==> WellEnded(t, m)
    requires IsSeparator(Gap(t, ms', i)) && FixesAt(t, ms, at[i - 1])
    ensures FixesAt(t, ms, at[i])
  {
    SeparatorInLargerScope(t, ms', ms, at, i);
    FixesFrom(t, ms, at[i], true);
  }

  lemma FixesBySharing(t: string, ms: seq<Mention>, n: nat) returns (shared: bool)
    requires InOrder(t, ms) && n < |ms| && FixesAt(t, ms, n)
    ensures if shared then n > 0 && IsSeparator(Gap(t, ms, n)) && FixesAt(t, ms, n - 1) else FixingGap(Gap(t, ms, n))
  {
    FixesAtStep(t, ms, n);
    shared := !FixingGap(Gap(t, ms, n));
  }

  lemma FixesFrom(t: string, ms: seq<Mention>, n: nat, shared: bool)
    requires InOrder(t, ms) && n < |ms|
    requires if shared then n > 0 && IsSeparator(Gap(t, ms, n)) && FixesAt(t, ms, n - 1) else FixingGap(Gap(t, ms, n))
    ensures FixesAt(t, ms, n)
  {
    FixesAtStep(t, ms, n);
  }

  lemma {:induction false} ScopedEmbeds(ms: seq<Match>, fewer: set<string>) returns (at: seq<nat>)
    ensures |at| == |Scoped(InMessage, ms, fewer)|
    ensures forall i :: 0 <= i < |at| ==> at[i] < |ms| && ms[at[i]] == Scoped(InMessage, ms, fewer)[i]
    ensures forall i, j :: 0 <= i < j < |at| ==> at[i] < at[j]
  {
    at := [];
    if ms != [] {
      var rest := ScopedEmbeds(ms[1..], fewer);
      var shifted := seq(|rest|, i requires 0 <= i < |rest| => rest[i] + 1);
      at := if InScope(InMessage, ms[0], fewer) then [0] + shifted else shifted;
    }
  }

  lemma MentionsEmbed(t: string, known: set<string>, fewer: set<string>) returns (at: seq<nat>)
    requires fewer <= known
    ensures Embeds(MentionsOf(t, fewer), MentionsOf(t, known), at)
    ensures forall m :: m in MentionsOf(t, known) ==> WellEnded(t, m)
  {
    ScopedMentions(t, known, fewer);
    MentionsInOrder(t, known);
    var ms, ms' := Mentions(InMessage, t, known), Mentions(InMessage, t, fewer);
    at := ScopedEmbeds(ms, fewer);
    forall i | 0 <= i < |at| ensures MentionsOf(t, known)[at[i]] == MentionsOf(t, fewer)[i] {
      AnnotateAt(t, ms, at[i]);
      AnnotateAt(t, ms', i);
    }
    forall i | 0 <= i < |ms| ensures WellEnded(t, MentionsOf(t, known)[i]) {
      AnnotateAt(t, ms, i);
      MentionEnding(t, ms[i]);
    }
  }

  /** A reference that fixes in a smaller scope fixes in the larger one: a smaller scope
      can only turn `fixes` into `refs`, never the other way. */
  lemma SmallerScopeOnlyLosesFixes(t: string, known: set<string>, fewer: set<string>, r': Ref, r: Ref)
    requires fewer <= known
    requires r' in Extract(t, fewer) && r in Extract(t, known) && r.DisplayKey() == r'.DisplayKey()
    requires r'.keyword == Fixing
    ensures r.keyword == Fixing
  {
    ExtractMeetsSpec(t, known);
    ExtractMeetsSpec(t, fewer);
    var at := MentionsEmbed(t, known, fewer);
    var xs, xs' := MentionsOf(t, known), MentionsOf(t, fewer);
    var i :| 0 <= i < |xs'| && xs'[i].DisplayKey() == r'.DisplayKey() && FixesAt(t, xs', i);
    FixesInLargerScope(t, xs', xs, at, i);
    assert xs[at[i]].DisplayKey() == r.DisplayKey();
  }
}
