/** What `extract_refs` promises, stated without its loop. */
module RefsSpec {
  import opened Wrappers
  import opened Ascii
  import opened RefScanner
  import opened Refs

  // -------------------------------------------------------------------------
  // Mentions are in order, and no mention starts inside the text of another
  // -------------------------------------------------------------------------

  /** No reference starts inside a time. */
  lemma NoReferenceInTime(t: string, pos: nat, i: nat)
    requires pos <= |t| && TimeMatch(t, pos).Some?
    requires pos <= i < TimeMatch(t, pos).value.end
    ensures MatchAt(t, i).None?
  {
    var at, d, m := TimeRegexIsScanner(t, pos);
  }

  /** A mention with all that is read at it; `end` is where its text ends, time included. */
  datatype Mention = Mention(key: string, number: nat, hours: Option<nat>, start: nat, end: nat) {
    function DisplayKey(): string { DisplayKeyOf(key, number) }
  }

  function MentionOf(t: string, m: Match): Mention
    requires m.end <= |t|
  {
    var time := TimeAt(t, m.end);
    Mention(m.key, Int(m.number), time.0, m.start, time.1)
  }

  function Annotate(t: string, ms: seq<Match>): (xs: seq<Mention>)
    requires Within(t, ms)
    ensures |xs| == |ms|
  {
    if ms == [] then [] else [MentionOf(t, ms[0])] + Annotate(t, ms[1..])
  }

  lemma {:induction false} AnnotateAt(t: string, ms: seq<Match>, i: nat)
    requires Within(t, ms) && i < |ms|
    ensures Annotate(t, ms)[i] == MentionOf(t, ms[i])
  {
    if i > 0 { AnnotateAt(t, ms[1..], i - 1); }
  }

  /** The in-scope mentions of a message. */
  function MentionsOf(t: string, known: set<string>): seq<Mention> {
    MentionsWithin(InMessage, t, known);
    Annotate(t, Mentions(InMessage, t, known))
  }

  /** Each mention starts after the text of every mention before it. */
  ghost predicate InOrder(t: string, xs: seq<Mention>) {
    && (forall i :: 0 <= i < |xs| ==> xs[i].start < xs[i].end <= |t|)
    && (forall i, j :: 0 <= i < j < |xs| ==> xs[i].end <= xs[j].start)
  }

  /** All of `ms` start at or after `from`, and are matches of the text. */
  ghost predicate MatchesAfter(t: string, ms: seq<Match>, from: nat) {
    forall m :: m in ms ==> from <= m.start < m.end <= |t| && MatchAt(t, m.start) == Some(m)
  }

  lemma {:induction false} MatchesInOrder(t: string, next: Option<Match>, known: set<string>)
    requires next.Some? ==> next.value.start < next.value.end <= |t| && MatchAt(t, next.value.start) == next
    ensures MatchesAfter(t, MatchesFrom(InMessage, t, next), if next.Some? then next.value.start else 0)
    ensures var ms := Scoped(InMessage, MatchesFrom(InMessage, t, next), known);
      && MatchesAfter(t, ms, if next.Some? then next.value.start else 0)
      && InOrder(t, Annotate(t, ms))
    decreases if next.Some? then 1 + |t| - next.value.end else 0
  {
    if next.Some? {
      var m := next.value;
      var after := Next(InMessage, t, m.end);
      NextIsFirst(InMessage, t, m.end);
      MatchesInOrder(t, after, known);
      if after.Some? { TimeEndsBefore(t, m, after.value); }
      assert MatchesFrom(InMessage, t, next) == [m] + MatchesFrom(InMessage, t, after);
      AnnotateStep(t, m, MatchesFrom(InMessage, t, after), known, if after.Some? then after.value.start else 0);
    }
  }

  lemma TimeEndsBefore(t: string, m: Match, after: Match)
    requires m.end <= after.start < after.end <= |t| && MatchAt(t, after.start) == Some(after)
    ensures TimeAt(t, m.end).1 <= after.start
  {
    if TimeAt(t, m.end).1 > after.start { NoReferenceInTime(t, m.end, after.start); }
  }

  lemma AnnotateStep(t: string, m: Match, rest: seq<Match>, known: set<string>, from: nat)
    requires m.start < m.end <= |t| && MatchAt(t, m.start) == Some(m)
    requires var ms := Scoped(InMessage, rest, known); MatchesAfter(t, ms, from) && InOrder(t, Annotate(t, ms))
    requires rest != [] ==> m.start <= from && TimeAt(t, m.end).1 <= from
    ensures var ms := Scoped(InMessage, [m] + rest, known); MatchesAfter(t, ms, m.start) && InOrder(t, Annotate(t, ms))
  {
    var tail := Scoped(InMessage, rest, known);
    assert ([m] + rest)[1..] == rest;
    if InScope(InMessage, m, known) {
      OneMoreAnnotated(t, m, tail, from);
      assert Scoped(InMessage, [m] + rest, known) == [m] + tail;
    } else {
      assert Scoped(InMessage, [m] + rest, known) == tail;
    }
  }

  lemma OneMoreAnnotated(t: string, m: Match, tail: seq<Match>, from: nat)
    requires m.start < m.end <= |t| && MatchAt(t, m.start) == Some(m)
    requires MatchesAfter(t, tail, from) && InOrder(t, Annotate(t, tail))
    requires tail != [] ==> m.start <= from && TimeAt(t, m.end).1 <= from
    ensures MatchesAfter(t, [m] + tail, m.start) && InOrder(t, Annotate(t, [m] + tail))
  {
    forall i | 0 <= i < |tail| ensures Annotate(t, tail)[i].start >= from { AnnotateAt(t, tail, i); }
    assert ([m] + tail)[1..] == tail;
    assert Annotate(t, [m] + tail) == [MentionOf(t, m)] + Annotate(t, tail);
  }

  /** The mentions of a message are in order, so the code's gaps are never cut short. */
  lemma MentionsInOrder(t: string, known: set<string>)
    ensures InOrder(t, MentionsOf(t, known))
    ensures MatchesAfter(t, Mentions(InMessage, t, known), 0)
  {
    NextIsFirst(InMessage, t, 0);
    MatchesInOrder(t, Next(InMessage, t, 0), known);
  }

  // -------------------------------------------------------------------------
  // Keywords
  // -------------------------------------------------------------------------

  /** The gap ends in a fixing word (with blanks and a colon after it, at most). */
  ghost predicate FixingGap(gap: string) {
    exists s: nat, e: nat, a: nat :: KeywordShape(gap, s, e, a) && LowerText(gap[s..e]) in FIXING_WORDS
  }

  /** The text between mention `i` (counted from 0) and the one before it. */
  function Gap(t: string, xs: seq<Mention>, i: nat): string
    requires InOrder(t, xs) && i < |xs|
  {
    t[if i == 0 then 0 else xs[i - 1].end..xs[i].start]
  }

  /** Every gap after `j`, up to `i`, is a list separator. */
  ghost predicate SharedFrom(t: string, xs: seq<Mention>, j: nat, i: nat)
    requires InOrder(t, xs) && i < |xs|
  {
    j >= i || (IsSeparator(Gap(t, xs, i)) && SharedFrom(t, xs, j, i - 1))
  }

  /** The nearest gap at or before `i` that is not a list separator ends in a fixing word. */
  ghost predicate FixesAt(t: string, xs: seq<Mention>, i: nat)
    requires InOrder(t, xs) && i < |xs|
  {
    exists j: nat :: j <= i && FixingGap(Gap(t, xs, j)) && SharedFrom(t, xs, j, i)
  }

  lemma {:induction false} LettersOfSeparator(gap: string, i: nat, k: nat) returns (a: nat)
    requires i <= k < |gap| && SeparatorFrom(gap, i) && IsLetter(gap[k])
    ensures AndAt(gap, a) && a <= k < a + 3
    decreases |gap| - i
  {
    if IsSeparatorChar(gap[i]) {
      a := LettersOfSeparator(gap, i + 1, k);
    } else if k < i + 3 {
      a := i;
    } else {
      a := LettersOfSeparator(gap, i + 3, k);
    }
  }

  /** A whole word that starts inside an `and` is that `and`. */
  lemma WordIsAnd(gap: string, s: nat, e: nat, and: nat)
    requires AndAt(gap, and) && and <= s < and + 3 && s < e <= |gap|
    requires BoundaryAt(gap, s) && BoundaryAt(gap, e) && AllIn(gap, s, e, IsWord)
    ensures s == and && e == and + 3
  {
    AndIsWord(gap, and);
    assert s == and;
    assert e >= and + 3;
  }

  /** A list separator never holds a keyword. */
  lemma SeparatorHasNoKeyword(gap: string)
    requires IsSeparator(gap)
    ensures KeywordWord(gap).None?
  {
    AndIsNoKeyword();
    if KeywordWord(gap).Some? {
      var s, e, a := KeywordRegexIsScanner(gap);
      WordsAreLetters(gap[s..e]);
      LettersStand(gap, s, e);
      var and := LettersOfSeparator(gap, 0, s);
      WordIsAnd(gap, s, e, and);
    }
  }

  lemma LettersStand(gap: string, s: nat, e: nat)
    requires s < e <= |gap| && forall k :: 0 <= k < e - s ==> IsLetter(gap[s..e][k])
    ensures IsLetter(gap[s]) && AllIn(gap, s, e, IsWord)
  {
    forall k | s <= k < e ensures IsLetter(gap[k]) { assert gap[s..e][k - s] == gap[k]; }
  }

  lemma AndIsNoKeyword()
    ensures !IsKeyword("and")
  {
    forall w | IsKeyword(w) ensures w[0] != 'a' {}
  }

  lemma AndIsWord(gap: string, a: nat)
    requires AndAt(gap, a)
    ensures IsWord(gap[a]) && IsWord(gap[a + 1]) && IsWord(gap[a + 2])
    ensures a > 0 ==> !IsWord(gap[a - 1])
    ensures a + 3 < |gap| ==> !IsWord(gap[a + 3])
  {
    var low := LowerText(gap[a..a + 3]);
    assert low[0] == 'a' && low[1] == 'n' && low[2] == 'd';
    assert gap[a..a + 3] == [gap[a], gap[a + 1], gap[a + 2]];
  }

  lemma FixesAtStep(t: string, xs: seq<Mention>, n: nat)
    requires InOrder(t, xs) && n < |xs|
    ensures FixesAt(t, xs, n) <==>
              FixingGap(Gap(t, xs, n)) || (n > 0 && IsSeparator(Gap(t, xs, n)) && FixesAt(t, xs, n - 1))
  {
    if FixesAt(t, xs, n) {
      var j: nat :| j <= n && FixingGap(Gap(t, xs, j)) && SharedFrom(t, xs, j, n);
      if j < n { assert SharedFrom(t, xs, j, n - 1); }
    }
    if FixingGap(Gap(t, xs, n)) { assert SharedFrom(t, xs, n, n); }
    if n > 0 && IsSeparator(Gap(t, xs, n)) && FixesAt(t, xs, n - 1) {
      var j: nat :| j <= n - 1 && FixingGap(Gap(t, xs, j)) && SharedFrom(t, xs, j, n - 1);
      assert SharedFrom(t, xs, j, n);
    }
  }

  lemma KeywordForFixes(gap: string, previous: Option<Keyword>)
    ensures KeywordFor(gap, previous) == Fixing <==>
              FixingGap(gap) || (IsSeparator(gap) && previous == Some(Fixing))
  {
    if s: nat, e: nat, a: nat :| KeywordShape(gap, s, e, a) && LowerText(gap[s..e]) in FIXING_WORDS {
      KeywordScannerIsRegex(gap, s, e, a);
    } else if KeywordWord(gap).Some? {
      var s, e, a := KeywordRegexIsScanner(gap);
    }
    if IsSeparator(gap) { SeparatorHasNoKeyword(gap); }
  }

  /** The keyword the loop carries is the specified one, for every prefix of the mentions. */
  lemma {:induction false} LastKeywordMeetsSpec(t: string, ms: seq<Match>, n: nat)
    requires Within(t, ms) && InOrder(t, Annotate(t, ms)) && n < |ms|
    ensures LastKeyword(t, ms[..n + 1]) == Fixing <==> FixesAt(t, Annotate(t, ms), n)
  {
    FixesAtStep(t, Annotate(t, ms), n);
    KeywordStep(t, ms, n);
    if n > 0 { LastKeywordMeetsSpec(t, ms, n - 1); }
  }

  lemma KeywordStep(t: string, ms: seq<Match>, n: nat)
    requires Within(t, ms) && InOrder(t, Annotate(t, ms)) && n < |ms|
    ensures var gap := Gap(t, Annotate(t, ms), n);
      LastKeyword(t, ms[..n + 1]) == Fixing
      <==> FixingGap(gap) || (IsSeparator(gap) && n > 0 && LastKeyword(t, ms[..n]) == Fixing)
  {
    assert ms[..n + 1][..n] == ms[..n];
    GapsAgree(t, ms, n);
    KeywordForFixes(Gap(t, Annotate(t, ms), n), if n == 0 then None else Some(LastKeyword(t, ms[..n])));
  }

  /** The loop's gap is the text between the mention and the one before it. */
  lemma GapsAgree(t: string, ms: seq<Match>, n: nat)
    requires Within(t, ms) && InOrder(t, Annotate(t, ms)) && n < |ms|
    ensures GapBefore(t, ms[..n + 1]) == Gap(t, Annotate(t, ms), n)
  {
    assert ms[..n + 1][..n] == ms[..n];
    AnnotateAt(t, ms, n);
    if n > 0 { AnnotateAt(t, ms, n - 1); }
  }

  lemma {:induction false} FoundAt(t: string, ms: seq<Match>, n: nat, i: nat)
    requires Within(t, ms) && i < n <= |ms|
    ensures Found(t, ms[..n])[i]
         == Ref(ms[i].key, Int(ms[i].number), LastKeyword(t, ms[..i + 1]), TimeAt(t, ms[i].end).0)
  {
    assert ms[..n][..n - 1] == ms[..n - 1];
    if i < n - 1 { FoundAt(t, ms, n - 1, i); }
  }

  /** Mention by mention: the key and number as written, `fixes` as specified, and the
      time written right after. */
  lemma FoundMeetsSpec(t: string, ms: seq<Match>, i: nat)
    requires Within(t, ms) && InOrder(t, Annotate(t, ms)) && i < |ms|
    ensures var r, x := Found(t, ms)[i], Annotate(t, ms)[i];
      && r.key == x.key && r.number == x.number && r.hours == x.hours
      && (r.keyword == Fixing <==> FixesAt(t, Annotate(t, ms), i))
  {
    FoundAt(t, ms, |ms|, i);
    assert ms[..|ms|] == ms;
    AnnotateAt(t, ms, i);
    LastKeywordMeetsSpec(t, ms, i);
  }

  // -------------------------------------------------------------------------
  // Merging
  // -------------------------------------------------------------------------

  /** First occurrences, in order. */
  function DistinctKeys(keys: seq<string>): seq<string> {
    if keys == [] then []
    else
      var before, last := DistinctKeys(keys[..|keys| - 1]), keys[|keys| - 1];
      if last in before then before else before + [last]
  }

  function FirstIndex(keys: seq<string>, k: string): (i: nat)
    ensures i <= |keys|
    ensures i < |keys| ==> keys[i] == k
    ensures forall j :: 0 <= j < i ==> keys[j] != k
  {
    if keys == [] || keys[0] == k then 0 else 1 + FirstIndex(keys[1..], k)
  }

  /** `DistinctKeys` lists every key once, by first mention. */
  lemma {:induction false} DistinctKeysInOrder(keys: seq<string>)
    ensures forall k :: k in DistinctKeys(keys) <==> k in keys
    ensures forall i, j :: 0 <= i < j < |DistinctKeys(keys)| ==>
              FirstIndex(keys, DistinctKeys(keys)[i]) < FirstIndex(keys, DistinctKeys(keys)[j])
  {
    if keys != [] {
      var before, last := keys[..|keys| - 1], keys[|keys| - 1];
      DistinctKeysInOrder(before);
      assert keys == before + [last];
      var d := DistinctKeys(keys);
      forall k | k in before ensures FirstIndex(keys, k) == FirstIndex(before, k) < |before| {
        var i := FirstIndex(before, k);
        assert keys[i] == k;
      }
      forall i, j | 0 <= i < j < |d| ensures FirstIndex(keys, d[i]) < FirstIndex(keys, d[j]) {
        assert d[i] in DistinctKeys(before);
        if j == |DistinctKeys(before)| { assert d[j] !in before; }
      }
    }
  }

  /** Some reference to `k` fixes. */
  ghost predicate AnyFixes(refs: seq<Ref>, k: string) {
    exists i :: 0 <= i < |refs| && refs[i].DisplayKey() == k && refs[i].keyword == Fixing
  }

  /** The first time written for `k`. */
  function FirstTime(refs: seq<Ref>, k: string): Option<nat> {
    if refs == [] then None
    else if refs[0].DisplayKey() == k && refs[0].hours.Some? then refs[0].hours
    else FirstTime(refs[1..], k)
  }

  lemma {:induction false} FirstTimeAppend(refs: seq<Ref>, last: Ref, k: string)
    ensures FirstTime(refs + [last], k)
         == if FirstTime(refs, k).Some? then FirstTime(refs, k)
            else if last.DisplayKey() == k then last.hours else None
  {
    if refs == [] {
      assert refs + [last] == [last] && [last][1..] == [];
    } else {
      assert (refs + [last])[1..] == refs[1..] + [last];
      FirstTimeAppend(refs[1..], last, k);
    }
  }

  ghost predicate MergedAs(refs: seq<Ref>, merged: seq<Ref>) {
    && KeysOf(merged) == DistinctKeys(KeysOf(refs))
    && forall r :: r in merged ==>
         && (r.keyword == Fixing <==> AnyFixes(refs, r.DisplayKey()))
         && r.hours == FirstTime(refs, r.DisplayKey())
  }

  /** One reference per issue, in order of first mention; `fixes` when any mention
      fixes; the first time written. */
  lemma {:induction false} MergedMeetsSpec(refs: seq<Ref>)
    ensures MergedAs(refs, Merged(refs)) && Distinct(Merged(refs))
  {
    if refs != [] {
      var before, last := refs[..|refs| - 1], refs[|refs| - 1];
      MergedMeetsSpec(before);
      assert refs == before + [last] && KeysOf(refs)[..|refs| - 1] == KeysOf(before);
      var i := FirstIndex(KeysOf(Merged(before)), last.DisplayKey());
      MergeKeys(Merged(before), last, i);
      DistinctKeysInOrder(KeysOf(before));
      assert KeysOf(Merged(refs)) == DistinctKeys(KeysOf(refs));
      forall r | r in Merged(refs)
        ensures r.keyword == Fixing <==> AnyFixes(refs, r.DisplayKey())
        ensures r.hours == FirstTime(refs, r.DisplayKey())
      {
        MergeOne(before, Merged(before), last, i, r);
      }
    }
  }

  lemma MergeOne(before: seq<Ref>, acc: seq<Ref>, last: Ref, i: nat, r: Ref)
    requires MergedAs(before, acc) && Distinct(acc)
    requires i <= |acc| && (i < |acc| ==> acc[i].DisplayKey() == last.DisplayKey())
    requires i < |acc| <==> last.DisplayKey() in KeysOf(acc)
    requires r in if i < |acc| then acc[i := Combine(acc[i], last)] else acc + [last]
    ensures r.keyword == Fixing <==> AnyFixes(before + [last], r.DisplayKey())
    ensures r.hours == FirstTime(before + [last], r.DisplayKey())
  {
    FirstTimeAppend(before, last, r.DisplayKey());
    AnyFixesAppend(before, last, r.DisplayKey());
    if i == |acc| && r == last {
      DistinctKeysInOrder(KeysOf(before));
      NeverMentioned(before, last.DisplayKey());
    } else if i < |acc| && r == Combine(acc[i], last) {
      assert acc[i] in acc;
    } else {
      var j :| 0 <= j < |acc| && j != i && acc[j] == r;
      assert KeysOf(acc)[j] == r.DisplayKey();
      assert r.DisplayKey() != last.DisplayKey();
    }
  }

  lemma AnyFixesAppend(refs: seq<Ref>, last: Ref, k: string)
    ensures AnyFixes(refs + [last], k) <==> AnyFixes(refs, k) || (last.DisplayKey() == k && last.keyword == Fixing)
  {
    var all := refs + [last];
    if AnyFixes(refs, k) {
      var i :| 0 <= i < |refs| && refs[i].DisplayKey() == k && refs[i].keyword == Fixing;
      assert all[i] == refs[i];
    }
    assert all[|refs|] == last;
  }

  lemma {:induction false} NeverMentioned(refs: seq<Ref>, k: string)
    requires k !in KeysOf(refs)
    ensures !AnyFixes(refs, k) && FirstTime(refs, k).None?
  {
    forall i | 0 <= i < |refs| ensures refs[i].DisplayKey() != k { assert KeysOf(refs)[i] == refs[i].DisplayKey(); }
    if refs != [] {
      assert forall i :: 0 <= i < |refs| - 1 ==> KeysOf(refs[1..])[i] == KeysOf(refs)[i + 1];
      NeverMentioned(refs[1..], k);
    }
  }

  // -------------------------------------------------------------------------
  // The whole of extract_refs
  // -------------------------------------------------------------------------

  function MentionKeys(xs: seq<Mention>): (keys: seq<string>)
    ensures |keys| == |xs|
  {
    seq(|xs|, i requires 0 <= i < |xs| => xs[i].DisplayKey())
  }

  /** The first time written right after a mention of `k`. */
  function TimeOf(xs: seq<Mention>, k: string): Option<nat> {
    if xs == [] then None
    else if xs[0].DisplayKey() == k && xs[0].hours.Some? then xs[0].hours
    else TimeOf(xs[1..], k)
  }

  /** One reference per mention, agreeing with it. */
  ghost predicate Agree(t: string, xs: seq<Mention>, refs: seq<Ref>) {
    && InOrder(t, xs) && |refs| == |xs|
    && forall i :: 0 <= i < |xs| ==>
         && refs[i].key == xs[i].key && refs[i].number == xs[i].number && refs[i].hours == xs[i].hours
         && (refs[i].keyword == Fixing <==> FixesAt(t, xs, i))
  }

  lemma {:induction false} TimesAgree(xs: seq<Mention>, refs: seq<Ref>, k: string)
    requires |refs| == |xs|
    requires forall i :: 0 <= i < |xs| ==>
      refs[i].key == xs[i].key && refs[i].number == xs[i].number && refs[i].hours == xs[i].hours
    ensures FirstTime(refs, k) == TimeOf(xs, k)
  {
    if xs != [] { TimesAgree(xs[1..], refs[1..], k); }
  }

  lemma FixesAgree(t: string, xs: seq<Mention>, refs: seq<Ref>, k: string)
    requires Agree(t, xs, refs)
    ensures AnyFixes(refs, k) <==>
              exists i :: 0 <= i < |xs| && xs[i].DisplayKey() == k && FixesAt(t, xs, i)
  {
    if AnyFixes(refs, k) {
      var i :| 0 <= i < |refs| && refs[i].DisplayKey() == k && refs[i].keyword == Fixing;
      assert xs[i].DisplayKey() == k && FixesAt(t, xs, i);
    }
    if i :| 0 <= i < |xs| && xs[i].DisplayKey() == k && FixesAt(t, xs, i) {
      assert refs[i].DisplayKey() == k && refs[i].keyword == Fixing;
    }
  }

  lemma FoundAgrees(t: string, known: set<string>)
    ensures Within(t, Mentions(InMessage, t, known))
    ensures Agree(t, MentionsOf(t, known), Found(t, Mentions(InMessage, t, known)))
  {
    var ms := Mentions(InMessage, t, known);
    MentionsWithin(InMessage, t, known);
    MentionsInOrder(t, known);
    forall i | 0 <= i < |ms|
      ensures var r, x := Found(t, ms)[i], MentionsOf(t, known)[i];
        && r.key == x.key && r.number == x.number && r.hours == x.hours
        && (r.keyword == Fixing <==> FixesAt(t, MentionsOf(t, known), i))
    {
      FoundMeetsSpec(t, ms, i);
    }
  }

  /** `extract_refs` lists the in-scope issues once each, by first mention. An issue
      is fixed exactly when one of its mentions follows a fixing word directly or
      through list separators, and its time is the first one written for it. */
  lemma ExtractMeetsSpec(t: string, known: set<string>)
    ensures var xs := MentionsOf(t, known);
      && InOrder(t, xs)
      && KeysOf(Extract(t, known)) == DistinctKeys(MentionKeys(xs))
      && forall r :: r in Extract(t, known) ==>
           && (r.keyword == Fixing <==>
                 exists i :: 0 <= i < |xs| && xs[i].DisplayKey() == r.DisplayKey() && FixesAt(t, xs, i))
           && r.hours == TimeOf(xs, r.DisplayKey())
  {
    FoundAgrees(t, known);
    AgreeingMerge(t, MentionsOf(t, known), Found(t, Mentions(InMessage, t, known)));
  }

  lemma AgreeingMerge(t: string, xs: seq<Mention>, found: seq<Ref>)
    requires Agree(t, xs, found)
    ensures KeysOf(Merged(found)) == DistinctKeys(MentionKeys(xs))
    ensures forall r :: r in Merged(found) ==>
      && (r.keyword == Fixing <==>
            exists i :: 0 <= i < |xs| && xs[i].DisplayKey() == r.DisplayKey() && FixesAt(t, xs, i))
      && r.hours == TimeOf(xs, r.DisplayKey())
  {
    MergedMeetsSpec(found);
    assert KeysOf(found) == MentionKeys(xs);
    forall r | r in Merged(found)
      ensures r.keyword == Fixing <==>
                exists i :: 0 <= i < |xs| && xs[i].DisplayKey() == r.DisplayKey() && FixesAt(t, xs, i)
      ensures r.hours == TimeOf(xs, r.DisplayKey())
    {
      TimesAgree(xs, found, r.DisplayKey());
      FixesAgree(t, xs, found, r.DisplayKey());
    }
  }
}
