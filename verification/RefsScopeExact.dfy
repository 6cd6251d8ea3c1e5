/** Exactly when a smaller key scope keeps `fixes` in `extract_refs`. */
module RefsScopeExact {
  import opened Wrappers
  import opened Ascii
  import opened RefScanner
  import opened Refs
  import opened RefsSpec
  import opened RefsScope
  import opened RefsRoundTrip

  // -------------------------------------------------------------------------
  // The condition, read off the mentions of the larger scope
  // -------------------------------------------------------------------------

  /** Every gap after `j`, up to `i`, is a list separator, and the mention before it is in
      the smaller scope. */
  ghost predicate PassedOn(t: string, xs: seq<Mention>, fewer: set<string>, j: nat, i: nat)
    requires InOrder(t, xs) && i < |xs|
  {
    j >= i || (IsSeparator(Gap(t, xs, i)) && xs[i - 1].key in fewer && PassedOn(t, xs, fewer, j, i - 1))
  }

  /** Mention `i` takes its `fixes` from a gap at or before it, through mentions of the
      smaller scope only. */
  ghost predicate FixesWithin(t: string, xs: seq<Mention>, fewer: set<string>, i: nat)
    requires InOrder(t, xs) && i < |xs|
  {
    exists j: nat :: j <= i && FixingGap(Gap(t, xs, j)) && PassedOn(t, xs, fewer, j, i)
  }

  lemma FixesWithinStep(t: string, xs: seq<Mention>, fewer: set<string>, n: nat)
    requires InOrder(t, xs) && n < |xs|
    ensures FixesWithin(t, xs, fewer, n) <==>
              FixingGap(Gap(t, xs, n))
              || (n > 0 && IsSeparator(Gap(t, xs, n)) && xs[n - 1].key in fewer && FixesWithin(t, xs, fewer, n - 1))
  {
    if FixesWithin(t, xs, fewer, n) {
      var j: nat :| j <= n && FixingGap(Gap(t, xs, j)) && PassedOn(t, xs, fewer, j, n);
      if j < n { assert PassedOn(t, xs, fewer, j, n - 1); }
    }
    if FixingGap(Gap(t, xs, n)) { assert PassedOn(t, xs, fewer, n, n); }
    if n > 0 && IsSeparator(Gap(t, xs, n)) && xs[n - 1].key in fewer && FixesWithin(t, xs, fewer, n - 1) {
      var j: nat :| j <= n - 1 && FixingGap(Gap(t, xs, j)) && PassedOn(t, xs, fewer, j, n - 1);
      assert PassedOn(t, xs, fewer, j, n);
    }
  }

  // -------------------------------------------------------------------------
  // A keyword is never glued to a mention's text
  // -------------------------------------------------------------------------

  ghost predicate Ends(t: string, x: Mention) { x.end <= |t| && (x.end < |t| ==> !IsWord(t[x.end])) }

  /** No word character follows a mention's text: neither its number nor its time. */
  lemma NoWordAfterMention(t: string, m: Match)
    requires m.start < m.end <= |t| && MatchAt(t, m.start) == Some(m)
    ensures Ends(t, MentionOf(t, m))
  {
    var k, e := MessageRegexIsScanner(t, m.start);
    if TimeMatch(t, m.end).Some? { var at, d, u := TimeRegexIsScanner(t, m.end); }
  }

  lemma ShapeOfWhole(gap: string, cut: nat, s: nat, e: nat, a: nat)
    requires 0 < cut < |gap| && !IsWord(gap[cut]) && KeywordShape(gap[cut..], s, e, a) && IsWord(gap[cut..][s])
    ensures KeywordShape(gap, cut + s, cut + e, cut + a)
  {
    var shorter := gap[cut..];
    assert forall i :: 0 <= i < |shorter| ==> shorter[i] == gap[cut + i];
    assert DollarAt(shorter) == DollarAt(gap) - cut;
    assert s > 0;
    assert BoundaryAt(gap, cut + s) && BoundaryAt(gap, cut + e);
  }

  /** The converse of `FixingGapSuffix`. */
  lemma FixingGapWhole(gap: string, cut: nat)
    requires 0 < cut <= |gap| && (cut < |gap| ==> !IsWord(gap[cut])) && FixingGap(gap[cut..])
    ensures FixingGap(gap)
  {
    var shorter := gap[cut..];
    var s: nat, e: nat, a: nat :| KeywordShape(shorter, s, e, a) && LowerText(shorter[s..e]) in FIXING_WORDS;
    WordsAreLetters(shorter[s..e]);
    assert shorter[s] == shorter[s..e][0];
    ShapeOfWhole(gap, cut, s, e, a);
    assert gap[cut + s..cut + e] == shorter[s..e];
  }

  // -------------------------------------------------------------------------
  // Mention by mention
  // -------------------------------------------------------------------------

  /** `ms'` are the mentions of `ms` whose keys are in `fewer`, at `at`. */
  ghost predicate Selects(t: string, ms': seq<Mention>, ms: seq<Mention>, at: seq<nat>, fewer: set<string>) {
    && Nested(t, ms', ms, at) && (forall m :: m in ms ==> Ends(t, m))
    && (forall i :: 0 <= i < |ms| ==> (ms[i].key in fewer <==> i in at))
  }

  lemma AtLeastAfter(t: string, ms': seq<Mention>, ms: seq<Mention>, at: seq<nat>, i: nat)
    requires Nested(t, ms', ms, at) && i < |ms'|
    ensures After(at, i) <= at[i]
  {}

  /** Right before mention `i` of the smaller scope stands the previous one of it. */
  lemma AdjacentMention(t: string, ms': seq<Mention>, ms: seq<Mention>, at: seq<nat>, fewer: set<string>, i: nat)
    requires Selects(t, ms', ms, at, fewer) && i < |ms'| && After(at, i) == at[i]
    ensures Gap(t, ms, at[i]) == Gap(t, ms', i)
    ensures if i == 0 then at[i] == 0 else at[i] == at[i - 1] + 1 && ms[at[i - 1]].key in fewer
  {
    assert i > 0 ==> at[i - 1] in at;
  }

  /** Or one that is out of its scope. */
  lemma SkippedMention(t: string, ms': seq<Mention>, ms: seq<Mention>, at: seq<nat>, fewer: set<string>, i: nat)
    requires Selects(t, ms', ms, at, fewer) && i < |ms'| && After(at, i) < at[i]
    ensures ms[at[i] - 1].key !in fewer
  {
    forall k | 0 <= k < |at| ensures at[k] != at[i] - 1 {
      if k < i { assert at[k] <= at[i - 1]; }
    }
  }

  /** A gap between mentions of the smaller scope ends in a fixing word exactly when the
      last gap of the larger scope inside it does. */
  lemma SameFixingGap(t: string, ms': seq<Mention>, ms: seq<Mention>, at: seq<nat>, fewer: set<string>, i: nat)
    requires Selects(t, ms', ms, at, fewer) && i < |ms'| && After(at, i) < at[i]
    ensures FixingGap(Gap(t, ms', i)) <==> FixingGap(Gap(t, ms, at[i]))
    ensures !IsSeparator(Gap(t, ms', i))
  {
    var gap := Gap(t, ms', i);
    var cut := MentionInside(t, ms', ms, at, i);
    if FixingGap(gap) { FixingGapSuffix(gap, cut); }
    var m := ms[at[i] - 1];
    assert m in ms;
    assert cut < |gap| ==> gap[cut] == t[m.end];
    if FixingGap(Gap(t, ms, at[i])) { FixingGapWhole(gap, cut); }
  }

  /** After a skipped mention only the gap itself can fix, in either scope. */
  lemma OnlyTheGapFixes(t: string, xs: seq<Mention>, n: nat)
    requires InOrder(t, xs) && n < |xs| && !IsSeparator(Gap(t, xs, n))
    ensures FixesAt(t, xs, n) <==> FixingGap(Gap(t, xs, n))
  {
    FixesAtStep(t, xs, n);
  }

  lemma OnlyTheGapFixesWithin(t: string, xs: seq<Mention>, fewer: set<string>, n: nat)
    requires InOrder(t, xs) && 0 < n < |xs| && xs[n - 1].key !in fewer
    ensures FixesWithin(t, xs, fewer, n) <==> FixingGap(Gap(t, xs, n))
  {
    FixesWithinStep(t, xs, fewer, n);
  }

  lemma SameFixesSkipped(t: string, ms': seq<Mention>, ms: seq<Mention>, at: seq<nat>, fewer: set<string>, i: nat)
    requires Selects(t, ms', ms, at, fewer) && i < |ms'| && After(at, i) < at[i]
    ensures FixesAt(t, ms', i) <==> FixesWithin(t, ms, fewer, at[i])
  {
    SkippedMention(t, ms', ms, at, fewer, i);
    SameFixingGap(t, ms', ms, at, fewer, i);
    OnlyTheGapFixes(t, ms', i);
    OnlyTheGapFixesWithin(t, ms, fewer, at[i]);
  }

  lemma SameFixesAdjacent(t: string, ms': seq<Mention>, ms: seq<Mention>, at: seq<nat>, fewer: set<string>, i: nat)
    requires Selects(t, ms', ms, at, fewer) && i < |ms'| && After(at, i) == at[i]
    requires i > 0 ==> (FixesAt(t, ms', i - 1) <==> FixesWithin(t, ms, fewer, at[i - 1]))
    ensures FixesAt(t, ms', i) <==> FixesWithin(t, ms, fewer, at[i])
  {
    FixesAtStep(t, ms', i);
    FixesWithinStep(t, ms, fewer, at[i]);
    AdjacentMention(t, ms', ms, at, fewer, i);
  }

  lemma {:induction false} SameFixes(t: string, ms': seq<Mention>, ms: seq<Mention>, at: seq<nat>,
                                     fewer: set<string>, i: nat)
    requires Selects(t, ms', ms, at, fewer) && i < |ms'|
    ensures FixesAt(t, ms', i) <==> FixesWithin(t, ms, fewer, at[i])
  {
    if i > 0 { SameFixes(t, ms', ms, at, fewer, i - 1); }
    AtLeastAfter(t, ms', ms, at, i);
    if After(at, i) < at[i] {
      SameFixesSkipped(t, ms', ms, at, fewer, i);
    } else {
      SameFixesAdjacent(t, ms', ms, at, fewer, i);
    }
  }

  // -------------------------------------------------------------------------
  // The mentions of the two scopes
  // -------------------------------------------------------------------------

  lemma MentionsEnd(t: string, known: set<string>)
    ensures forall x :: x in MentionsOf(t, known) ==> Ends(t, x)
  {
    MentionsWithin(InMessage, t, known);
    MentionsInOrder(t, known);
    var ms := Mentions(InMessage, t, known);
    forall i | 0 <= i < |ms| ensures Ends(t, MentionsOf(t, known)[i]) {
      AnnotateAt(t, ms, i);
      NoWordAfterMention(t, ms[i]);
    }
  }

  /** The matches of the smaller scope are those of the larger one with keys in it. */
  lemma SelectedMatches(t: string, known: set<string>, fewer: set<string>, m: Match)
    requires fewer <= known && m in Mentions(InMessage, t, known)
    ensures m in Mentions(InMessage, t, fewer) <==> m.key in fewer
  {
    ScopedMentions(t, known, fewer);
    ScopedKeepsWithin(InMessage, t, Mentions(InMessage, t, known), fewer);
  }

  lemma SelectedMentions(t: string, known: set<string>, fewer: set<string>, at: seq<nat>, i: nat)
    requires fewer <= known && Nested(t, MentionsOf(t, fewer), MentionsOf(t, known), at) && i < |MentionsOf(t, known)|
    ensures MentionsOf(t, known)[i].key in fewer <==> i in at
  {
    MentionsWithin(InMessage, t, known);
    MentionsWithin(InMessage, t, fewer);
    var ms, ms' := Mentions(InMessage, t, known), Mentions(InMessage, t, fewer);
    AnnotateAt(t, ms, i);
    SelectedMatches(t, known, fewer, ms[i]);
    if ms[i].key in fewer {
      var k :| 0 <= k < |ms'| && ms'[k] == ms[i];
      AnnotateAt(t, ms', k);
      assert MentionsOf(t, known)[at[k]].start == MentionsOf(t, known)[i].start;
    }
    if k :| 0 <= k < |at| && at[k] == i { SelectedKey(t, known, fewer, k); }
  }

  lemma SelectedKey(t: string, known: set<string>, fewer: set<string>, k: nat)
    requires fewer <= known && k < |MentionsOf(t, fewer)|
    ensures MentionsOf(t, fewer)[k].key in fewer
  {
    MentionsWithin(InMessage, t, fewer);
    ScopedMentions(t, known, fewer);
    var ms' := Mentions(InMessage, t, fewer);
    AnnotateAt(t, ms', k);
    ScopedKeepsWithin(InMessage, t, Mentions(InMessage, t, known), fewer);
    assert ms'[k] in ms';
  }

  lemma ScopeSelects(t: string, known: set<string>, fewer: set<string>) returns (at: seq<nat>)
    requires fewer <= known
    ensures Selects(t, MentionsOf(t, fewer), MentionsOf(t, known), at, fewer)
  {
    at := MentionsEmbed(t, known, fewer);
    MentionsInOrder(t, known);
    MentionsInOrder(t, fewer);
    MentionsEnd(t, known);
    forall i | 0 <= i < |MentionsOf(t, known)| ensures MentionsOf(t, known)[i].key in fewer <==> i in at {
      SelectedMentions(t, known, fewer, at, i);
    }
  }

  /** Mentions with one display key have one key. */
  lemma SameKey(t: string, known: set<string>, i: nat, j: nat)
    requires i < |MentionsOf(t, known)| && j < |MentionsOf(t, known)|
    requires MentionsOf(t, known)[i].DisplayKey() == MentionsOf(t, known)[j].DisplayKey()
    ensures MentionsOf(t, known)[i].key == MentionsOf(t, known)[j].key
  {
    var xs := MentionsOf(t, known);
    MentionKeysDashFree(t, known);
    MentionIssuesAt(xs, i);
    MentionIssuesAt(xs, j);
    assert MentionIssues(xs)[i] in MentionIssues(xs) && MentionIssues(xs)[j] in MentionIssues(xs);
    DisplayKeyIsInjective(xs[i].key, xs[i].number, xs[j].key, xs[j].number);
  }

  // -------------------------------------------------------------------------
  // Main result
  // -------------------------------------------------------------------------

  /** A reference is `fixes` in the smaller scope if and only if some mention of its issue
      takes `fixes` from a gap through mentions of the smaller scope alone. Everything here
      is read off the larger scope. */
  lemma SmallerScopeFixesIff(t: string, known: set<string>, fewer: set<string>, r: Ref)
    requires fewer <= known && r in Extract(t, fewer)
    ensures InOrder(t, MentionsOf(t, known))
    ensures var xs := MentionsOf(t, known);
      r.keyword == Fixing <==>
      exists i :: 0 <= i < |xs| && xs[i].DisplayKey() == r.DisplayKey() && FixesWithin(t, xs, fewer, i)
  {
    ExtractMeetsSpec(t, fewer);
    var at := ScopeSelects(t, known, fewer);
    var xs, xs' := MentionsOf(t, known), MentionsOf(t, fewer);
    if i' :| 0 <= i' < |xs'| && xs'[i'].DisplayKey() == r.DisplayKey() && FixesAt(t, xs', i') {
      SameFixes(t, xs', xs, at, fewer, i');
      assert xs[at[i']].DisplayKey() == r.DisplayKey();
    }
    if i :| 0 <= i < |xs| && xs[i].DisplayKey() == r.DisplayKey() && FixesWithin(t, xs, fewer, i) {
      var i' := MentionInSmaller(t, known, fewer, at, r, i);
      SameFixes(t, xs', xs, at, fewer, i');
    }
  }

  lemma MentionInSmaller(t: string, known: set<string>, fewer: set<string>, at: seq<nat>, r: Ref, i: nat)
    returns (i': nat)
    requires fewer <= known && r in Extract(t, fewer)
        && Selects(t, MentionsOf(t, fewer), MentionsOf(t, known), at, fewer)
    requires i < |MentionsOf(t, known)| && MentionsOf(t, known)[i].DisplayKey() == r.DisplayKey()
    ensures i' < |at| && at[i'] == i && MentionsOf(t, fewer)[i'].DisplayKey() == r.DisplayKey()
  {
    var xs, xs' := MentionsOf(t, known), MentionsOf(t, fewer);
    var k := MentionOfRef(t, fewer, r);
    SameKey(t, known, at[k], i);
    SelectedKey(t, known, fewer, k);
    i' :| 0 <= i' < |at| && at[i'] == i;
  }

  lemma MentionOfRef(t: string, known: set<string>, r: Ref) returns (k: nat)
    requires r in Extract(t, known)
    ensures k < |MentionsOf(t, known)| && MentionsOf(t, known)[k].DisplayKey() == r.DisplayKey()
  {
    ExtractMeetsSpec(t, known);
    var xs := MentionsOf(t, known);
    DistinctKeysInOrder(MentionKeys(xs));
    var n :| 0 <= n < |Extract(t, known)| && Extract(t, known)[n] == r;
    assert KeysOf(Extract(t, known))[n] == r.DisplayKey();
    assert r.DisplayKey() in MentionKeys(xs);
    k :| 0 <= k < |MentionKeys(xs)| && MentionKeys(xs)[k] == r.DisplayKey();
  }

  // -------------------------------------------------------------------------
  // A reference that loses `fixes`
  // -------------------------------------------------------------------------

  const LIST := [Item(false, "A", 1, None), Item(false, "B", 2, None), Item(false, "A", 3, None)]

  function ListMessage(): string { PrintMessage(LIST, [", ", ", "]) }

  lemma ListMessageText()
    ensures ListMessage() == "Fixes A-1, B-2, A-3"
  {
    assert LIST[1..][0] == LIST[1] && LIST[1..][1..] == [LIST[2]];
    assert [LIST[2]][1..] == [];
    PrintedPlainly("A", 1, '1');
    PrintedPlainly("B", 2, '2');
    PrintedPlainly("A", 3, '3');
    assert "A" + "-" + "1" == "A-1" && "B" + "-" + "2" == "B-2" && "A" + "-" + "3" == "A-3";
    assert PrintItems([LIST[2]]) == ["A-3"];
    assert PrintItems(LIST[1..]) == ["B-2", "A-3"];
    assert PrintItems(LIST) == ["A-1", "B-2", "A-3"];
    assert ["A-1", "B-2", "A-3"][1..] == ["B-2", "A-3"] && ["B-2", "A-3"][1..] == ["A-3"];
    assert [", ", ", "][1..] == [", "] && [", "][1..] == [];
    assert Join(["A-3"], []) == "A-3";
    assert Join(["B-2", "A-3"], [", "]) == "B-2, A-3";
  }

  lemma PrintedPlainly(key: string, n: nat, digit: char)
    requires n < 10 && digit == '0' + n as char
    ensures PrintItem(Item(false, key, n, None)) == key + "-" + [digit]
  {
    assert Decimal(n) == [digit];
    assert "" + key == key && key + "-" + [digit] + "" == key + "-" + [digit];
  }

  lemma ListIsValid()
    ensures forall x :: x in LIST ==> ValidItem(x) && x.key in {"A", "B"}
    ensures forall s :: s in [", ", ", "] ==> ValidSeparator(s)
    ensures DistinctItems(LIST)
  {
    assert SeparatorFrom(", ", 2);
    assert SeparatorFrom(", ", 1);
  }

  /** In scope {A, B} every reference fixes; in scope {A} the last one does not, since B-2,
      through which it took the word, is no longer a reference. */
  lemma OutOfScopeBreaksTheList()
    ensures Extract("Fixes A-1, B-2, A-3", {"A", "B"})
         == [Ref("A", 1, Fixing, None), Ref("B", 2, Fixing, None), Ref("A", 3, Fixing, None)]
    ensures Ref("A", 3, Referencing, None) in Extract("Fixes A-1, B-2, A-3", {"A"})
  {
    var t := ListMessage();
    ListMessageText();
    ListIsValid();
    PrintThenExtract(t, LIST, [", ", ", "], {"A", "B"});
    ExpectedAt(LIST, 0);
    ExpectedAt(LIST, 1);
    ExpectedAt(LIST, 2);
    var refs := Extract(t, {"A"});
    SmallerScopeFilters(t, {"A", "B"}, {"A"});
    ListIssues();
    IssuesAt(refs, 1);
    LastIsNotFixing(t, refs[1]);
  }

  lemma ListIssues()
    ensures InKeys(Issues(Expected(LIST)), {"A"}) == [Issue("A", 1, None), Issue("A", 3, None)]
  {
    var xs := [Issue("A", 1, None), Issue("B", 2, None), Issue("A", 3, None)];
    assert Issues(Expected(LIST)) == xs by {
      forall k | 0 <= k < 3 ensures Issues(Expected(LIST))[k] == xs[k] {
        ExpectedAt(LIST, k);
        IssuesAt(Expected(LIST), k);
      }
    }
    assert xs[1..] == [Issue("B", 2, None), Issue("A", 3, None)];
    assert xs[1..][1..] == [Issue("A", 3, None)] && [Issue("A", 3, None)][1..] == [];
  }

  lemma LastIsNotFixing(t: string, r: Ref)
    requires t == ListMessage() && r in Extract(t, {"A"}) && r.key == "A" && r.number == 3
    ensures r.keyword == Referencing
  {
    var xs := MentionsOf(t, {"A", "B"});
    ListMentions(t);
    SmallerScopeFixesIff(t, {"A", "B"}, {"A"}, r);
    OnlyTheGapFixesWithin(t, xs, {"A"}, 2);
    forall i | 0 <= i < |xs| && xs[i].DisplayKey() == r.DisplayKey() ensures i == 2 { ItIsTheLast(xs[i], i, r); }
  }

  lemma ItIsTheLast(x: Mention, i: nat, r: Ref)
    requires i < 3 && x.key == LIST[i].key && x.number == LIST[i].number
    requires x.DisplayKey() == r.DisplayKey() && r.key == "A" && r.number == 3
    ensures i == 2
  {
    DisplayKeyIsInjective(x.key, x.number, r.key, r.number);
  }

  lemma ListMentions(t: string)
    requires t == ListMessage()
    ensures var xs := MentionsOf(t, {"A", "B"});
      && InOrder(t, xs) && |xs| == 3
      && (forall k :: 0 <= k < 3 ==> xs[k].key == LIST[k].key && xs[k].number == LIST[k].number)
      && !FixingGap(Gap(t, xs, 2))
  {
    ListIsValid();
    PrintedPieces(t, LIST, [", ", ", "]);
    assert t[5] == t[0..6][5];
    MessageMentions(t, LIST, [", ", ", "], {"A", "B"});
    ReadsAt(t, MentionsOf(t, {"A", "B"}), LIST);
    SeparatorIsNoFixingGap(Gap(t, MentionsOf(t, {"A", "B"}), 2));
  }

  lemma SeparatorIsNoFixingGap(gap: string)
    requires IsSeparator(gap)
    ensures !FixingGap(gap)
  {
    SeparatorHasNoKeyword(gap);
    if s: nat, e: nat, a: nat :| KeywordShape(gap, s, e, a) && LowerText(gap[s..e]) in FIXING_WORDS {
      KeywordScannerIsRegex(gap, s, e, a);
    }
  }
}
