/** No match is missed: what `finditer` yields is every place where the expression matches,
    and so what is extracted can be said without the search. */
module RefsMatches {
  import opened Wrappers
  import opened Ascii
  import opened RefScanner
  import opened Refs
  import opened RefsSpec
  import opened RefsScope

  // -------------------------------------------------------------------------
  // Matches never overlap
  // -------------------------------------------------------------------------

  lemma NoMessageMatchInside(t: string, m: Match, i: nat)
    requires m.start < i < m.end <= |t| && MatchAt(t, m.start) == Some(m)
    ensures MatchAt(t, i).None?
  {
    var k, e := MessageRegexIsScanner(t, m.start);
    if i <= e {
      assert i > k ==> IsKeyChar(t[i - 1]);
    } else {
      assert i > e + 1 ==> IsDigit(t[i - 1]);
    }
    assert IsGlue(t[i - 1]);
  }

  lemma NoBranchMatchInside(t: string, m: Match, i: nat)
    requires m.start < i < m.end <= |t| && BranchMatchAt(t, m.start) == Some(m)
    ensures BranchMatchAt(t, i).None?
  {
    var e := BranchRegexIsScanner(t, m.start);
    if i <= e {
      assert IsAlnum(t[i - 1]);
    } else {
      assert IsDigit(t[i]) && (i > e + 1 ==> IsDigit(t[i - 1]));
    }
  }

  lemma NoMatchInside(p: Pattern, t: string, m: Match, i: nat)
    requires m.start < i < m.end <= |t| && At(p, t, m.start) == Some(m)
    ensures At(p, t, i).None?
  {
    if p.InMessage? { NoMessageMatchInside(t, m, i); } else { NoBranchMatchInside(t, m, i); }
  }

  /** From `pos` on the search yields every match. */
  lemma {:induction false} SearchFindsAll(p: Pattern, t: string, pos: nat, i: nat)
    requires pos <= i <= |t| && At(p, t, i).Some?
    ensures At(p, t, i).value in MatchesFrom(p, t, Next(p, t, pos))
    decreases |t| - pos
  {
    NextIsFirst(p, t, pos);
    var m := Next(p, t, pos).value;
    if i > m.start {
      if i < m.end { NoMatchInside(p, t, m, i); }
      SearchFindsAll(p, t, m.end, i);
    }
  }

  lemma {:induction false} SearchFindsMatches(p: Pattern, t: string, pos: nat, m: Match)
    requires pos <= |t| && m in MatchesFrom(p, t, Next(p, t, pos))
    ensures m.start <= |t| && At(p, t, m.start) == Some(m)
    decreases |t| - pos
  {
    NextIsFirst(p, t, pos);
    var first := Next(p, t, pos).value;
    if m != first { SearchFindsMatches(p, t, first.end, m); }
  }

  /** The in-scope mentions of a text are exactly the places where the expression matches a
      key of the scope with a number other than zero. */
  lemma MentionsAreMatches(p: Pattern, t: string, known: set<string>, m: Match)
    ensures m in Mentions(p, t, known)
        <==> m.start <= |t| && At(p, t, m.start) == Some(m) && IssueKey(p, m) in known && Int(m.number) != 0
  {
    ScopedKeepsWithinAll(p, t, known, m);
    if m.start <= |t| && At(p, t, m.start) == Some(m) { SearchFindsAll(p, t, 0, m.start); }
    if m in MatchesFrom(p, t, Next(p, t, 0)) { SearchFindsMatches(p, t, 0, m); }
  }

  lemma ScopedKeepsWithinAll(p: Pattern, t: string, known: set<string>, m: Match)
    ensures m in Mentions(p, t, known) <==> m in MatchesFrom(p, t, Next(p, t, 0)) && InScope(p, m, known)
  {
    MatchesWithin(p, t, Next(p, t, 0));
    ScopedKeepsWithin(p, t, MatchesFrom(p, t, Next(p, t, 0)), known);
  }

  /** The search runs from left to right. */
  lemma {:induction false} MatchesAscend(p: Pattern, t: string, pos: nat, known: set<string>)
    requires pos <= |t|
    ensures var ms := Scoped(p, MatchesFrom(p, t, Next(p, t, pos)), known);
      && (forall m :: m in ms ==> pos <= m.start < m.end <= |t|)
      && (forall i, j :: 0 <= i < j < |ms| ==> ms[i].end <= ms[j].start)
    decreases |t| - pos
  {
    var next := Next(p, t, pos);
    if next.Some? {
      var m := next.value;
      MatchesAscend(p, t, m.end, known);
      var rest := Scoped(p, MatchesFrom(p, t, Next(p, t, m.end)), known);
      assert MatchesFrom(p, t, next)[1..] == MatchesFrom(p, t, Next(p, t, m.end));
      assert Scoped(p, MatchesFrom(p, t, next), known) == Refs.Kept(p, m, known) + rest;
    }
  }

  // -------------------------------------------------------------------------
  // Branch names
  // -------------------------------------------------------------------------

  /** Somewhere in the branch the expression matches the issue, in either case. */
  ghost predicate NamedInBranch(t: string, key: string, number: nat) {
    exists i: nat, e: nat, n: nat ::
      BranchRegex(t, i, e, n) && UpperText(t[i..e]) == key && Int(t[e + 1..n]) == number
  }

  lemma {:induction false} MergedFrom(refs: seq<Ref>, r: Ref) returns (f: Ref)
    requires r in Merged(refs)
    ensures f in refs && f.key == r.key && f.number == r.number
  {
    var before, last := refs[..|refs| - 1], refs[|refs| - 1];
    var g := MergeFrom(Merged(before), last, r);
    if g == last { f := last; } else { f := MergedFrom(before, g); }
  }

  lemma {:induction false} MergeFrom(acc: seq<Ref>, last: Ref, r: Ref) returns (f: Ref)
    requires r in Merge(acc, last)
    ensures (f in acc || f == last) && f.key == r.key && f.number == r.number
  {
    if acc == [] {
      f := last;
    } else if acc[0].DisplayKey() == last.DisplayKey() {
      f := if r == Combine(acc[0], last) then last else r;
    } else if r == acc[0] {
      f := r;
    } else {
      f := MergeFrom(acc[1..], last, r);
    }
  }

  lemma MentionIsNamed(t: string, known: set<string>, m: Match)
    requires m in Mentions(InBranch, t, known)
    ensures NamedInBranch(t, UpperText(m.key), Int(m.number)) && UpperText(m.key) in known && Int(m.number) > 0
    ensures DashFree(UpperText(m.key))
  {
    MentionsAreMatches(InBranch, t, known, m);
    var e := BranchRegexIsScanner(t, m.start);
    BranchNumber(t, m, e);
    assert BranchRegex(t, m.start, e, m.end);
    TokenHasNoDash(t, m.start, e);
  }

  lemma TokenHasNoDash(t: string, i: nat, e: nat)
    requires i < e <= |t| && IsLetter(t[i]) && AllIn(t, i + 1, e, IsAlnum)
    ensures DashFree(UpperText(t[i..e]))
  {
    forall j | 0 <= j < e - i ensures UpperText(t[i..e])[j] != '-' { assert IsAlnum(t[i + j]); }
  }

  lemma BranchNumber(t: string, m: Match, e: nat)
    requires m.start <= |t| && BranchMatchAt(t, m.start) == Some(m) && BranchRegex(t, m.start, e, m.end)
    ensures m.number == t[e + 1..m.end] && m.key == t[m.start..e]
  {
    BranchScannerIsRegex(t, m.start, e, m.end);
  }

  lemma NamedIsMention(t: string, known: set<string>, key: string, number: nat) returns (m: Match)
    requires NamedInBranch(t, key, number) && key in known && number > 0
    ensures m in Mentions(InBranch, t, known) && UpperText(m.key) == key && Int(m.number) == number
  {
    var i: nat, e: nat, n: nat :| BranchRegex(t, i, e, n) && UpperText(t[i..e]) == key && Int(t[e + 1..n]) == number;
    BranchScannerIsRegex(t, i, e, n);
    m := Match(i, n, t[i..e], t[e + 1..n]);
    MentionsAreMatches(InBranch, t, known, m);
  }

  lemma FoundFrom(ms: seq<Match>, f: Ref) returns (m: Match)
    requires f in FoundInBranch(ms)
    ensures m in ms && f == Ref(UpperText(m.key), Int(m.number), Referencing, None)
  {
    var i :| 0 <= i < |ms| && FoundInBranch(ms)[i] == f;
    m := ms[i];
  }

  /** `extract_branch_refs`, for every branch and scope: a reference to an issue, claiming
      nothing and logging nothing, exactly for every key in scope with a positive number
      that stands in the branch as its own token, in either case. */
  lemma BranchMeetsSpec(t: string, known: set<string>, key: string, number: nat)
    ensures Ref(key, number, Referencing, None) in ExtractBranch(t, known)
        <==> key in known && number > 0 && NamedInBranch(t, key, number)
  {
    var ms := Mentions(InBranch, t, known);
    var found := FoundInBranch(ms);
    if Ref(key, number, Referencing, None) in ExtractBranch(t, known) {
      var f := MergedFrom(found, Ref(key, number, Referencing, None));
      var m := FoundFrom(ms, f);
      MentionIsNamed(t, known, m);
    }
    if key in known && number > 0 && NamedInBranch(t, key, number) {
      var m := NamedIsMention(t, known, key, number);
      NamedIsExtracted(t, known, key, number, m);
    }
  }

  lemma NamedIsExtracted(t: string, known: set<string>, key: string, number: nat, m: Match)
    requires m in Mentions(InBranch, t, known) && UpperText(m.key) == key && Int(m.number) == number
    ensures Ref(key, number, Referencing, None) in ExtractBranch(t, known)
  {
    var ms := Mentions(InBranch, t, known);
    var found := FoundInBranch(ms);
    var i :| 0 <= i < |ms| && ms[i] == m;
    var r := RefWithKey(found, i);
    var f := MergedFrom(found, r);
    var n := FoundFrom(ms, f);
    MentionIsNamed(t, known, m);
    MentionIsNamed(t, known, n);
    DisplayKeyIsInjective(key, number, f.key, f.number);
    MergedStaysPlain(found);
    assert r == Ref(key, number, Referencing, None);
  }

  /** Every reference found is merged into one with its display key. */
  lemma RefWithKey(refs: seq<Ref>, i: nat) returns (r: Ref)
    requires i < |refs|
    ensures r in Merged(refs) && r.DisplayKey() == refs[i].DisplayKey()
  {
    MergedMeetsSpec(refs);
    DistinctKeysInOrder(KeysOf(refs));
    assert KeysOf(refs)[i] in KeysOf(refs);
    var n :| 0 <= n < |Merged(refs)| && KeysOf(Merged(refs))[n] == refs[i].DisplayKey();
    r := Merged(refs)[n];
  }

  /** Claiming nothing and logging nothing. */
  ghost predicate Plain(refs: seq<Ref>) { forall r :: r in refs ==> r.keyword == Referencing && r.hours.None? }

  lemma {:induction false} MergedStaysPlain(refs: seq<Ref>)
    requires Plain(refs)
    ensures Plain(Merged(refs))
  {
    if refs != [] {
      var before, last := refs[..|refs| - 1], refs[|refs| - 1];
      MergedStaysPlain(before);
      MergeStaysPlain(Merged(before), last);
    }
  }

  lemma {:induction false} MergeStaysPlain(acc: seq<Ref>, r: Ref)
    requires Plain(acc) && r.keyword == Referencing && r.hours.None?
    ensures Plain(Merge(acc, r))
  {
    if acc != [] { MergeStaysPlain(acc[1..], r); }
  }

  /** A branch name never claims to fix anything, and never logs time. */
  lemma BranchNeverFixes(branch: string, known: set<string>)
    ensures Plain(ExtractBranch(branch, known))
  {
    MergedStaysPlain(FoundInBranch(Mentions(InBranch, branch, known)));
  }

  /** The issues of a branch are listed once each, in the order in which they stand in it. */
  lemma BranchInOrder(t: string, known: set<string>)
    ensures var ms := Mentions(InBranch, t, known);
      && KeysOf(ExtractBranch(t, known)) == DistinctKeys(KeysOf(FoundInBranch(ms)))
      && forall i, j :: 0 <= i < j < |ms| ==> ms[i].end <= ms[j].start
  {
    MergedMeetsSpec(FoundInBranch(Mentions(InBranch, t, known)));
    MatchesAscend(InBranch, t, 0, known);
  }
}
