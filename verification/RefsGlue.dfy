/** Which separators keep a printed list apart: the round trip holds exactly for those
    that do not start or end in a word character, and are not empty. */
module RefsGlue {
  import opened Wrappers
  import opened Ascii
  import opened RefScanner
  import opened Refs
  import opened RefsSpec
  import opened RefsScope
  import opened RefsRoundTrip

  // -------------------------------------------------------------------------
  // Where the dashes are
  // -------------------------------------------------------------------------

  /** Where item `x`, printed at `i`, has its parts: the key starts at `k`, the dash is at
      `e`, the number ends at `n`, and the time ends at `done`. */
  datatype Parts = Parts(i: nat, k: nat, e: nat, n: nat, done: nat)

  ghost predicate PartsAt(t: string, x: Item, p: Parts) {
    && RefAt(t, p.i, p.k, p.e, p.n, x) && p.n <= p.done <= |t|
    && Stands(t, p.n, PrintTime(x.minutes)) && p.done == p.n + |PrintTime(x.minutes)|
  }

  lemma PartsOf(t: string, i: nat, x: Item, text: string) returns (p: Parts)
    requires text == PrintItem(x) && Stands(t, i, text)
    ensures PartsAt(t, x, p) && p.i == i && p.done == i + |text|
  {
    var ref, time := PiecesOfItem(t, i, x, text);
    RefStands(t, i, x, ref);
    var k := i + if x.hash then 1 else 0;
    p := Parts(i, k, k + |x.key|, i + |ref|, i + |text|);
    StandsSlice(t, i, text);
  }

  /** The characters of an item's text, part by part. */
  lemma PartChars(t: string, x: Item, p: Parts)
    requires ValidItem(x) && PartsAt(t, x, p)
    ensures p.i <= p.k < p.e < p.n <= p.done <= |t| && (p.k == p.i || (p.k == p.i + 1 && t[p.i] == '#'))
    ensures AllIn(t, p.k, p.e, IsKeyChar) && t[p.e] == '-' && AllIn(t, p.e + 1, p.n, IsDigit)
    ensures forall j :: p.n <= j < p.done ==> t[j] == ' ' || t[j] == '@' || IsDigit(t[j]) || t[j] == 'm'
    ensures p.n < p.done ==> t[p.n] == ' ' && t[p.n + 1] == '@' && t[p.done - 1] == 'm'
    ensures IsWord(t[p.done - 1])
  {
    KeyStands(t, p.k, x.key);
    DigitsStand(t, p.e + 1, x.number);
    if x.minutes.Some? {
      var digits := Decimal(x.minutes.value);
      TimePieces(t, p.n, digits, PrintTime(x.minutes));
      DigitsStand(t, p.n + 2, x.minutes.value);
    }
  }

  /** An item's text holds one dash. */
  lemma OneDash(t: string, x: Item, p: Parts, j: nat)
    requires ValidItem(x) && PartsAt(t, x, p) && p.i <= j < p.done && t[j] == '-'
    ensures j == p.e
  {
    PartChars(t, x, p);
  }

  /** The parts of every item of a printed list, with its separators between. */
  ghost predicate ListAt(t: string, items: seq<Item>, seps: seq<string>, ps: seq<Parts>, k: nat)
    requires |ps| == |items| && |seps| == |items| - 1 && k < |items|
  {
    && ValidItem(items[k]) && PartsAt(t, items[k], ps[k])
    && if k + 1 < |items| then IsSeparator(seps[k]) && Stands(t, ps[k].done, seps[k])
      && ps[k + 1].i == ps[k].done + |seps[k]|
       else ps[k].done == |t|
  }

  /** The parts of item `k`, at its place. */
  ghost predicate PartAtPlace(t: string, starts: seq<nat>, items: seq<Item>, k: nat, p: Parts)
    requires |starts| == |items| && k < |items|
  {
    PartsAt(t, items[k], p) && p.i == starts[k] && p.done == starts[k] + |PrintItems(items)[k]|
  }

  lemma ListPart(t: string, starts: seq<nat>, items: seq<Item>, seps: seq<string>, k: nat) returns (p: Parts)
    requires |starts| == |items| && |seps| == |items| - 1 && k < |items|
    requires PlacedAt(t, starts, PrintItems(items), seps, k)
    ensures PartAtPlace(t, starts, items, k, p)
  {
    PrintedText(items, k);
    p := PartsOf(t, starts[k], items[k], PrintItems(items)[k]);
  }

  /** The parts of the first `n` items. */
  lemma {:induction false} FirstParts(t: string, starts: seq<nat>, items: seq<Item>, seps: seq<string>, n: nat)
    returns (ps: seq<Parts>)
    requires |starts| == |items| && |seps| == |items| - 1 && n <= |items|
    requires forall j :: 0 <= j < |items| ==> PlacedAt(t, starts, PrintItems(items), seps, j)
    ensures |ps| == n && forall j :: 0 <= j < n ==> PartAtPlace(t, starts, items, j, ps[j])
  {
    ps := [];
    if n > 0 {
      ps := FirstParts(t, starts, items, seps, n - 1);
      assert PlacedAt(t, starts, PrintItems(items), seps, n - 1);
      var p := ListPart(t, starts, items, seps, n - 1);
      ps := ps + [p];
    }
  }

  lemma OneListAt(t: string, items: seq<Item>, seps: seq<string>, ps: seq<Parts>, k: nat)
    requires |ps| == |items| && |seps| == |items| - 1 && k < |items|
    requires ValidItem(items[k]) && PartsAt(t, items[k], ps[k])
    requires if k + 1 < |items| then IsSeparator(seps[k]) && Stands(t, ps[k].done, seps[k])
        && ps[k + 1].i == ps[k].done + |seps[k]|
             else ps[k].done == |t|
    ensures ListAt(t, items, seps, ps, k)
  {}

  lemma AfterPlace(t: string, starts: seq<nat>, texts: seq<string>, seps: seq<string>, k: nat, done: nat)
    requires |starts| == |texts| && |seps| == |texts| - 1 && k < |texts|
    requires PlacedAt(t, starts, texts, seps, k) && done == starts[k] + |texts[k]|
    ensures if k + 1 < |texts| then Stands(t, done, seps[k]) && starts[k + 1] == done + |seps[k]| else done == |t|
  {}

  lemma ListParts(t: string, i: nat, items: seq<Item>, seps: seq<string>) returns (ps: seq<Parts>)
    requires items != [] && |seps| == |items| - 1
    requires forall x :: x in items ==> ValidItem(x)
    requires forall s :: s in seps ==> IsSeparator(s)
    requires i <= |t| && t[i..] == Join(PrintItems(items), seps)
    ensures |ps| == |items| && ps[0].i == i && forall k :: 0 <= k < |items| ==> ListAt(t, items, seps, ps, k)
  {
    var texts := PrintItems(items);
    var starts := JoinedIsPlaced(t, i, texts, seps);
    ps := FirstParts(t, starts, items, seps, |items|);
    forall k | 0 <= k < |items| ensures ListAt(t, items, seps, ps, k) {
      AfterPlace(t, starts, texts, seps, k, ps[k].done);
      assert PartAtPlace(t, starts, items, k, ps[k]);
      assert k + 1 < |items| ==> PartAtPlace(t, starts, items, k + 1, ps[k + 1]);
      OneListAt(t, items, seps, ps, k);
    }
    assert PartAtPlace(t, starts, items, 0, ps[0]);
  }

  /** Every dash from item `k` on is the dash of an item. */
  lemma {:induction false} DashOfItem(t: string, items: seq<Item>, seps: seq<string>, ps: seq<Parts>, k: nat, j: nat)
    returns (l: nat)
    requires |ps| == |items| && |seps| == |items| - 1 && k < |items|
    requires forall k :: 0 <= k < |items| ==> ListAt(t, items, seps, ps, k)
    requires ps[k].i <= j < |t| && t[j] == '-'
    ensures k <= l < |items| && j == ps[l].e
    decreases |items| - k
  {
    assert ListAt(t, items, seps, ps, k);
    if j < ps[k].done {
      OneDash(t, items[k], ps[k], j);
      l := k;
    } else {
      if j < ps[k].done + |seps[k]| { NoDashInSeparator(t, ps[k].done, seps[k], j); }
      l := DashOfItem(t, items, seps, ps, k + 1, j);
    }
  }

  lemma NoDashInSeparator(t: string, pos: nat, sep: string, j: nat)
    requires IsSeparator(sep) && Stands(t, pos, sep) && pos <= j < pos + |sep|
    ensures t[j] != '-'
  {
    StandsAt(t, pos, sep, j - pos);
    SeparatorHasNoDash(sep, 0, j - pos);
  }

  // -------------------------------------------------------------------------
  // As many mentions as items: each is the mention of its item
  // -------------------------------------------------------------------------

  /** The match `m` has its dash at `e`. */
  ghost predicate DashAt(t: string, m: Match, e: nat) {
    e >= |m.key| && MessageRegex(t, m.start, e - |m.key|, e, m.end) && m.key == t[e - |m.key|..e]
  }

  lemma DashOfMatch(t: string, m: Match) returns (e: nat)
    requires m.start < m.end <= |t| && MatchAt(t, m.start) == Some(m)
    ensures DashAt(t, m, e) && t[e] == '-' && m.start < e < m.end
  {
    var k;
    k, e := MessageRegexIsScanner(t, m.start);
  }

  ghost predicate InList(t: string, items: seq<Item>, seps: seq<string>, ps: seq<Parts>) {
    && items != [] && |ps| == |items| && |seps| == |items| - 1
    && (forall k :: 0 <= k < |items| ==> ListAt(t, items, seps, ps, k))
    && (forall j :: 0 <= j < ps[0].i && j < |t| ==> t[j] != '-')
  }

  lemma NextDash(t: string, items: seq<Item>, seps: seq<string>, ps: seq<Parts>, k: nat)
    requires InList(t, items, seps, ps) && k + 1 < |items|
    ensures ps[k].e < ps[k + 1].e
  {
    assert ListAt(t, items, seps, ps, k) && ListAt(t, items, seps, ps, k + 1);
    PartChars(t, items[k], ps[k]);
    PartChars(t, items[k + 1], ps[k + 1]);
  }

  lemma {:induction false} DashesAscend(t: string, items: seq<Item>, seps: seq<string>, ps: seq<Parts>, l: nat, k: nat)
    requires InList(t, items, seps, ps) && l < k < |items|
    ensures ps[l].e < ps[k].e
  {
    NextDash(t, items, seps, ps, k - 1);
    if l < k - 1 { DashesAscend(t, items, seps, ps, l, k - 1); }
  }

  lemma ItemOfMatch(t: string, items: seq<Item>, seps: seq<string>, ps: seq<Parts>, m: Match) returns (l: nat)
    requires InList(t, items, seps, ps) && m.start < m.end <= |t| && MatchAt(t, m.start) == Some(m)
    ensures l < |items| && DashAt(t, m, ps[l].e) && m.start < ps[l].e < m.end
  {
    var e := DashOfMatch(t, m);
    l := DashOfItem(t, items, seps, ps, 0, e);
  }

  /** Which item each match belongs to: one after the other. */
  ghost predicate Belong(t: string, ps: seq<Parts>, ms: seq<Match>, ls: seq<nat>) {
    && |ls| == |ms|
    && (forall i :: 0 <= i < |ls| ==> ls[i] < |ps| && DashAt(t, ms[i], ps[ls[i]].e))
    && (forall i, j :: 0 <= i < j < |ls| ==> ls[i] < ls[j])
  }

  ghost predicate Apart(t: string, ms: seq<Match>) {
    && (forall m :: m in ms ==> m.start < m.end <= |t| && MatchAt(t, m.start) == Some(m))
    && (forall i, j :: 0 <= i < j < |ms| ==> ms[i].end <= ms[j].start)
  }

  lemma LaterMatch(t: string, items: seq<Item>, seps: seq<string>, ps: seq<Parts>, a: Match, k: nat, b: Match, l: nat)
    requires InList(t, items, seps, ps) && k < |items| && l < |items| && a.end <= b.start
    requires DashAt(t, a, ps[k].e) && DashAt(t, b, ps[l].e)
    ensures k < l
  {
    if l < k { DashesAscend(t, items, seps, ps, l, k); }
  }

  lemma {:induction false} MatchesBelong(t: string, items: seq<Item>, seps: seq<string>, ps: seq<Parts>,
                                         ms: seq<Match>) returns (ls: seq<nat>)
    requires InList(t, items, seps, ps) && Apart(t, ms)
    ensures Belong(t, ps, ms, ls)
  {
    ls := [];
    if ms != [] {
      var before, last := ms[..|ms| - 1], ms[|ms| - 1];
      assert Apart(t, before);
      var earlier := MatchesBelong(t, items, seps, ps, before);
      var l := ItemOfMatch(t, items, seps, ps, last);
      forall i | 0 <= i < |earlier| ensures earlier[i] < l {
        LaterMatch(t, items, seps, ps, before[i], earlier[i], last, l);
      }
      ls := earlier + [l];
      OneMoreBelongs(t, ps, before, earlier, last, l);
      assert ms == before + [last];
    }
  }

  lemma OneMoreBelongs(t: string, ps: seq<Parts>, ms: seq<Match>, ls: seq<nat>, m: Match, l: nat)
    requires Belong(t, ps, ms, ls) && l < |ps| && DashAt(t, m, ps[l].e) && forall i :: 0 <= i < |ls| ==> ls[i] < l
    ensures Belong(t, ps, ms + [m], ls + [l])
  {}

  /** An increasing choice of `n` or more numbers below `n` is all of them. */
  lemma {:induction false} IncreasingIsAll(ls: seq<nat>, n: nat, i: nat)
    requires forall i :: 0 <= i < |ls| ==> ls[i] < n
    requires forall i, j :: 0 <= i < j < |ls| ==> ls[i] < ls[j]
    requires n <= |ls| && i < |ls|
    ensures |ls| == n && ls[i] == i
  {
    AtLeastIndex(ls, i);
    AtLeastIndex(ls, |ls| - 1);
    AtMostIndex(ls, i);
  }

  lemma {:induction false} AtLeastIndex(ls: seq<nat>, i: nat)
    requires i < |ls| && forall i, j :: 0 <= i < j < |ls| ==> ls[i] < ls[j]
    ensures i <= ls[i]
  {
    if i > 0 { AtLeastIndex(ls, i - 1); }
  }

  lemma {:induction false} AtMostIndex(ls: seq<nat>, i: nat)
    requires i < |ls| && forall i, j :: 0 <= i < j < |ls| ==> ls[i] < ls[j]
    ensures ls[i] + (|ls| - 1 - i) <= ls[|ls| - 1]
    decreases |ls| - i
  {
    if i + 1 < |ls| { AtMostIndex(ls, i + 1); }
  }

  /** Merging never lengthens a list, and keeps its length only when it changes nothing. */
  lemma {:induction false} MergedIsNoLonger(refs: seq<Ref>)
    ensures |Merged(refs)| <= |refs| && (|Merged(refs)| == |refs| ==> Merged(refs) == refs)
  {
    if refs != [] {
      var before, last := refs[..|refs| - 1], refs[|refs| - 1];
      MergedIsNoLonger(before);
      MergeIsNoLonger(Merged(before), last);
      assert refs == before + [last];
    }
  }

  lemma {:induction false} MergeIsNoLonger(acc: seq<Ref>, r: Ref)
    ensures |Merge(acc, r)| == |acc| || Merge(acc, r) == acc + [r]
  {
    if acc != [] { MergeIsNoLonger(acc[1..], r); }
  }

  // -------------------------------------------------------------------------
  // What such a mention says about the text around it
  // -------------------------------------------------------------------------

  /** The match at the dash of an item, with the item's key, starts where the item
      starts and ends where its number ends. */
  lemma MatchOfItem(t: string, x: Item, p: Parts, m: Match)
    requires ValidItem(x) && PartsAt(t, x, p) && DashAt(t, m, p.e) && m.key == x.key
    requires p.i > 0 ==> t[p.i - 1] != '#'
    requires p.n < |t| ==> !IsDigit(t[p.n])
    ensures m.start == p.i && m.end == p.n
  {
    PartChars(t, x, p);
    assert p.e - |m.key| == p.k;
  }

  /** A time that is read where a printed one stands is that time, to its end. */
  lemma TimeOfItem(t: string, x: Item, p: Parts)
    requires ValidItem(x) && PartsAt(t, x, p) && x.minutes.Some? && TimeMatch(t, p.n).Some?
    ensures TimeMayEnd(t, p.done)
  {
    var digits := Decimal(x.minutes.value);
    TimePieces(t, p.n, digits, PrintTime(x.minutes));
    DigitsStand(t, p.n + 2, x.minutes.value);
    MinutesEnd(t, p.n, |digits|);
  }

  lemma MinutesEnd(t: string, pos: nat, n: nat)
    requires pos + 2 + n < |t| && t[pos] == ' ' && t[pos + 1] == '@' && t[pos + 2 + n] == 'm'
    requires AllIn(t, pos + 2, pos + 2 + n, IsDigit) && TimeMatch(t, pos).Some?
    ensures TimeMayEnd(t, pos + 3 + n)
  {
    var at, d, m := TimeRegexIsScanner(t, pos);
    OnlyMinutes(t, pos, n, at, d, m, TimeMatch(t, pos).value.hundredths, TimeMatch(t, pos).value.end);
  }

  lemma OnlyMinutes(t: string, pos: nat, n: nat, at: nat, d: nat, m: nat, value: nat, end: nat)
    requires TimeRegex(t, pos, at, d, m, value, end)
    requires pos + 2 + n < |t| && t[pos] == ' ' && t[pos + 1] == '@' && t[pos + 2 + n] == 'm'
    requires AllIn(t, pos + 2, pos + 2 + n, IsDigit)
    ensures end == pos + 3 + n && TimeMayEnd(t, end)
  {
    assert at == pos + 1;
    assert d == pos + 2 + n;
  }

  lemma MentionsApart(t: string, known: set<string>)
    ensures Apart(t, Mentions(InMessage, t, known))
  {
    var ms := Mentions(InMessage, t, known);
    MentionsWithin(InMessage, t, known);
    MentionsInOrder(t, known);
    forall i, j | 0 <= i < j < |ms| ensures ms[i].end <= ms[j].start {
      AnnotateAt(t, ms, i);
      AnnotateAt(t, ms, j);
    }
  }

  /** Match `i` is the mention of item `i`. */
  ghost predicate Mentioned(t: string, items: seq<Item>, ps: seq<Parts>, ms: seq<Match>, i: nat)
    requires |ps| == |items| == |ms| && i < |items|
  {
    && DashAt(t, ms[i], ps[i].e) && ms[i].key == items[i].key && ms[i].end <= |t|
    && TimeAt(t, ms[i].end).0 == HoursFor(items[i].minutes)
  }

  lemma MatchesInTurn(t: string, items: seq<Item>, seps: seq<string>, ps: seq<Parts>, ms: seq<Match>)
    requires InList(t, items, seps, ps) && Apart(t, ms) && |ms| >= |items|
    ensures |ms| == |items| && forall i :: 0 <= i < |items| ==> DashAt(t, ms[i], ps[i].e)
  {
    var ls := MatchesBelong(t, items, seps, ps, ms);
    forall i | 0 <= i < |ls| ensures |ls| == |items| && ls[i] == i { IncreasingIsAll(ls, |items|, i); }
    assert |ls| > 0 && ls[0] == 0;
  }

  lemma FoundIsExtracted(t: string, known: set<string>)
    ensures Within(t, Mentions(InMessage, t, known))
    ensures var found := Found(t, Mentions(InMessage, t, known));
      |Extract(t, known)| <= |found| && (|Extract(t, known)| == |found| ==> found == Extract(t, known))
  {
    MentionsWithin(InMessage, t, known);
    MergedIsNoLonger(Found(t, Mentions(InMessage, t, known)));
  }

  lemma AsManyMatches(t: string, items: seq<Item>, seps: seq<string>, ps: seq<Parts>, known: set<string>)
    requires InList(t, items, seps, ps) && |Extract(t, known)| == |items|
    ensures var ms := Mentions(InMessage, t, known);
      && Within(t, ms) && |ms| == |items| && Found(t, ms) == Extract(t, known)
      && forall i :: 0 <= i < |items| ==> DashAt(t, ms[i], ps[i].e)
  {
    FoundIsExtracted(t, known);
    MentionsApart(t, known);
    MatchesInTurn(t, items, seps, ps, Mentions(InMessage, t, known));
  }

  lemma ItemsAreMentioned(t: string, items: seq<Item>, seps: seq<string>, ps: seq<Parts>, known: set<string>, i: nat)
    requires InList(t, items, seps, ps) && Extract(t, known) == Expected(items) && i < |items|
    ensures |Mentions(InMessage, t, known)| == |items| && Mentioned(t, items, ps, Mentions(InMessage, t, known), i)
  {
    var ms := Mentions(InMessage, t, known);
    AsManyMatches(t, items, seps, ps, known);
    FoundAgrees(t, known);
    AnnotateAt(t, ms, i);
    ExpectedAt(items, i);
  }

  // -------------------------------------------------------------------------
  // The characters around an item
  // -------------------------------------------------------------------------

  lemma BeforeItem(t: string, items: seq<Item>, seps: seq<string>, ps: seq<Parts>, k: nat)
    requires InList(t, items, seps, ps) && 0 < k < |items|
    ensures 0 < ps[k].i <= |t| && t[ps[k].i - 1] != '#'
    ensures if seps[k - 1] == "" then IsWord(t[ps[k].i - 1]) else t[ps[k].i - 1] == seps[k - 1][|seps[k - 1]| - 1]
  {
    var sep, done := seps[k - 1], ps[k - 1].done;
    assert ListAt(t, items, seps, ps, k - 1);
    PartChars(t, items[k - 1], ps[k - 1]);
    if sep != "" {
      StandsAt(t, done, sep, |sep| - 1);
      SeparatorChars(sep, 0, |sep| - 1);
    }
  }

  lemma AfterNumber(t: string, items: seq<Item>, seps: seq<string>, ps: seq<Parts>, k: nat)
    requires InList(t, items, seps, ps) && k < |items|
    ensures ps[k].n < |t| ==> !IsDigit(t[ps[k].n])
  {
    assert ListAt(t, items, seps, ps, k);
    PartChars(t, items[k], ps[k]);
    if ps[k].n == ps[k].done && k + 1 < |items| {
      if seps[k] != "" {
        StandsAt(t, ps[k].done, seps[k], 0);
        SeparatorChars(seps[k], 0, 0);
      } else {
        assert ListAt(t, items, seps, ps, k + 1);
        PartChars(t, items[k + 1], ps[k + 1]);
        KeyStands(t, ps[k + 1].k, items[k + 1].key);
      }
    }
  }

  lemma MatchStands(t: string, items: seq<Item>, seps: seq<string>, ps: seq<Parts>, ms: seq<Match>, k: nat)
    requires InList(t, items, seps, ps) && |ms| == |items| && k < |items| && Mentioned(t, items, ps, ms, k)
    requires ps[0].i > 0 ==> t[ps[0].i - 1] != '#'
    ensures ms[k].start == ps[k].i && ms[k].end == ps[k].n
  {
    assert ListAt(t, items, seps, ps, k);
    if k > 0 { BeforeItem(t, items, seps, ps, k); }
    AfterNumber(t, items, seps, ps, k);
    MatchOfItem(t, items[k], ps[k], ms[k]);
  }

  /** After an item that is read with its time stands no word character. */
  lemma NoWordAfter(t: string, items: seq<Item>, seps: seq<string>, ps: seq<Parts>, ms: seq<Match>, k: nat)
    requires InList(t, items, seps, ps) && |ms| == |items| && k < |items| && Mentioned(t, items, ps, ms, k)
    requires ms[k].end == ps[k].n
    ensures ps[k].done < |t| ==> !IsWord(t[ps[k].done])
  {
    assert ListAt(t, items, seps, ps, k);
    if items[k].minutes.Some? { TimeOfItem(t, items[k], ps[k]); }
  }

  lemma NoGlueBefore(t: string, items: seq<Item>, ps: seq<Parts>, ms: seq<Match>, k: nat)
    requires |ps| == |items| == |ms| && k < |items| && Mentioned(t, items, ps, ms, k) && ms[k].start == ps[k].i
    ensures 0 < ps[k].i <= |t| ==> !IsGlue(t[ps[k].i - 1])
  {}

  lemma SeparatorIsValid(t: string, items: seq<Item>, seps: seq<string>, ps: seq<Parts>, ms: seq<Match>, k: nat)
    requires InList(t, items, seps, ps) && |ms| == |items| && k + 1 < |items|
    requires Mentioned(t, items, ps, ms, k) && Mentioned(t, items, ps, ms, k + 1)
    requires ps[0].i > 0 ==> t[ps[0].i - 1] != '#'
    ensures ValidSeparator(seps[k])
  {
    MatchStands(t, items, seps, ps, ms, k);
    MatchStands(t, items, seps, ps, ms, k + 1);
    BeforeItem(t, items, seps, ps, k + 1);
    NoGlueBefore(t, items, ps, ms, k + 1);
    NoWordAfter(t, items, seps, ps, ms, k);
    StartOfSeparator(t, items, seps, ps, k);
  }

  lemma StartOfSeparator(t: string, items: seq<Item>, seps: seq<string>, ps: seq<Parts>, k: nat)
    requires InList(t, items, seps, ps) && k + 1 < |items|
    ensures IsSeparator(seps[k])
    ensures seps[k] != "" ==> ps[k].done < |t| && t[ps[k].done] == seps[k][0]
  {
    assert ListAt(t, items, seps, ps, k);
    if seps[k] != "" { StandsAt(t, ps[k].done, seps[k], 0); }
  }

  lemma SeparatorsInList(t: string, items: seq<Item>, seps: seq<string>, ps: seq<Parts>, known: set<string>)
    requires InList(t, items, seps, ps) && 0 < ps[0].i <= |t| && t[ps[0].i - 1] != '#'
    requires Extract(t, known) == Expected(items)
    ensures forall s :: s in seps ==> ValidSeparator(s)
  {
    forall k | 0 <= k < |seps| ensures ValidSeparator(seps[k]) {
      ItemsAreMentioned(t, items, seps, ps, known, k);
      ItemsAreMentioned(t, items, seps, ps, known, k + 1);
      SeparatorIsValid(t, items, seps, ps, Mentions(InMessage, t, known), k);
    }
  }

  lemma ListOfMessage(t: string, items: seq<Item>, seps: seq<string>) returns (ps: seq<Parts>)
    requires items != [] && |seps| == |items| - 1
    requires forall x :: x in items ==> ValidItem(x)
    requires forall s :: s in seps ==> IsSeparator(s)
    requires 6 <= |t| && t[0..6] == "Fixes " && t[6..] == Join(PrintItems(items), seps)
    ensures InList(t, items, seps, ps) && ps[0].i == 6 && t[5] == ' '
  {
    assert forall j :: 0 <= j < 6 ==> t[j] == t[0..6][j];
    ps := ListParts(t, 6, items, seps);
  }

  /** For any distinct in-scope references and any list separators between them: printing
      and extracting is the identity if and only if no separator is empty, or starts or
      ends in a word character. */
  lemma PrintThenExtractIff(t: string, items: seq<Item>, seps: seq<string>, known: set<string>)
    requires items != [] && |seps| == |items| - 1
    requires forall x :: x in items ==> ValidItem(x) && x.key in known
    requires forall s :: s in seps ==> IsSeparator(s)
    requires DistinctItems(items)
    requires t == PrintMessage(items, seps)
    ensures Extract(t, known) == Expected(items) <==> forall s :: s in seps ==> ValidSeparator(s)
  {
    if Extract(t, known) == Expected(items) {
      PrintedPieces(t, items, seps);
      var ps := ListOfMessage(t, items, seps);
      SeparatorsInList(t, items, seps, ps, known);
    } else if forall s :: s in seps ==> ValidSeparator(s) {
      PrintThenExtract(t, items, seps, known);
    }
  }

  /** `Fixes A-1andA-2` is not the list it was printed from, though `and` separates. */
  lemma GluedByAnd()
    ensures var items := [Item(false, "A", 1, None), Item(false, "A", 2, None)];
      && IsSeparator("and")
      && Extract(PrintMessage(items, ["and"]), {"A"}) != Expected(items)
  {
    var items := [Item(false, "A", 1, None), Item(false, "A", 2, None)];
    assert LowerText("and"[0..3]) == "and";
    assert AndAt("and", 0);
    assert "and" in ["and"] && !ValidSeparator("and");
    PrintThenExtractIff(PrintMessage(items, ["and"]), items, ["and"], {"A"});
  }
}
