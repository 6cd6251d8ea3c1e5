/** The regular expressions of specivo/hooks/refs.py as scanners over ASCII text.

    Each scanner has one possible result at a given start, because every run it
    reads is maximal. The `...Regex` predicates state the expressions as written
    (any choice of split points); the lemmas at the end show that the scanners
    find exactly what the expressions match. */
module RefScanner {
  import opened Wrappers
  import opened Ascii

  // -------------------------------------------------------------------------
  // Characters and runs
  // -------------------------------------------------------------------------

  predicate IsWord(c: char) { IsAlnum(c) || c == '_' }
  predicate IsKeyChar(c: char) { IsUpper(c) || IsDigit(c) }
  predicate IsBlank(c: char) { c == ' ' || c == '\t' }

  ghost predicate AllIn(t: string, i: nat, e: nat, p: char -> bool)
    requires i <= e <= |t|
  {
    forall k :: i <= k < e ==> p(t[k])
  }

  /** The end of the maximal run of `p` that starts at `i`. */
  function RunEnd(t: string, i: nat, p: char -> bool): (e: nat)
    requires i <= |t|
    ensures i <= e <= |t|
    decreases |t| - i
  {
    if i < |t| && p(t[i]) then RunEnd(t, i + 1, p) else i
  }

  lemma {:induction false} RunEndIsMaximal(t: string, i: nat, p: char -> bool)
    requires i <= |t|
    ensures AllIn(t, i, RunEnd(t, i, p), p)
    ensures RunEnd(t, i, p) < |t| ==> !p(t[RunEnd(t, i, p)])
    decreases |t| - i
  {
    if i < |t| && p(t[i]) { RunEndIsMaximal(t, i + 1, p); }
  }

  /** The start of the maximal run of `p` that ends at `e`. */
  function RunStart(t: string, e: nat, p: char -> bool): (s: nat)
    requires e <= |t|
    ensures s <= e
  {
    if e > 0 && p(t[e - 1]) then RunStart(t, e - 1, p) else e
  }

  lemma {:induction false} RunStartIsMaximal(t: string, e: nat, p: char -> bool)
    requires e <= |t|
    ensures AllIn(t, RunStart(t, e, p), e, p)
    ensures RunStart(t, e, p) > 0 ==> !p(t[RunStart(t, e, p) - 1])
  {
    if e > 0 && p(t[e - 1]) { RunStartIsMaximal(t, e - 1, p); }
  }

  lemma RunEndIs(t: string, i: nat, e: nat, p: char -> bool)
    requires i <= e <= |t| && AllIn(t, i, e, p)
    requires e < |t| ==> !p(t[e])
    ensures RunEnd(t, i, p) == e
  {
    RunEndIsMaximal(t, i, p);
    var r := RunEnd(t, i, p);
    assert r < |t| ==> !p(t[r]);
  }

  lemma RunStartIs(t: string, s: nat, e: nat, p: char -> bool)
    requires s <= e <= |t| && AllIn(t, s, e, p)
    requires s > 0 ==> !p(t[s - 1])
    ensures RunStart(t, e, p) == s
  {
    RunStartIsMaximal(t, e, p);
    var r := RunStart(t, e, p);
    assert r > 0 ==> !p(t[r - 1]);
  }

  // -------------------------------------------------------------------------
  // References in messages
  // -------------------------------------------------------------------------

  datatype Match = Match(start: nat, end: nat, key: string, number: string)

  /** What may not stand right before a reference. */
  predicate IsGlue(c: char) { IsWord(c) || c == '/' || c == '.' || c == '-' || c == '#' }

  /** `_MESSAGE_REF` at exactly `i`. */
  function MatchAt(t: string, i: nat): (m: Option<Match>)
    requires i <= |t|
    ensures m.Some? ==> m.value.start == i < m.value.end <= |t|
  {
    if i > 0 && IsGlue(t[i - 1]) then None
    else
      var k := if i < |t| && t[i] == '#' then i + 1 else i;
      var e := RunEnd(t, k, IsKeyChar);
      if k == e || !IsUpper(t[k]) || e == |t| || t[e] != '-' then None
      else
        var n := RunEnd(t, e + 1, IsDigit);
        if 1 <= n - (e + 1) <= 9 && (n == |t| || !IsWord(t[n]))
        then Some(Match(i, n, t[k..e], t[e + 1..n]))
        else None
  }

  ghost predicate MessageRegex(t: string, i: nat, k: nat, e: nat, n: nat) {
    && i <= k < e < n <= |t|
    && (i > 0 ==> !IsGlue(t[i - 1]))                                    // (?<![\w/.\-#])
    && (k == i || (k == i + 1 && t[i] == '#'))                          // #?
    && IsUpper(t[k]) && AllIn(t, k + 1, e, IsKeyChar) && t[e] == '-'    // [A-Z][A-Z0-9]*-
    && 1 <= n - (e + 1) <= 9 && AllIn(t, e + 1, n, IsDigit)             // \d{1,9}
    && (n < |t| ==> !IsWord(t[n]))                                      // (?!\w)
  }

  // -------------------------------------------------------------------------
  // References in branch names
  // -------------------------------------------------------------------------

  /** `_BRANCH_REF` at exactly `i`. */
  function BranchMatchAt(t: string, i: nat): (m: Option<Match>)
    requires i <= |t|
    ensures m.Some? ==> m.value.start == i < m.value.end <= |t|
  {
    if i > 0 && IsAlnum(t[i - 1]) then None
    else
      var e := RunEnd(t, i, IsAlnum);
      if i == e || !IsLetter(t[i]) || e == |t| || t[e] != '-' then None
      else
        var n := RunEnd(t, e + 1, IsDigit);
        if 1 <= n - (e + 1) <= 9 then Some(Match(i, n, t[i..e], t[e + 1..n])) else None
  }

  ghost predicate BranchRegex(t: string, i: nat, e: nat, n: nat) {
    && i < e < n <= |t|
    && (i > 0 ==> !IsAlnum(t[i - 1]))                                   // (?<![A-Za-z0-9])
    && IsLetter(t[i]) && AllIn(t, i + 1, e, IsAlnum) && t[e] == '-'     // [A-Za-z][A-Za-z0-9]*-
    && 1 <= n - (e + 1) <= 9 && AllIn(t, e + 1, n, IsDigit)             // \d{1,9}
    && (n < |t| ==> !IsDigit(t[n]))                                     // (?!\d)
  }

  // -------------------------------------------------------------------------
  // Keywords and list separators
  // -------------------------------------------------------------------------

  const FIXING_WORDS := ["fixes", "fixed", "fix", "closes", "closed", "close", "resolves", "resolved", "resolve"]
  const REFERENCING_WORDS := ["refs", "references", "ref", "see"]

  /** Where `$` matches: at the end, or before one newline at the end. */
  function DollarAt(gap: string): (d: nat)
    ensures d <= |gap|
  {
    if gap != "" && gap[|gap| - 1] == '\n' then |gap| - 1 else |gap|
  }

  /** Where the last word of the gap ends, before blanks and one optional colon. */
  function WordEnd(gap: string): (e: nat)
    ensures e <= DollarAt(gap)
  {
    var a := RunStart(gap, DollarAt(gap), IsBlank);
    if a > 0 && gap[a - 1] == ':' then RunStart(gap, a - 1, IsBlank) else a
  }

  /** The lower-cased keyword that `_KEYWORD_BEFORE` finds in a gap. */
  function KeywordWord(gap: string): Option<string> {
    var e := WordEnd(gap);
    var word := LowerText(gap[RunStart(gap, e, IsWord)..e]);
    if IsKeyword(word) then Some(word) else None
  }

  /** `\b` at `i`. */
  predicate BoundaryAt(t: string, i: nat)
    requires i <= |t|
  {
    (i > 0 && IsWord(t[i - 1])) != (i < |t| && IsWord(t[i]))
  }

  /** The word at `s..e` is followed by blanks up to `a`, and either that is the end
      or a colon stands there, with blanks after it. */
  ghost predicate KeywordShape(gap: string, s: nat, e: nat, a: nat) {
    && s < e <= a <= DollarAt(gap)
    && BoundaryAt(gap, s) && BoundaryAt(gap, e)
    && AllIn(gap, e, a, IsBlank)
    && (a == DollarAt(gap) || (gap[a] == ':' && AllIn(gap, a + 1, DollarAt(gap), IsBlank)))
  }

  predicate IsKeyword(word: string) { word in FIXING_WORDS || word in REFERENCING_WORDS }

  ghost predicate KeywordRegex(gap: string, s: nat, e: nat, a: nat) {
    KeywordShape(gap, s, e, a) && IsKeyword(LowerText(gap[s..e]))
  }

  predicate AndAt(gap: string, i: nat) {
    i + 3 <= |gap| && LowerText(gap[i..i + 3]) == "and" && BoundaryAt(gap, i) && BoundaryAt(gap, i + 3)
  }

  predicate IsSeparatorChar(c: char) { IsBlank(c) || c == ',' || c == '&' }

  /** `_LIST_SEPARATOR` matches everything from `i` on. */
  predicate SeparatorFrom(gap: string, i: nat)
    requires i <= |gap|
    decreases |gap| - i
  {
    if i == |gap| then true
    else if IsSeparatorChar(gap[i]) then SeparatorFrom(gap, i + 1)
    else AndAt(gap, i) && SeparatorFrom(gap, i + 3)
  }

  predicate IsSeparator(gap: string) { SeparatorFrom(gap, 0) }

  // -------------------------------------------------------------------------
  // Time
  // -------------------------------------------------------------------------

  const MAX_LOGGED := 2400   // 24 hours, in hundredths

  /** `num / den`, rounded half up to a whole number. */
  function RoundHalfUp(num: nat, den: nat): nat
    requires den > 0
  {
    (2 * num + den) / (2 * den)
  }

  function Min(a: nat, b: nat): nat { if a < b then a else b }

  /** Hundredths of an hour in `minutes` minutes, at most 24 hours. */
  function HoursOf(minutes: nat): nat { RoundHalfUp(Min(minutes, 24 * 60) * 100, 60) }

  /** Hundredths in a decimal with one or two digits after the point. */
  function HundredthsOf(whole: string, fraction: string): nat {
    Min(100 * Int(whole) + if |fraction| == 1 then 10 * Int(fraction) else Int(fraction), MAX_LOGGED)
  }

  /** `(?![\w@])(?!\.\d)` at `e`. */
  predicate TimeMayEnd(t: string, e: nat)
    requires e <= |t|
  {
    && (e < |t| ==> !IsWord(t[e]) && t[e] != '@')
    && !(e + 1 < |t| && t[e] == '.' && IsDigit(t[e + 1]))
  }

  predicate Letter(t: string, i: nat, lower: char) { i < |t| && Lower(t[i]) == lower }

  datatype Time = Time(hundredths: nat, end: nat)

  /** `_TIME` at exactly `pos`, with the value it stands for. */
  function TimeMatch(t: string, pos: nat): (r: Option<Time>)
    requires pos <= |t|
    ensures r.Some? ==> pos < r.value.end <= |t|
  {
    var at := RunEnd(t, pos, IsBlank);
    if at == |t| || t[at] != '@' then None
    else
      var d := RunEnd(t, at + 1, IsDigit);
      var whole := t[at + 1..d];
      if Letter(t, d, 'h') && 1 <= |whole| <= 3 then
        var m := RunEnd(t, d + 1, IsDigit);
        if 1 <= m - (d + 1) <= 4 && Letter(t, m, 'm')
        then Ending(t, m + 1, HoursOf(60 * Int(whole) + Int(t[d + 1..m])))
        else Ending(t, d + 1, HoursOf(60 * Int(whole)))
      else if d < |t| && t[d] == '.' && 1 <= |whole| <= 3 then
        var f := RunEnd(t, d + 1, IsDigit);
        if 1 <= f - (d + 1) <= 2 && Letter(t, f, 'h')
        then Ending(t, f + 1, HundredthsOf(whole, t[d + 1..f]))
        else None
      else if Letter(t, d, 'm') && 1 <= |whole| <= 4 then Ending(t, d + 1, HoursOf(Int(whole)))
      else None
  }

  function Ending(t: string, e: nat, hundredths: nat): (r: Option<Time>)
    requires e <= |t|
    ensures r.Some? ==> r.value.end == e
  {
    if TimeMayEnd(t, e) then Some(Time(hundredths, e)) else None
  }

  /** The three spellings of `_TIME`: blanks up to `at`, then hours (with minutes from
      `d` to `m`), decimal hours (with a fraction from `d` to `m`) or minutes alone. */
  ghost predicate TimeRegex(t: string, pos: nat, at: nat, d: nat, m: nat, value: nat, end: nat) {
    && pos <= at < d && AllWithin(t, pos, at, IsBlank) && at < |t| && t[at] == '@'
    && AllWithin(t, at + 1, d, IsDigit)
    && end <= |t| && TimeMayEnd(t, end)
    && ( || (d - at - 1 in {1, 2, 3} && Letter(t, d, 'h') && m == d + 1 == end
             && value == HoursOf(60 * Int(t[at + 1..d])))
         || (d - at - 1 in {1, 2, 3} && Letter(t, d, 'h') && d + 1 <= m && m - (d + 1) in {1, 2, 3, 4}
             && AllWithin(t, d + 1, m, IsDigit) && Letter(t, m, 'm') && end == m + 1
             && value == HoursOf(60 * Int(t[at + 1..d]) + Int(t[d + 1..m])))
         || (d - at - 1 in {1, 2, 3} && d < |t| && t[d] == '.' && d + 1 <= m && m - (d + 1) in {1, 2}
             && AllWithin(t, d + 1, m, IsDigit) && Letter(t, m, 'h') && end == m + 1
             && value == HundredthsOf(t[at + 1..d], t[d + 1..m]))
         || (d - at - 1 in {1, 2, 3, 4} && Letter(t, d, 'm') && m == d + 1 == end
             && value == HoursOf(Int(t[at + 1..d]))))
  }

  ghost predicate AllWithin(t: string, i: nat, e: nat, p: char -> bool) { i <= e <= |t| && AllIn(t, i, e, p) }

  // -------------------------------------------------------------------------
  // The scanners find exactly what the expressions match
  // -------------------------------------------------------------------------

  lemma MessageScannerIsRegex(t: string, i: nat, k: nat, e: nat, n: nat)
    requires MessageRegex(t, i, k, e, n)
    ensures MatchAt(t, i) == Some(Match(i, n, t[k..e], t[e + 1..n]))
  {
    RunEndIs(t, k, e, IsKeyChar);
    RunEndIs(t, e + 1, n, IsDigit);
  }

  lemma MessageRegexIsScanner(t: string, i: nat) returns (k: nat, e: nat)
    requires i <= |t| && MatchAt(t, i).Some?
    ensures MessageRegex(t, i, k, e, MatchAt(t, i).value.end)
    ensures MatchAt(t, i).value.key == t[k..e] && MatchAt(t, i).value.number == t[e + 1..MatchAt(t, i).value.end]
  {
    k := if t[i] == '#' then i + 1 else i;
    e := RunEnd(t, k, IsKeyChar);
    RunEndIsMaximal(t, k, IsKeyChar);
    RunEndIsMaximal(t, e + 1, IsDigit);
  }

  lemma BranchScannerIsRegex(t: string, i: nat, e: nat, n: nat)
    requires BranchRegex(t, i, e, n)
    ensures BranchMatchAt(t, i) == Some(Match(i, n, t[i..e], t[e + 1..n]))
  {
    RunEndIs(t, i, e, IsAlnum);
    RunEndIs(t, e + 1, n, IsDigit);
  }

  lemma BranchRegexIsScanner(t: string, i: nat) returns (e: nat)
    requires i <= |t| && BranchMatchAt(t, i).Some?
    ensures BranchRegex(t, i, e, BranchMatchAt(t, i).value.end)
    ensures BranchMatchAt(t, i).value.key == t[i..e]
  {
    e := RunEnd(t, i, IsAlnum);
    RunEndIsMaximal(t, i, IsAlnum);
    RunEndIsMaximal(t, e + 1, IsDigit);
  }

  /** The scanner takes the only word the expression can match. */
  lemma KeywordScannerIsRegex(gap: string, s: nat, e: nat, a: nat)
    requires KeywordRegex(gap, s, e, a)
    ensures KeywordWord(gap) == Some(LowerText(gap[s..e]))
  {
    var word := gap[s..e];
    WordsAreLetters(word);
    assert forall k :: s <= k < e ==> gap[k] == word[k - s];
    assert IsWord(gap[e - 1]) && IsWord(gap[s]);
    var d := DollarAt(gap);
    if a == d {
      RunStartIs(gap, e, d, IsBlank);
    } else {
      RunStartIs(gap, a + 1, d, IsBlank);
      RunStartIs(gap, e, a, IsBlank);
    }
    assert WordEnd(gap) == e;
    RunStartIs(gap, s, e, IsWord);
  }

  lemma WordsAreLetters(word: string)
    requires IsKeyword(LowerText(word))
    ensures word != "" && forall i :: 0 <= i < |word| ==> IsLetter(word[i])
  {
    var low := LowerText(word);
    assert forall i :: 0 <= i < |low| ==> IsLower(low[i]);
  }

  lemma KeywordRegexIsScanner(gap: string) returns (s: nat, e: nat, a: nat)
    requires KeywordWord(gap).Some?
    ensures KeywordRegex(gap, s, e, a) && KeywordWord(gap) == Some(LowerText(gap[s..e]))
  {
    e := WordEnd(gap);
    s := RunStart(gap, e, IsWord);
    RunStartIsMaximal(gap, e, IsWord);
    WordsAreLetters(gap[s..e]);
    assert gap[s] == gap[s..e][0] && gap[e - 1] == gap[s..e][e - 1 - s];
    assert IsWord(gap[s]) && IsWord(gap[e - 1]);
    a := AfterWord(gap);
  }

  /** What follows the last word of a gap. */
  lemma AfterWord(gap: string) returns (a: nat)
    ensures var e, d := WordEnd(gap), DollarAt(gap);
      && e <= a <= d && AllIn(gap, e, a, IsBlank)
      && (a == d || (gap[a] == ':' && AllIn(gap, a + 1, d, IsBlank)))
      && (e < |gap| ==> !IsWord(gap[e]))
  {
    var d := DollarAt(gap);
    var blanks := RunStart(gap, d, IsBlank);
    a := if blanks > 0 && gap[blanks - 1] == ':' then blanks - 1 else d;
    RunStartIsMaximal(gap, d, IsBlank);
    if a < d { RunStartIsMaximal(gap, a, IsBlank); }
  }

  lemma TimeScannerIsRegex(t: string, pos: nat, at: nat, d: nat, m: nat, value: nat, end: nat)
    requires TimeRegex(t, pos, at, d, m, value, end)
    ensures TimeMatch(t, pos) == Some(Time(value, end))
  {
    RunEndIs(t, pos, at, IsBlank);
    RunEndIs(t, at + 1, d, IsDigit);
    if AllWithin(t, d + 1, m, IsDigit) && m < |t| && !IsDigit(t[m]) { RunEndIs(t, d + 1, m, IsDigit); }
  }

  lemma TimeRegexIsScanner(t: string, pos: nat) returns (at: nat, d: nat, m: nat)
    requires pos <= |t| && TimeMatch(t, pos).Some?
    ensures TimeRegex(t, pos, at, d, m, TimeMatch(t, pos).value.hundredths, TimeMatch(t, pos).value.end)
  {
    at := RunEnd(t, pos, IsBlank);
    d := RunEnd(t, at + 1, IsDigit);
    RunEndIsMaximal(t, pos, IsBlank);
    RunEndIsMaximal(t, at + 1, IsDigit);
    var run := if d < |t| then RunEnd(t, d + 1, IsDigit) else d;
    if d < |t| { RunEndIsMaximal(t, d + 1, IsDigit); }
    var r := TimeMatch(t, pos).value;
    m := if r.end == d + 1 then d + 1 else run;
  }
}
