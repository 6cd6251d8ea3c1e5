/** The words and signs of a commit message, spelled out. */
module RefsVocabulary {
  import opened Wrappers
  import opened Ascii
  import opened RefScanner
  import opened Refs
  import opened RefsSpec
  import opened RefsRoundTrip
  import opened RefsTimes

  // -------------------------------------------------------------------------
  // Keywords
  // -------------------------------------------------------------------------

  /** `fix`, `close` and `resolve`, as they are, in the third person and in the past. */
  predicate SaysFixed(word: string) {
    || (exists ending | ending in {"", "es", "ed"} :: word == "fix" + ending)
    || (exists ending | ending in {"", "s", "d"} :: word == "close" + ending)
    || (exists ending | ending in {"", "s", "d"} :: word == "resolve" + ending)
  }

  predicate SaysRelated(word: string) { word in {"ref", "refs", "references", "see"} }

  lemma KeywordsAre(word: string)
    ensures word in FIXING_WORDS <==> SaysFixed(word)
    ensures word in REFERENCING_WORDS <==> SaysRelated(word)
  {
    assert "fix" + "" == "fix" && "fix" + "es" == "fixes" && "fix" + "ed" == "fixed";
    assert "close" + "" == "close" && "close" + "s" == "closes" && "close" + "d" == "closed";
    assert "resolve" + "" == "resolve" && "resolve" + "s" == "resolves" && "resolve" + "d" == "resolved";
  }

  predicate SaysKeyword(word: string) { SaysFixed(LowerText(word)) || SaysRelated(LowerText(word)) }

  /** `front`, a word, blanks, perhaps a colon with blanks after it, and perhaps one line
      end. */
  ghost predicate EndsIn(gap: string, front: string, word: string, blanks: string, colon: Option<string>,
                         newline: bool)
  {
    && gap == front + word + blanks + (if colon.Some? then ":" + colon.value else "") + (if newline then "\n" else "")
    && (front == "" || !IsWord(front[|front| - 1]))
    && Blanks(blanks) && (colon.Some? ==> Blanks(colon.value))
  }

  lemma WrittenShape(gap: string, front: string, word: string, blanks: string, colon: Option<string>, newline: bool)
    requires EndsIn(gap, front, word, blanks, colon, newline)
    requires word != "" && forall i :: 0 <= i < |word| ==> IsLetter(word[i])
    ensures KeywordShape(gap, |front|, |front| + |word|, |front| + |word| + |blanks|)
    ensures gap[|front|..|front| + |word|] == word
  {
    var s, e, a := |front|, |front| + |word|, |front| + |word| + |blanks|;
    assert forall i :: s <= i < e ==> gap[i] == word[i - s];
    assert forall i :: e <= i < a ==> gap[i] == blanks[i - e];
    assert s > 0 ==> gap[s - 1] == front[s - 1];
    var end := if newline then |gap| - 1 else |gap|;
    if colon.Some? { assert gap[a] == ':' && forall i :: a < i < end ==> gap[i] == colon.value[i - a - 1]; }
    assert DollarAt(gap) == end;
  }

  lemma ShapeIsWritten(gap: string, s: nat, e: nat, a: nat)
    returns (front: string, word: string, blanks: string, colon: Option<string>, newline: bool)
    requires KeywordShape(gap, s, e, a) && IsWord(gap[s])
    ensures EndsIn(gap, front, word, blanks, colon, newline) && word == gap[s..e]
  {
    var d := DollarAt(gap);
    front, word, blanks, newline := gap[..s], gap[s..e], gap[e..a], d < |gap|;
    colon := if a == d then None else Some(gap[a + 1..d]);
    FiveParts(gap, s, e, a, d);
    if a < d { assert gap[a..d] == ":" + colon.value; }
  }

  lemma FiveParts<T>(u: seq<T>, s: nat, e: nat, a: nat, d: nat)
    requires s <= e <= a <= d <= |u|
    ensures u == u[..s] + u[s..e] + u[e..a] + u[a..d] + u[d..]
  {
  }

  /** A keyword before a reference, in any case, alone or after something that is no word,
      with blanks, a colon and a line end or without: a fixing word makes the reference
      `fixes`, and any other keyword makes it `refs`, whatever came before. */
  lemma KeywordDecides(gap: string, front: string, word: string, blanks: string, colon: Option<string>, newline: bool,
                       previous: Option<Keyword>)
    requires EndsIn(gap, front, word, blanks, colon, newline) && SaysKeyword(word)
    ensures KeywordFor(gap, previous) == if SaysFixed(LowerText(word)) then Fixing else Referencing
  {
    KeywordsAre(LowerText(word));
    WordsAreLetters(word);
    WrittenShape(gap, front, word, blanks, colon, newline);
    KeywordScannerIsRegex(gap, |front|, |front| + |word|, |front| + |word| + |blanks|);
  }

  /** Where no keyword stands so, a reference takes the keyword before it through a list
      separator, and is `refs` otherwise. */
  lemma NoKeywordDecides(gap: string, previous: Option<Keyword>)
    requires forall front, word, blanks, colon, newline :: EndsIn(gap, front, word, blanks, colon, newline) ==>
               !SaysKeyword(word)
    ensures KeywordFor(gap, previous) == if IsSeparator(gap) then previous.GetOr(Referencing) else Referencing
  {
    if KeywordWord(gap).Some? {
      var s, e, a := KeywordRegexIsScanner(gap);
      WordsAreLetters(gap[s..e]);
      assert gap[s] == gap[s..e][0];
      var front, word, blanks, colon, newline := ShapeIsWritten(gap, s, e, a);
      KeywordsAre(LowerText(word));
      assert false;
    }
  }

  // -------------------------------------------------------------------------
  // Separators
  // -------------------------------------------------------------------------

  predicate Punctuation(s: string) {
    forall i :: 0 <= i < |s| ==> s[i] == ' ' || s[i] == '\t' || s[i] == ',' || s[i] == '&'
  }

  lemma {:induction false} PunctuationFrom(s: string, i: nat)
    requires i <= |s| && forall k :: i <= k < |s| ==> s[k] == ' ' || s[k] == '\t' || s[k] == ',' || s[k] == '&'
    ensures SeparatorFrom(s, i)
    decreases |s| - i
  {
    if i < |s| { PunctuationFrom(s, i + 1); }
  }

  lemma {:induction false} PunctuationThen(s: string, i: nat, j: nat)
    requires i <= j <= |s| && forall k :: i <= k < j ==> s[k] == ' ' || s[k] == '\t' || s[k] == ',' || s[k] == '&'
    requires SeparatorFrom(s, j)
    ensures SeparatorFrom(s, i)
    decreases j - i
  {
    if i < j { PunctuationThen(s, i + 1, j); }
  }

  /** Blanks, commas and ampersands separate, and so does `and` among them, in any case. */
  lemma ListSeparators(before: string, and: string, after: string)
    requires Punctuation(before) && Punctuation(after)
    ensures IsSeparator(before)
    ensures LowerText(and) == "and" ==> IsSeparator(before + and + after)
    ensures LowerText(and) == "and" && before != "" && after != "" ==> ValidSeparator(before + and + after)
  {
    PunctuationFrom(before, 0);
    if LowerText(and) == "and" {
      var s, n := before + and + after, |before|;
      PunctuationFrom(s, n + 3);
      assert s[n..n + 3] == and;
      LettersOfAnd(and);
      assert s[n] == and[0] && s[n + 2] == and[2];
      assert n > 0 ==> s[n - 1] == before[n - 1];
      assert n + 3 < |s| ==> s[n + 3] == after[0];
      assert AndAt(s, n);
      PunctuationThen(s, 0, n);
    }
  }

  lemma LettersOfAnd(and: string)
    requires LowerText(and) == "and"
    ensures |and| == 3 && IsLetter(and[0]) && IsLetter(and[2])
  {
    var low := LowerText(and);
    assert low[0] == 'a' && low[2] == 'd';
  }

  /** Nothing else does: every character of a separator is one of these or a letter of an
      `and` that stands by itself. */
  lemma SeparatorsHoldNothingElse(gap: string, k: nat)
    requires IsSeparator(gap) && k < |gap|
    ensures || gap[k] == ' ' || gap[k] == '\t' || gap[k] == ',' || gap[k] == '&'
            || exists a: nat :: a <= k < a + 3 && AndAt(gap, a)
  {
    SeparatorChars(gap, 0, k);
    if IsLetter(gap[k]) { var a := LettersOfSeparator(gap, 0, k); }
  }

  // -------------------------------------------------------------------------
  // What a reference looks like
  // -------------------------------------------------------------------------

  predicate WordCharacter(c: char) { 'a' <= c <= 'z' || 'A' <= c <= 'Z' || '0' <= c <= '9' || c == '_' }

  /** A capital letter, then capital letters and digits. */
  predicate IsKey(key: string) {
    key != "" && 'A' <= key[0] <= 'Z' && forall i :: 0 <= i < |key| ==> 'A' <= key[i] <= 'Z' || '0' <= key[i] <= '9'
  }

  /** One to nine digits. */
  predicate IsNumber(number: string) {
    1 <= |number| <= 9 && forall i :: 0 <= i < |number| ==> '0' <= number[i] <= '9'
  }

  /** `KEY-1` or `#KEY-1` stands at `i..n`, and no character that glues stands before or
      after it. */
  ghost predicate ReferenceAt(t: string, i: nat, k: nat, e: nat, n: nat) {
    && i <= k < e < n <= |t|
    && (k == i || (k == i + 1 && t[i] == '#'))
    && IsKey(t[k..e]) && t[e] == '-' && IsNumber(t[e + 1..n])
    && (i > 0 ==> !WordCharacter(t[i - 1]) && t[i - 1] !in {'/', '.', '-', '#'})
    && (n < |t| ==> !WordCharacter(t[n]))
  }

  lemma KeyCharacters(t: string, k: nat, e: nat)
    requires k < e <= |t|
    ensures IsKey(t[k..e]) <==> IsUpper(t[k]) && AllIn(t, k + 1, e, IsKeyChar)
  {
    var key := t[k..e];
    assert forall j :: k <= j < e ==> t[j] == key[j - k];
    assert key[0] == t[k];
  }

  lemma NumberCharacters(t: string, a: nat, n: nat)
    requires a <= n <= |t|
    ensures IsNumber(t[a..n]) <==> 1 <= n - a <= 9 && AllIn(t, a, n, IsDigit)
  {
    var number := t[a..n];
    assert forall j :: a <= j < n ==> t[j] == number[j - a];
  }

  lemma ReferenceIsMatch(t: string, i: nat, k: nat, e: nat, n: nat)
    requires i <= k < e < n <= |t|
    ensures ReferenceAt(t, i, k, e, n) <==> MessageRegex(t, i, k, e, n)
  {
    KeyCharacters(t, k, e);
    NumberCharacters(t, e + 1, n);
  }

  /** Such a reference is read, wherever it stands. */
  lemma ReferenceIsRead(t: string, i: nat, k: nat, e: nat, n: nat)
    requires ReferenceAt(t, i, k, e, n)
    ensures MatchAt(t, i) == Some(Match(i, n, t[k..e], t[e + 1..n]))
  {
    ReferenceIsMatch(t, i, k, e, n);
    MessageScannerIsRegex(t, i, k, e, n);
  }

  /** And nothing else is. */
  lemma OnlyReferencesAreRead(t: string, i: nat) returns (k: nat, e: nat)
    requires i <= |t| && MatchAt(t, i).Some?
    ensures ReferenceAt(t, i, k, e, MatchAt(t, i).value.end)
    ensures MatchAt(t, i).value.key == t[k..e] && MatchAt(t, i).value.number == t[e + 1..MatchAt(t, i).value.end]
  {
    k, e := MessageRegexIsScanner(t, i);
    ReferenceIsMatch(t, i, k, e, MatchAt(t, i).value.end);
  }
}
