/** Printing references as a commit message and reading them back. */
module RefsRoundTrip {
  import opened Wrappers
  import opened Ascii
  import opened RefScanner
  import opened Refs
  import opened RefsSpec
  import opened RefsScope

  // -------------------------------------------------------------------------
  // Printing
  // -------------------------------------------------------------------------

  /** A reference as an author writes it: `#` or not, and minutes or none. */
  datatype Item = Item(hash: bool, key: string, number: nat, minutes: Option<nat>)

  ghost predicate ValidKey(key: string) {
    key != "" && IsUpper(key[0]) && forall i :: 0 <= i < |key| ==> IsKeyChar(key[i])
  }

  ghost predicate ValidItem(x: Item) {
    && ValidKey(x.key) && 1 <= x.number <= 999_999_999
    && (x.minutes.Some? ==> 1 <= x.minutes.value <= 1440)
  }

  /** A list separator that does not glue itself to the references around it. */
  ghost predicate ValidSeparator(sep: string) {
    sep != "" && IsSeparator(sep) && !IsWord(sep[0]) && !IsWord(sep[|sep| - 1])
  }

  function PrintTime(minutes: Option<nat>): string {
    match minutes
    case None => ""
    case Some(n) => " @" + Decimal(n) + "m"
  }

  function PrintItem(x: Item): string {
    PrintRef(x) + PrintTime(x.minutes)
  }

  function PrintItems(items: seq<Item>): (texts: seq<string>)
    ensures |texts| == |items|
  {
    if items == [] then [] else [PrintItem(items[0])] + PrintItems(items[1..])
  }

  /** The texts with a separator after each but the last. */
  function Join(texts: seq<string>, seps: seq<string>): string
    requires texts != [] && |seps| == |texts| - 1
  {
    if |texts| == 1 then texts[0] else texts[0] + seps[0] + Join(texts[1..], seps[1..])
  }

  function PrintMessage(items: seq<Item>, seps: seq<string>): string
    requires items != [] && |seps| == |items| - 1
  {
    "Fixes " + Join(PrintItems(items), seps)
  }

  function HoursFor(minutes: Option<nat>): Option<nat> {
    match minutes
    case None => None
    case Some(n) => Some(HoursOf(n))
  }

  function Expected(items: seq<Item>): (refs: seq<Ref>)
    ensures |refs| == |items|
  {
    if items == [] then []
    else [Ref(items[0].key, items[0].number, Fixing, HoursFor(items[0].minutes))] + Expected(items[1..])
  }

  ghost predicate DistinctItems(items: seq<Item>) {
    forall i, j :: 0 <= i < j < |items| ==> !(items[i].key == items[j].key && items[i].number == items[j].number)
  }

  // -------------------------------------------------------------------------
  // Rounding
  // -------------------------------------------------------------------------

  /** No number of minutes lies half-way between two hundredths of an hour. */
  lemma NoRoundingTie(minutes: nat)
    ensures 2 * ((100 * minutes) % 60) != 60
  {
    assert (100 * minutes) % 60 == 100 * minutes - 60 * (100 * minutes / 60);
  }

  /** A time of 1 to 1440 minutes is more than zero and at most 24 hours, and is the
      closest number of hundredths, strictly: no tie occurs. */
  lemma MinutesAreHours(minutes: nat)
    requires 1 <= minutes <= 1440
    ensures 0 < HoursOf(minutes) <= MAX_LOGGED
    ensures -30 < 60 * HoursOf(minutes) - 100 * minutes < 30
  {
    HoursQuotient(minutes);
    ClosestHundredth(minutes, HoursOf(minutes));
  }

  lemma HoursQuotient(minutes: nat)
    requires minutes <= 1440
    ensures 120 * HoursOf(minutes) <= 200 * minutes + 60 < 120 * HoursOf(minutes) + 120
  {
    var n := 200 * minutes + 60;
    assert HoursOf(minutes) == n / 120;
  }

  lemma ClosestHundredth(minutes: nat, h: nat)
    requires 1 <= minutes <= 1440 && 120 * h <= 200 * minutes + 60 < 120 * h + 120
    ensures 0 < h <= MAX_LOGGED && -30 < 60 * h - 100 * minutes < 30
  {
    assert 60 * h - 100 * minutes == 20 * (3 * h - 5 * minutes);
    assert -30 < 60 * h - 100 * minutes <= 30;
  }

  // -------------------------------------------------------------------------
  // Reading one item back
  // -------------------------------------------------------------------------

  /** `s` stands in `t` at `i`. */
  ghost predicate Stands(t: string, i: nat, s: string)
    decreases |s|
  {
    i + |s| <= |t| && (s != "" ==> t[i] == s[0] && Stands(t, i + 1, s[1..]))
  }

  lemma {:induction false} StandsAt(t: string, i: nat, s: string, k: nat)
    requires Stands(t, i, s) && k < |s|
    ensures t[i + k] == s[k]
    decreases k
  {
    if k > 0 { StandsAt(t, i + 1, s[1..], k - 1); }
  }

  lemma StandsSlice(t: string, i: nat, s: string)
    requires Stands(t, i, s)
    ensures i + |s| <= |t| && t[i..i + |s|] == s
  {
    forall k | 0 <= k < |s| ensures t[i + k] == s[k] { StandsAt(t, i, s, k); }
  }

  lemma {:induction false} SliceStands(t: string, i: nat, s: string)
    requires i + |s| <= |t| && t[i..i + |s|] == s
    ensures Stands(t, i, s)
    decreases |s|
  {
    if s != "" {
      assert t[i..i + |s|][0] == s[0];
      assert t[i + 1..i + 1 + |s[1..]|] == t[i..i + |s|][1..];
      SliceStands(t, i + 1, s[1..]);
    }
  }

  lemma StandsSplit(t: string, i: nat, a: string, b: string)
    requires Stands(t, i, a + b)
    ensures Stands(t, i, a) && Stands(t, i + |a|, b)
  {
    StandsSlice(t, i, a + b);
    assert t[i..i + |a|] == t[i..i + |a + b|][..|a|];
    assert t[i + |a|..i + |a| + |b|] == t[i..i + |a + b|][|a|..];
    SliceStands(t, i, a);
    SliceStands(t, i + |a|, b);
  }

  function Hash(x: Item): string { if x.hash then "#" else "" }

  function PrintRef(x: Item): string { Hash(x) + x.key + "-" + Decimal(x.number) }

  lemma DigitsStand(t: string, i: nat, n: nat)
    requires Stands(t, i, Decimal(n))
    ensures AllIn(t, i, i + |Decimal(n)|, IsDigit)
  {
    DecimalDigits(n);
    forall j | i <= j < i + |Decimal(n)| ensures IsDigit(t[j]) { StandsAt(t, i, Decimal(n), j - i); }
  }

  lemma KeyStands(t: string, i: nat, key: string)
    requires Stands(t, i, key) && ValidKey(key)
    ensures IsUpper(t[i]) && AllIn(t, i, i + |key|, IsKeyChar)
  {
    forall j | i <= j < i + |key| ensures t[j] == key[j - i] { StandsAt(t, i, key, j - i); }
  }

  /** The three parts of a reference, at `i`, `k` and `e + 1`. */
  ghost predicate RefAt(t: string, i: nat, k: nat, e: nat, n: nat, x: Item) {
    && k == i + (if x.hash then 1 else 0) && (x.hash ==> i < |t| && t[i] == '#')
    && Stands(t, k, x.key) && e == k + |x.key|
    && e < |t| && t[e] == '-'
    && Stands(t, e + 1, Decimal(x.number)) && n == e + 1 + |Decimal(x.number)|
  }

  lemma RefStands(t: string, i: nat, x: Item, ref: string)
    requires ref == PrintRef(x) && Stands(t, i, ref)
    ensures var k := i + if x.hash then 1 else 0;
      RefAt(t, i, k, k + |x.key|, i + |ref|, x)
  {
    StandsSplit(t, i, Hash(x) + x.key + "-", Decimal(x.number));
    StandsSplit(t, i, Hash(x) + x.key, "-");
    StandsSplit(t, i, Hash(x), x.key);
    if x.hash { StandsAt(t, i, "#", 0); }
    StandsAt(t, i + |Hash(x)| + |x.key|, "-", 0);
  }

  lemma RefIsRegex(t: string, i: nat, k: nat, e: nat, n: nat, x: Item)
    requires ValidItem(x) && RefAt(t, i, k, e, n, x)
    requires i > 0 ==> !IsGlue(t[i - 1])
    requires n < |t| ==> !IsWord(t[n])
    ensures MessageRegex(t, i, k, e, n)
    ensures t[k..e] == x.key && t[e + 1..n] == Decimal(x.number)
  {
    KeyStands(t, k, x.key);
    DigitsStand(t, e + 1, x.number);
    assert Pow10(9) == 1_000_000_000;
    DecimalLength(x.number, 9);
    StandsSlice(t, k, x.key);
    StandsSlice(t, e + 1, Decimal(x.number));
  }

  /** The reference of an item is matched where it stands. */
  lemma ItemMatches(t: string, i: nat, x: Item, ref: string) returns (m: Match)
    requires ValidItem(x) && ref == PrintRef(x) && Stands(t, i, ref)
    requires i > 0 ==> !IsGlue(t[i - 1])
    requires i + |ref| < |t| ==> !IsWord(t[i + |ref|])
    ensures m == Match(i, i + |ref|, x.key, Decimal(x.number)) && ref != ""
    ensures MatchAt(t, i) == Some(m)
  {
    RefStands(t, i, x, ref);
    var k := i + if x.hash then 1 else 0;
    RefIsRegex(t, i, k, k + |x.key|, i + |ref|, x);
    MessageScannerIsRegex(t, i, k, k + |x.key|, i + |ref|);
    m := Match(i, i + |ref|, x.key, Decimal(x.number));
  }

  lemma TimePieces(t: string, pos: nat, digits: string, time: string)
    requires time == " @" + digits + "m" && Stands(t, pos, time)
    ensures t[pos] == ' ' && t[pos + 1] == '@' && Stands(t, pos + 2, digits) && t[pos + 2 + |digits|] == 'm'
    ensures |time| == |digits| + 3 && t[pos + 2..pos + 2 + |digits|] == digits
  {
    StandsSplit(t, pos, " @" + digits, "m");
    StandsSplit(t, pos, " @", digits);
    StandsAt(t, pos, " @", 0);
    StandsAt(t, pos, " @", 1);
    StandsAt(t, pos + 2 + |digits|, "m", 0);
    StandsSlice(t, pos + 2, digits);
  }

  lemma MinuteDigits(minutes: nat)
    requires 1 <= minutes <= 1440
    ensures 1 <= |Decimal(minutes)| <= 4 && Int(Decimal(minutes)) == minutes
  {
    assert Pow10(4) == 10_000;
    DecimalLength(minutes, 4);
    IntOfDecimal(minutes);
  }

  lemma TimeIsRegex(t: string, pos: nat, minutes: nat, digits: string, time: string)
    requires 1 <= minutes <= 1440 && digits == Decimal(minutes) && time == " @" + digits + "m"
    requires Stands(t, pos, time) && TimeMayEnd(t, pos + |time|)
    ensures TimeRegex(t, pos, pos + 1, pos + 2 + |digits|, pos + 3 + |digits|, HoursOf(minutes), pos + |time|)
  {
    TimePieces(t, pos, digits, time);
    MinuteDigits(minutes);
    DigitsStand(t, pos + 2, minutes);
  }

  /** The time of an item is read where it stands; without one, none is read. */
  lemma TimeReadsBack(t: string, pos: nat, minutes: Option<nat>, time: string)
    requires minutes.Some? ==> 1 <= minutes.value <= 1440
    requires time == PrintTime(minutes) && Stands(t, pos, time)
    requires minutes.Some? ==> TimeMayEnd(t, pos + |time|)
    requires minutes.None? ==> TimeMatch(t, pos).None?
    ensures TimeAt(t, pos) == (HoursFor(minutes), pos + |time|)
  {
    if minutes.Some? {
      var digits := Decimal(minutes.value);
      TimeIsRegex(t, pos, minutes.value, digits, time);
      TimeScannerIsRegex(t, pos, pos + 1, pos + 2 + |digits|, pos + 3 + |digits|, HoursOf(minutes.value), pos + |time|);
      MinutesAreHours(minutes.value);
    }
  }

  /** No time stands before a separator that a reference follows, nor at the end. */
  lemma NoTimeBeforeSeparator(t: string, pos: nat, sep: string)
    requires pos <= |t|
    requires pos == |t| || (ValidSeparator(sep) && Stands(t, pos, sep) && pos + |sep| < |t|
                            && !IsBlank(t[pos + |sep|]) && t[pos + |sep|] != '@')
    ensures TimeMatch(t, pos).None?
  {
    if TimeMatch(t, pos).Some? {
      var at, d, m := TimeRegexIsScanner(t, pos);
      if at < pos + |sep| {
        StandsAt(t, pos, sep, at - pos);
        SeparatorChars(sep, 0, at - pos);
      }
    }
  }

  /** A separator is made of blanks, commas, ampersands and the letters of `and`. */
  lemma {:induction false} SeparatorChars(gap: string, i: nat, k: nat)
    requires i <= k < |gap| && SeparatorFrom(gap, i)
    ensures IsSeparatorChar(gap[k]) || IsLetter(gap[k])
    decreases |gap| - i
  {
    if IsSeparatorChar(gap[i]) {
      if k > i { SeparatorChars(gap, i + 1, k); }
    } else if k < i + 3 {
      AndLetters(gap, i);
    } else {
      SeparatorChars(gap, i + 3, k);
    }
  }

  lemma AndLetters(gap: string, a: nat)
    requires AndAt(gap, a)
    ensures IsLetter(gap[a]) && IsLetter(gap[a + 1]) && IsLetter(gap[a + 2])
  {
    var low := LowerText(gap[a..a + 3]);
    assert low[0] == 'a' && low[1] == 'n' && low[2] == 'd';
    assert gap[a..a + 3] == [gap[a], gap[a + 1], gap[a + 2]];
  }

  /** No reference starts inside a separator. */
  lemma NoReferenceInSeparator(t: string, pos: nat, sep: string, i: nat)
    requires ValidSeparator(sep) && Stands(t, pos, sep) && pos <= i < pos + |sep|
    ensures MatchAt(t, i).None?
  {
    if MatchAt(t, i).Some? {
      var k, e := MessageRegexIsScanner(t, i);
      StandsAt(t, pos, sep, i - pos);
      SeparatorChars(sep, 0, i - pos);
      var last := pos + |sep| - 1;
      StandsAt(t, pos, sep, |sep| - 1);
      assert k == i && e <= last;
      StandsAt(t, pos, sep, e - pos);
      SeparatorHasNoDash(sep, 0, e - pos);
    }
  }

  // -------------------------------------------------------------------------
  // The layout of a printed list
  // -------------------------------------------------------------------------

  /** Text `k` of a list stands at its place, and what follows it right after. */
  ghost predicate PlacedAt(t: string, starts: seq<nat>, texts: seq<string>, seps: seq<string>, k: nat)
    requires |starts| == |texts| && |seps| == |texts| - 1 && k < |texts|
  {
    var done := starts[k] + |texts[k]|;
    && Stands(t, starts[k], texts[k])
    && if k + 1 < |texts| then Stands(t, done, seps[k]) && starts[k + 1] == done + |seps[k]| else done == |t|
  }

  lemma PlacedTail(t: string, i: nat, rest: seq<nat>, texts: seq<string>, seps: seq<string>, k: nat)
    requires |texts| > 1 && |rest| == |texts| - 1 && |seps| == |texts| - 1 && k + 1 < |texts|
    requires PlacedAt(t, rest, texts[1..], seps[1..], k)
    ensures PlacedAt(t, [i] + rest, texts, seps, k + 1)
  {}

  /** A joined list stands text by text, from `i` to the end. */
  lemma {:induction false} JoinedIsPlaced(t: string, i: nat, texts: seq<string>, seps: seq<string>)
    returns (starts: seq<nat>)
    requires texts != [] && |seps| == |texts| - 1
    requires i <= |t| && t[i..] == Join(texts, seps)
    ensures |starts| == |texts| && starts[0] == i
    ensures forall k :: 0 <= k < |texts| ==> PlacedAt(t, starts, texts, seps, k)
    decreases |texts|
  {
    if |texts| == 1 {
      starts := [i];
      assert t[i..i + |texts[0]|] == t[i..];
      SliceStands(t, i, texts[0]);
    } else {
      ThreePieces(t, i, texts[0], seps[0], Join(texts[1..], seps[1..]));
      var rest := JoinedIsPlaced(t, i + |texts[0]| + |seps[0]|, texts[1..], seps[1..]);
      starts := [i] + rest;
      assert PlacedAt(t, starts, texts, seps, 0);
      forall k | 1 <= k < |texts| ensures PlacedAt(t, starts, texts, seps, k) {
        PlacedTail(t, i, rest, texts, seps, k - 1);
      }
    }
  }

  lemma ThreePieces(t: string, i: nat, a: string, b: string, c: string)
    requires i <= |t| && t[i..] == a + b + c
    ensures Stands(t, i, a) && Stands(t, i + |a|, b) && t[i + |a| + |b|..] == c
  {
    assert t[i..i + |a + b + c|] == t[i..];
    SliceStands(t, i, a + b + c);
    StandsSplit(t, i, a + b, c);
    StandsSplit(t, i, a, b);
  }

  /** A text that starts like a reference. */
  ghost predicate StartsLikeRef(text: string) { text != "" && (text[0] == '#' || IsUpper(text[0])) }

  lemma {:induction false} PrintItemsAt(items: seq<Item>, k: nat)
    requires k < |items| && ValidItem(items[k])
    ensures PrintItems(items)[k] == PrintItem(items[k]) && StartsLikeRef(PrintItem(items[k]))
  {
    if k > 0 {
      PrintItemsAt(items[1..], k - 1);
    } else {
      var x := items[0];
      assert PrintRef(x)[0] == if x.hash then '#' else x.key[0];
      assert PrintItem(x)[0] == PrintRef(x)[0];
    }
  }

  lemma SeparatorEnds(t: string, pos: nat, sep: string)
    requires ValidSeparator(sep) && Stands(t, pos, sep)
    ensures IsSeparatorChar(t[pos]) && IsSeparatorChar(t[pos + |sep| - 1])
  {
    StandsAt(t, pos, sep, 0);
    StandsAt(t, pos, sep, |sep| - 1);
    SeparatorChars(sep, 0, 0);
    SeparatorChars(sep, 0, |sep| - 1);
  }

  lemma NextIs(t: string, pos: nat, m: Match)
    requires pos <= m.start < m.end <= |t| && MatchAt(t, m.start) == Some(m)
    requires forall i :: pos <= i < m.start ==> MatchAt(t, i).None?
    ensures Next(InMessage, t, pos) == Some(m)
  {
    NextIsFirst(InMessage, t, pos);
    assert At(InMessage, t, m.start) == Some(m);
    assert forall i :: pos <= i < m.start ==> At(InMessage, t, i) == MatchAt(t, i);
  }

  lemma NextIsNone(t: string, pos: nat)
    requires pos <= |t| && forall i :: pos <= i <= |t| ==> MatchAt(t, i).None?
    ensures Next(InMessage, t, pos) == None
  {
    NextIsFirst(InMessage, t, pos);
    assert forall i :: pos <= i <= |t| ==> At(InMessage, t, i) == MatchAt(t, i);
  }

  /** No match starts between `from` and `to`. */
  ghost predicate Quiet(t: string, from: nat, to: nat) {
    to <= |t| + 1 && forall i :: from <= i < to ==> MatchAt(t, i).None?
  }

  /** The next match is the item. */
  lemma ItemIsNext(t: string, pos: nat, i: nat, x: Item, ref: string) returns (m: Match)
    requires ValidItem(x) && ref == PrintRef(x) && Stands(t, i, ref)
    requires i > 0 ==> !IsGlue(t[i - 1])
    requires i + |ref| < |t| ==> !IsWord(t[i + |ref|])
    requires pos <= i && Quiet(t, pos, i)
    ensures m.start == i && i < m.end == i + |ref| <= |t| && m.key == x.key && Int(m.number) == x.number
    ensures Next(InMessage, t, pos) == Some(m)
  {
    m := ItemMatches(t, i, x, ref);
    NextIs(t, pos, m);
    IntOfDecimal(x.number);
  }

  lemma AheadOfItem(t: string, pos: nat, m: Match, known: set<string>)
    requires pos <= |t| && m.start < m.end <= |t| && m.key in known && Int(m.number) != 0
    requires Next(InMessage, t, pos) == Some(m)
    ensures Ahead(InMessage, t, Next(InMessage, t, pos), known)
         == [m] + Ahead(InMessage, t, Next(InMessage, t, m.end), known)
  {
    AheadStep(InMessage, t, [], m, Next(InMessage, t, m.end), known);
  }

  /** What follows an item: nothing, or a separator and the next item. */
  ghost predicate Followed(t: string, done: nat, sep: string) {
    done == |t| || (ValidSeparator(sep) && Stands(t, done, sep) && done + |sep| < |t|
                    && !IsBlank(t[done + |sep|]) && t[done + |sep|] != '@')
  }

  lemma ItemTime(t: string, end: nat, x: Item, time: string, sep: string)
    requires ValidItem(x) && time == PrintTime(x.minutes)
    requires Stands(t, end, time) && Followed(t, end + |time|, sep)
    ensures TimeAt(t, end) == (HoursFor(x.minutes), end + |time|)
  {
    if end + |time| < |t| { SeparatorEnds(t, end + |time|, sep); }
    if x.minutes.None? { NoTimeBeforeSeparator(t, end, sep); }
    TimeReadsBack(t, end, x.minutes, time);
  }

  lemma AfterRef(t: string, i: nat, x: Item, ref: string, time: string, sep: string)
    requires ref == PrintRef(x) && Stands(t, i, ref) && time == PrintTime(x.minutes) && Stands(t, i + |ref|, time)
    requires Followed(t, i + |ref| + |time|, sep)
    ensures i + |ref| < |t| ==> !IsWord(t[i + |ref|])
  {
    if x.minutes.Some? {
      StandsAt(t, i + |ref|, time, 0);
    } else if i + |ref| < |t| {
      SeparatorEnds(t, i + |ref|, sep);
    }
  }

  /** No match starts in a time or a separator. */
  lemma QuietAfterItem(t: string, end: nat, done: nat, sep: string)
    requires end <= done && TimeEndsAt(t, end, done)
    requires ValidSeparator(sep) && Stands(t, done, sep)
    ensures Quiet(t, end, done + |sep|)
  {
    forall i | end <= i < done + |sep| ensures MatchAt(t, i).None? {
      if i < done { NoReferenceInTime(t, end, i); } else { NoReferenceInSeparator(t, done, sep, i); }
    }
  }

  ghost predicate TimeEndsAt(t: string, pos: nat, end: nat) { pos <= |t| && TimeAt(t, pos).1 == end }

  lemma QuietAtEnd(t: string, end: nat)
    requires TimeEndsAt(t, end, |t|)
    ensures Next(InMessage, t, end).None?
  {
    forall i | end <= i <= |t| ensures MatchAt(t, i).None? {
      if i < |t| { NoReferenceInTime(t, end, i); }
    }
    NextIsNone(t, end);
  }

  // -------------------------------------------------------------------------
  // Reading the list back
  // -------------------------------------------------------------------------

  /** Every mention is the item at its place, with its time, and separators stand between. */
  ghost predicate ReadsAs(t: string, xs: seq<Mention>, items: seq<Item>)
    decreases |xs|
  {
    if xs == [] || items == [] then xs == [] && items == []
    else
      && xs[0].start < xs[0].end <= |t|
      && xs[0].key == items[0].key && xs[0].number == items[0].number && xs[0].hours == HoursFor(items[0].minutes)
      && (|xs| > 1 ==> xs[0].end <= xs[1].start <= |t| && IsSeparator(t[xs[0].end..xs[1].start]))
      && ReadsAs(t, xs[1..], items[1..])
  }

  /** The same, position by position. */
  lemma {:induction false} ReadsAt(t: string, xs: seq<Mention>, items: seq<Item>)
    requires ReadsAs(t, xs, items)
    ensures |xs| == |items| && InOrder(t, xs)
    ensures forall k :: 0 <= k < |xs| ==>
      xs[k].key == items[k].key && xs[k].number == items[k].number && xs[k].hours == HoursFor(items[k].minutes)
    ensures forall k :: 0 < k < |xs| ==> IsSeparator(Gap(t, xs, k))
  {
    if xs != [] {
      var rest := xs[1..];
      ReadsAt(t, rest, items[1..]);
      assert forall k :: 0 < k < |xs| ==> xs[k] == rest[k - 1] && items[k] == items[1..][k - 1];
      assert InOrder(t, xs);
      forall k | 0 < k < |xs| ensures IsSeparator(Gap(t, xs, k)) {
        if k > 1 { assert Gap(t, xs, k) == Gap(t, rest, k - 1); }
      }
    }
  }

  /** What is ahead of `pos` in scope. */
  function AheadOf(t: string, pos: nat, known: set<string>): seq<Match>
    requires pos <= |t|
  {
    Ahead(InMessage, t, Next(InMessage, t, pos), known)
  }

  /** The two texts of an item. Stated so that they are looked into only where a proof names
      them. */
  ghost predicate TextsOf(x: Item, ref: string, time: string) {
    && (forall y {:trigger PrintRef(y)} :: y == x ==> ref == PrintRef(y))
    && (forall y {:trigger PrintTime(y)} :: y == x.minutes ==> time == PrintTime(y))
  }

  /** The first item of what is left is the next match. */
  lemma ItemIsAhead(t: string, pos: nat, i: nat, x: Item, ref: string, time: string, sep: string, known: set<string>)
    returns (m: Match, ahead: seq<Match>, rest: seq<Match>)
    requires ValidItem(x) && x.key in known && TextsOf(x, ref, time)
    requires Stands(t, i, ref) && Stands(t, i + |ref|, time) && Followed(t, i + |ref| + |time|, sep)
    requires i > 0 ==> !IsGlue(t[i - 1])
    requires pos <= i && Quiet(t, pos, i)
    ensures m.start == i && i < m.end == i + |ref| <= |t| && m.key == x.key && Int(m.number) == x.number
    ensures ahead == AheadOf(t, pos, known) && rest == AheadOf(t, m.end, known)
    ensures ahead == [m] + rest && (Next(InMessage, t, m.end).None? ==> rest == [])
  {
    assert ref == PrintRef(x) && time == PrintTime(x.minutes);
    AfterRef(t, i, x, ref, time, sep);
    m := ItemIsNext(t, pos, i, x, ref);
    AheadOfItem(t, pos, m, known);
    NothingAhead(t, m.end, known);
    ahead, rest := AheadOf(t, pos, known), AheadOf(t, m.end, known);
  }

  /** It reads back with its time. */
  lemma ItemMention(t: string, x: Item, m: Match, ref: string, time: string, sep: string)
    requires ValidItem(x) && TextsOf(x, ref, time)
    requires m.end <= |t| && m.key == x.key && Int(m.number) == x.number
    requires Stands(t, m.end, time) && Followed(t, m.end + |time|, sep)
    ensures MentionOf(t, m) == Mention(x.key, x.number, HoursFor(x.minutes), m.start, m.end + |time|)
    ensures TimeEndsAt(t, m.end, m.end + |time|)
  {
    assert time == PrintTime(x.minutes);
    ItemTime(t, m.end, x, time, sep);
  }

  lemma PiecesOfItem(t: string, i: nat, x: Item, text: string) returns (ref: string, time: string)
    requires text == PrintItem(x) && Stands(t, i, text)
    ensures ref == PrintRef(x) && time == PrintTime(x.minutes) && |text| == |ref| + |time|
    ensures Stands(t, i, ref) && Stands(t, i + |ref|, time)
  {
    ref, time := PrintRef(x), PrintTime(x.minutes);
    StandsSplit(t, i, ref, time);
  }

  /** After an item, nothing matches up to the next one, or at all. */
  lemma AfterItem(t: string, end: nat, done: nat, sep: string)
    requires end <= done && TimeEndsAt(t, end, done) && Followed(t, done, sep)
    ensures done == |t| ==> Next(InMessage, t, end).None?
    ensures done < |t| ==> Quiet(t, end, done + |sep|)
  {
    if done == |t| { QuietAtEnd(t, end); } else { QuietAfterItem(t, end, done, sep); }
  }

  lemma NothingAhead(t: string, end: nat, known: set<string>)
    requires end <= |t|
    ensures Next(InMessage, t, end).None? ==> AheadOf(t, end, known) == []
  {}

  /** `m` comes first in `ahead`; then comes nothing, or `rest`, which starts after `sep`. */
  ghost predicate NextOnly(t: string, m: Match, done: nat, sep: string, ahead: seq<Match>, rest: seq<Match>) {
    if done == |t| then ahead == [m] else Quiet(t, m.end, done + |sep|) && ahead == [m] + rest
  }

  /** One item, read where it stands; `done` is where its text ends. */
  ghost predicate ReadsItem(t: string, m: Match, x: Item, done: nat, sep: string, ahead: seq<Match>, rest: seq<Match>) {
    && m.start < m.end <= done <= |t|
    && MentionOf(t, m) == Mention(x.key, x.number, HoursFor(x.minutes), m.start, done)
    && NextOnly(t, m, done, sep, ahead, rest)
  }

  lemma ItemAlone(t: string, pos: nat, i: nat, x: Item, ref: string, time: string, sep: string, known: set<string>)
    returns (m: Match, ahead: seq<Match>, rest: seq<Match>)
    requires ValidItem(x) && x.key in known && TextsOf(x, ref, time)
    requires Stands(t, i, ref) && Stands(t, i + |ref|, time) && Followed(t, i + |ref| + |time|, sep)
    requires i > 0 ==> !IsGlue(t[i - 1])
    requires pos <= i && Quiet(t, pos, i)
    ensures m.start == i && m.end <= |t| && ahead == AheadOf(t, pos, known) && rest == AheadOf(t, m.end, known)
    ensures ReadsItem(t, m, x, i + |ref| + |time|, sep, ahead, rest)
  {
    m, ahead, rest := ItemIsAhead(t, pos, i, x, ref, time, sep, known);
    ItemThenRest(t, m, x, ref, time, i + |ref|, i + |ref| + |time|, sep, ahead, rest);
  }

  lemma ItemThenRest(t: string, m: Match, x: Item, ref: string, time: string, end: nat, done: nat, sep: string,
                     ahead: seq<Match>, rest: seq<Match>)
    requires ValidItem(x) && TextsOf(x, ref, time)
    requires m.start < m.end == end <= |t| && m.key == x.key && Int(m.number) == x.number
    requires Stands(t, end, time) && done == end + |time| && Followed(t, done, sep)
    requires ahead == [m] + rest && (Next(InMessage, t, m.end).None? ==> rest == [])
    ensures ReadsItem(t, m, x, done, sep, ahead, rest)
  {
    ItemMention(t, x, m, ref, time, sep);
    AfterItem(t, end, done, sep);
    ComesNext(t, m, done, sep, ahead, rest);
  }

  lemma ComesNext(t: string, m: Match, done: nat, sep: string, ahead: seq<Match>, rest: seq<Match>)
    requires done == |t| ==> rest == []
    requires done != |t| ==> Quiet(t, m.end, done + |sep|)
    requires ahead == [m] + rest
    ensures NextOnly(t, m, done, sep, ahead, rest)
  {}

  /** What stands at place `k`: a text, with nothing glued to it on either side. */
  ghost predicate TextAt(t: string, starts: seq<nat>, texts: seq<string>, seps: seq<string>, k: nat)
    requires |starts| == |texts| && |seps| == |texts| - 1 && k < |texts|
  {
    var done := starts[k] + |texts[k]|;
    var sep := if k + 1 < |texts| then seps[k] else "";
    && Stands(t, starts[k], texts[k]) && Followed(t, done, sep)
    && (starts[k] > 0 ==> !IsGlue(t[starts[k] - 1]))
    && if k + 1 < |texts| then done < |t| && ValidSeparator(sep) && Stands(t, done, sep)
      && starts[k + 1] == done + |sep|
       else done == |t|
  }

  /** What starts at a place where an item stands, and what ends right before it. */
  lemma PlaceStarts(t: string, starts: seq<nat>, texts: seq<string>, seps: seq<string>, k: nat)
    requires |starts| == |texts| && |seps| == |texts| - 1 && k < |texts|
    requires PlacedAt(t, starts, texts, seps, k) && StartsLikeRef(texts[k])
    requires k > 0 ==> PlacedAt(t, starts, texts, seps, k - 1) && ValidSeparator(seps[k - 1])
    ensures starts[k] < |t| && (t[starts[k]] == '#' || IsUpper(t[starts[k]]))
    ensures k > 0 ==> starts[k] > 0 && !IsGlue(t[starts[k] - 1])
  {
    StandsAt(t, starts[k], texts[k], 0);
    if k > 0 { SeparatorEnds(t, starts[k - 1] + |texts[k - 1]|, seps[k - 1]); }
  }

  lemma TextOfPlace(t: string, starts: seq<nat>, texts: seq<string>, seps: seq<string>, k: nat)
    requires |starts| == |texts| && |seps| == |texts| - 1 && k < |texts|
    requires PlacedAt(t, starts, texts, seps, k) && starts[k] <= |t| && (starts[k] > 0 ==> !IsGlue(t[starts[k] - 1]))
    requires k + 1 < |texts| ==>
      ValidSeparator(seps[k]) && starts[k + 1] < |t| && (t[starts[k + 1]] == '#' || IsUpper(t[starts[k + 1]]))
    ensures TextAt(t, starts, texts, seps, k)
  {}

  lemma PlaceOfText(t: string, starts: seq<nat>, texts: seq<string>, seps: seq<string>, k: nat)
    requires |starts| == |texts| && |seps| == |texts| - 1 && k < |texts|
    requires forall j :: 0 <= j < |texts| ==> StartsLikeRef(texts[j])
    requires forall s :: s in seps ==> ValidSeparator(s)
    requires forall j :: 0 <= j < |texts| ==> PlacedAt(t, starts, texts, seps, j)
    requires 0 < starts[0] <= |t| && !IsGlue(t[starts[0] - 1])
    ensures TextAt(t, starts, texts, seps, k)
  {
    assert PlacedAt(t, starts, texts, seps, k);
    if k > 0 { assert PlacedAt(t, starts, texts, seps, k - 1); }
    PlaceStarts(t, starts, texts, seps, k);
    if k + 1 < |texts| {
      assert PlacedAt(t, starts, texts, seps, k + 1);
      PlaceStarts(t, starts, texts, seps, k + 1);
    }
    TextOfPlace(t, starts, texts, seps, k);
  }

  /** Reading an item where its text stands. */
  lemma TextReads(t: string, pos: nat, i: nat, x: Item, text: string, sep: string, known: set<string>)
    returns (m: Match)
    requires ValidItem(x) && x.key in known && text == PrintItem(x)
    requires Stands(t, i, text) && Followed(t, i + |text|, sep)
    requires i > 0 ==> !IsGlue(t[i - 1])
    requires pos <= i && Quiet(t, pos, i)
    ensures m.start == i && m.end <= |t|
    ensures ReadsItem(t, m, x, i + |text|, sep, AheadOf(t, pos, known), AheadOf(t, m.end, known))
  {
    var ref, time := PiecesOfItem(t, i, x, text);
    var ahead, rest;
    m, ahead, rest := ItemAlone(t, pos, i, x, ref, time, sep, known);
  }

  lemma {:induction false} PrintedText(items: seq<Item>, k: nat)
    requires k < |items|
    ensures PrintItems(items)[k] == PrintItem(items[k])
  {
    if k > 0 { PrintedText(items[1..], k - 1); }
  }

  /** Reading item `k` where it stands. */
  lemma StepAt(t: string, starts: seq<nat>, items: seq<Item>, seps: seq<string>, k: nat, pos: nat, known: set<string>)
    returns (m: Match, done: nat, sep: string)
    requires |starts| == |items| && |seps| == |items| - 1 && k < |items|
    requires ItemAt(t, starts, items, seps, known, k)
    requires pos <= starts[k] && Quiet(t, pos, starts[k])
    ensures m.start == starts[k] && m.end <= |t|
    ensures ReadsItem(t, m, items[k], done, sep, AheadOf(t, pos, known), AheadOf(t, m.end, known))
    ensures if k + 1 < |items| then done < |t| && starts[k + 1] == done + |sep| <= |t|
        && IsSeparator(t[done..starts[k + 1]])
            else done == |t|
  {
    PrintedText(items, k);
    var text := PrintItems(items)[k];
    sep := if k < |seps| then seps[k] else "";
    done := starts[k] + |text|;
    SeparatorAfter(t, starts, PrintItems(items), seps, k);
    m := TextReads(t, pos, starts[k], items[k], text, sep, known);
  }

  lemma SeparatorAfter(t: string, starts: seq<nat>, texts: seq<string>, seps: seq<string>, k: nat)
    requires |starts| == |texts| && |seps| == |texts| - 1 && k < |texts|
    requires TextAt(t, starts, texts, seps, k)
    ensures var done := starts[k] + |texts[k]|;
      if k + 1 < |texts| then done < |t| && starts[k + 1] == done + |seps[k]| <= |t|
        && IsSeparator(t[done..starts[k + 1]])
      else done == |t|
  {
    if k + 1 < |texts| { StandsSlice(t, starts[k] + |texts[k]|, seps[k]); }
  }

  /** Place `k` holds the printed form of item `k`, and nothing there disturbs it. */
  ghost predicate ItemAt(t: string, starts: seq<nat>, items: seq<Item>, seps: seq<string>, known: set<string>, k: nat)
    requires |starts| == |items| && |seps| == |items| - 1 && k < |items|
  {
    TextAt(t, starts, PrintItems(items), seps, k) && ValidItem(items[k]) && items[k].key in known
  }

  /** From item `k` on, every match is the next item. */
  lemma {:induction false} ListReadsBack(t: string, starts: seq<nat>, items: seq<Item>, seps: seq<string>, k: nat,
                                         pos: nat, known: set<string>)
    returns (ms: seq<Match>)
    requires |starts| == |items| && |seps| == |items| - 1 && k < |items|
    requires forall j :: 0 <= j < |items| ==> ItemAt(t, starts, items, seps, known, j)
    requires pos <= |t| && pos <= starts[k] && Quiet(t, pos, starts[k])
    ensures ListRead(t, pos, starts[k], items[k..], ms, known)
    decreases |items| - k
  {
    var m, done, sep := StepAt(t, starts, items, seps, k, pos, known);
    if k + 1 == |items| {
      ms := LastReads(t, pos, m, items, k, sep, known);
    } else {
      var rest := ListReadsBack(t, starts, items, seps, k + 1, m.end, known);
      ms := MoreReads(t, pos, m, items, k, done, sep, starts[k + 1], rest, known);
    }
  }

  /** What is left of the text from `pos` reads as `items`, the first of them at `start`. */
  ghost predicate ListRead(t: string, pos: nat, start: nat, items: seq<Item>, ms: seq<Match>, known: set<string>) {
    && pos <= |t| && AheadOf(t, pos, known) == ms
    && ms != [] && Within(t, ms) && ReadsAs(t, Annotate(t, ms), items) && ms[0].start == start
  }

  lemma LastReads(t: string, pos: nat, m: Match, items: seq<Item>, k: nat, sep: string, known: set<string>)
    returns (ms: seq<Match>)
    requires k + 1 == |items| && pos <= |t| && m.end <= |t|
    requires ReadsItem(t, m, items[k], |t|, sep, AheadOf(t, pos, known), AheadOf(t, m.end, known))
    ensures ListRead(t, pos, m.start, items[k..], ms, known)
  {
    ms := [m];
    ReadsCons(t, m, |t|, [], items[k], []);
    assert items[k..] == [items[k]] + [];
  }

  lemma MoreReads(t: string, pos: nat, m: Match, items: seq<Item>, k: nat, done: nat, sep: string, next: nat,
                  rest: seq<Match>, known: set<string>)
    returns (ms: seq<Match>)
    requires k + 1 < |items| && pos <= |t| && m.end <= |t|
    requires ReadsItem(t, m, items[k], done, sep, AheadOf(t, pos, known), AheadOf(t, m.end, known))
    requires done < |t| && ListRead(t, m.end, next, items[k + 1..], rest, known)
    requires done <= next <= |t| && IsSeparator(t[done..next])
    ensures ListRead(t, pos, m.start, items[k..], ms, known)
  {
    ms := [m] + rest;
    ReadsCons(t, m, done, rest, items[k], items[k + 1..]);
    assert items[k..] == [items[k]] + items[k + 1..];
  }

  lemma ReadsCons(t: string, m: Match, done: nat, rest: seq<Match>, x: Item, items: seq<Item>)
    requires m.start < m.end <= done <= |t| && Within(t, rest)
    requires ReadsAs(t, Annotate(t, rest), items)
    requires MentionOf(t, m) == Mention(x.key, x.number, HoursFor(x.minutes), m.start, done)
    requires rest != [] ==> done <= rest[0].start <= |t| && IsSeparator(t[done..rest[0].start])
    ensures Within(t, [m] + rest) && ReadsAs(t, Annotate(t, [m] + rest), [x] + items)
  {
    var ms := [m] + rest;
    assert ms[1..] == rest && ([x] + items)[1..] == items;
    var xs := Annotate(t, ms);
    assert xs[0] == MentionOf(t, m) && xs[1..] == Annotate(t, rest);
  }

  /** Every mention of a printed list fixes its issue. */
  lemma {:induction false} EveryMentionFixes(t: string, xs: seq<Mention>, items: seq<Item>, n: nat)
    requires ReadsAs(t, xs, items) && n < |xs| && InOrder(t, xs)
    requires FixingGap(Gap(t, xs, 0))
    ensures FixesAt(t, xs, n)
  {
    ReadsAt(t, xs, items);
    FixesAtStep(t, xs, n);
    if n > 0 { EveryMentionFixes(t, xs, items, n - 1); }
  }

  lemma {:induction false} ExpectedAt(items: seq<Item>, k: nat)
    requires k < |items|
    ensures Expected(items)[k] == Ref(items[k].key, items[k].number, Fixing, HoursFor(items[k].minutes))
  {
    if k > 0 { ExpectedAt(items[1..], k - 1); }
  }

  lemma {:induction false} MergedDistinct(refs: seq<Ref>)
    requires Distinct(refs)
    ensures Merged(refs) == refs
  {
    if refs != [] {
      var before, last := refs[..|refs| - 1], refs[|refs| - 1];
      MergedDistinct(before);
      MergeAt(before, last, |before|);
    }
  }

  lemma ExpectedDistinct(items: seq<Item>)
    requires DistinctItems(items) && forall x :: x in items ==> ValidItem(x)
    ensures Distinct(Expected(items))
  {
    forall i, j | 0 <= i < j < |items|
      ensures Expected(items)[i].DisplayKey() != Expected(items)[j].DisplayKey()
    {
      ExpectedAt(items, i);
      ExpectedAt(items, j);
      var x, y := items[i], items[j];
      assert x in items && y in items;
      if x.key + "-" + Decimal(x.number) == y.key + "-" + Decimal(y.number) {
        DisplayKeyIsInjective(x.key, x.number, y.key, y.number);
      }
    }
  }

  lemma FixesIsFixing(t: string)
    requires |t| >= 6 && t[0..6] == "Fixes "
    ensures FixingGap(t[0..6])
    ensures Quiet(t, 0, 6)
  {
    var gap := "Fixes ";
    var word := gap[0..5];
    assert word == "Fixes";
    assert LowerText(word) == "fixes";
    assert FIXING_WORDS[0] == "fixes";
    assert KeywordShape(gap, 0, 5, 6);
    assert forall j :: 0 <= j < 6 ==> t[j] == gap[j];
    forall j | 0 <= j < 6 ensures MatchAt(t, j).None? {
      if MatchAt(t, j).Some? {
        var k, e := MessageRegexIsScanner(t, j);
      }
    }
  }

  lemma {:induction false} FoundIsExpected(t: string, xs: seq<Mention>, items: seq<Item>, found: seq<Ref>)
    requires ReadsAs(t, xs, items) && Agree(t, xs, found)
    requires xs != [] && FixingGap(Gap(t, xs, 0))
    ensures found == Expected(items)
  {
    ReadsAt(t, xs, items);
    forall k | 0 <= k < |items| ensures found[k] == Expected(items)[k] {
      ExpectedAt(items, k);
      EveryMentionFixes(t, xs, items, k);
    }
  }

  lemma PlacesOfItems(t: string, starts: seq<nat>, items: seq<Item>, seps: seq<string>)
    requires |starts| == |items| && |seps| == |items| - 1 && items != []
    requires forall x :: x in items ==> ValidItem(x)
    requires forall s :: s in seps ==> ValidSeparator(s)
    requires forall j :: 0 <= j < |items| ==> PlacedAt(t, starts, PrintItems(items), seps, j)
    requires 0 < starts[0] <= |t| && !IsGlue(t[starts[0] - 1])
    ensures forall k :: 0 <= k < |items| ==> TextAt(t, starts, PrintItems(items), seps, k)
  {
    forall k | 0 <= k < |items| ensures StartsLikeRef(PrintItems(items)[k]) { PrintItemsAt(items, k); }
    forall k | 0 <= k < |items| ensures TextAt(t, starts, PrintItems(items), seps, k) {
      PlaceOfText(t, starts, PrintItems(items), seps, k);
    }
  }

  lemma MessageMentions(t: string, items: seq<Item>, seps: seq<string>, known: set<string>)
    requires items != [] && |seps| == |items| - 1
    requires forall x :: x in items ==> ValidItem(x) && x.key in known
    requires forall s :: s in seps ==> ValidSeparator(s)
    requires 6 <= |t| && t[0..6] == "Fixes " && t[5] == ' ' && t[6..] == Join(PrintItems(items), seps)
    ensures ReadsAs(t, MentionsOf(t, known), items) && MentionsOf(t, known) != [] && InOrder(t, MentionsOf(t, known))
    ensures FixingGap(Gap(t, MentionsOf(t, known), 0))
  {
    var starts := ItemsArePlaced(t, 6, items, seps, known);
    FixesIsFixing(t);
    FirstGap(t, starts, items, seps, known);
  }

  lemma ItemsArePlaced(t: string, i: nat, items: seq<Item>, seps: seq<string>, known: set<string>)
    returns (starts: seq<nat>)
    requires items != [] && |seps| == |items| - 1
    requires forall x :: x in items ==> ValidItem(x) && x.key in known
    requires forall s :: s in seps ==> ValidSeparator(s)
    requires 0 < i <= |t| && t[i - 1] == ' ' && t[i..] == Join(PrintItems(items), seps)
    ensures |starts| == |items| && starts[0] == i
    ensures forall k :: 0 <= k < |items| ==> ItemAt(t, starts, items, seps, known, k)
  {
    starts := JoinedIsPlaced(t, i, PrintItems(items), seps);
    PlacesOfItems(t, starts, items, seps);
    forall k | 0 <= k < |items| ensures ItemAt(t, starts, items, seps, known, k) { assert items[k] in items; }
  }

  lemma FirstGap(t: string, starts: seq<nat>, items: seq<Item>, seps: seq<string>, known: set<string>)
    requires items != [] && |starts| == |items| && |seps| == |items| - 1
    requires forall j :: 0 <= j < |items| ==> ItemAt(t, starts, items, seps, known, j)
    requires starts[0] <= |t| && Quiet(t, 0, starts[0]) && FixingGap(t[0..starts[0]])
    ensures ReadsAs(t, MentionsOf(t, known), items) && MentionsOf(t, known) != [] && InOrder(t, MentionsOf(t, known))
    ensures FixingGap(Gap(t, MentionsOf(t, known), 0))
  {
    var ms := ListReadsBack(t, starts, items, seps, 0, 0, known);
    assert items[0..] == items;
    ReadsAt(t, MentionsOf(t, known), items);
  }

  lemma ReadMessage(t: string, items: seq<Item>, seps: seq<string>, known: set<string>)
    requires items != [] && |seps| == |items| - 1
    requires forall x :: x in items ==> ValidItem(x) && x.key in known
    requires forall s :: s in seps ==> ValidSeparator(s)
    requires DistinctItems(items)
    requires 6 <= |t| && t[0..6] == "Fixes " && t[6..] == Join(PrintItems(items), seps)
    ensures Extract(t, known) == Expected(items)
  {
    assert t[5] == t[0..6][5];
    MessageMentions(t, items, seps, known);
    FoundAgrees(t, known);
    FoundIsExpected(t, MentionsOf(t, known), items, Found(t, Mentions(InMessage, t, known)));
    ExpectedDistinct(items);
    MergedDistinct(Expected(items));
  }

  lemma PrintedPieces(t: string, items: seq<Item>, seps: seq<string>)
    requires items != [] && |seps| == |items| - 1 && t == PrintMessage(items, seps)
    ensures 6 <= |t| && t[0..6] == "Fixes " && t[6..] == Join(PrintItems(items), seps)
  {}

  /** Printing references and extracting them is the identity: exactly the listed
      issues, in order, all `fixes`, each with its time. */
  lemma PrintThenExtract(t: string, items: seq<Item>, seps: seq<string>, known: set<string>)
    requires items != [] && |seps| == |items| - 1
    requires forall x :: x in items ==> ValidItem(x) && x.key in known
    requires forall s :: s in seps ==> ValidSeparator(s)
    requires DistinctItems(items)
    requires t == PrintMessage(items, seps)
    ensures Extract(t, known) == Expected(items)
  {
    PrintedPieces(t, items, seps);
    ReadMessage(t, items, seps, known);
  }
}
