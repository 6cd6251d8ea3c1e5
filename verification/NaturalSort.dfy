/** Natural ordering of free-text names (specivo/core/natural_sort.py). */
module NaturalSort {
  import opened Ascii
  import opened Sequences

  // -------------------------------------------------------------------------
  // The key
  // -------------------------------------------------------------------------

  /** The length of the longest prefix of `s` made of digits (or of non-digits). */
  function RunLength(s: string, digits: bool): (n: nat)
    ensures n <= |s|
    ensures forall i :: 0 <= i < n ==> IsDigit(s[i]) == digits
    ensures n < |s| ==> IsDigit(s[n]) != digits
  {
    if s == "" || IsDigit(s[0]) != digits then 0 else 1 + RunLength(s[1..], digits)
  }

  /** `re.split` on digit runs, with the runs kept. */
  function Split(s: string): seq<string> {
    var t := RunLength(s, false);
    if t == |s| then [s]
    else
      var d := RunLength(s[t..], true);
      [s[..t], s[t..t + d]] + Split(s[t + d..])
  }

  datatype Part = Text(text: string) | Number(value: nat)

  /** Every other run, from the second on, becomes a number. */
  function ToParts(runs: seq<string>, odd: bool): (parts: seq<Part>)
    ensures |parts| == |runs|
  {
    if runs == [] then []
    else [if odd then Number(Int(runs[0])) else Text(runs[0])] + ToParts(runs[1..], !odd)
  }

  /** The key's first component. */
  function Parts(folded: string): seq<Part> { ToParts(Split(folded), false) }

  // -------------------------------------------------------------------------
  // The order: Python compares sequences element by element, a prefix first
  // -------------------------------------------------------------------------

  function Sign(n: int): int { if n < 0 then -1 else if n > 0 then 1 else 0 }

  function Lexicographic<T>(a: seq<T>, b: seq<T>, compare: (T, T) -> int): int {
    if a == [] || b == [] then Sign(|a| - |b|)
    else if compare(a[0], b[0]) != 0 then compare(a[0], b[0])
    else Lexicographic(a[1..], b[1..], compare)
  }

  function CompareChar(c: char, d: char): int { Sign(c as int - d as int) }

  function CompareText(a: string, b: string): int { Lexicographic(a, b, CompareChar) }

  /** A text and a number are never compared (see `KindsAlternate`), so their order is immaterial. */
  function ComparePart(p: Part, q: Part): int {
    match (p, q)
    case (Text(a), Text(b)) => CompareText(a, b)
    case (Number(m), Number(n)) => Sign(m - n)
    case (Text(_), Number(_)) => -1
    case (Number(_), Text(_)) => 1
  }

  function CompareParts(a: seq<Part>, b: seq<Part>): int { Lexicographic(a, b, ComparePart) }

  /** The order of `natural_sort_key`: the parts first, then the name itself. */
  function CompareNames(a: string, b: string): int {
    var byParts := CompareParts(Parts(LowerText(a)), Parts(LowerText(b)));
    if byParts != 0 then byParts else CompareText(a, b)
  }

  // -------------------------------------------------------------------------
  // The tokenizer
  // -------------------------------------------------------------------------

  ghost predicate AllDigits(s: string) { forall c :: c in s ==> IsDigit(c) }
  ghost predicate NoDigits(s: string) { forall c :: c in s ==> !IsDigit(c) }

  /** Text and digit runs in turn, text first and last; only the first and the last
      text may be empty. */
  ghost predicate Alternating(runs: seq<string>) {
    && runs != []
    && NoDigits(runs[0])
    && (|runs| > 1 ==>
          && |runs| > 2
          && AllDigits(runs[1]) && runs[1] != ""
          && (|runs| > 3 ==> runs[2] != "")
          && Alternating(runs[2..]))
  }

  function Concat(runs: seq<string>): string {
    if runs == [] then "" else runs[0] + Concat(runs[1..])
  }

  /** A text cut into its first text run, its first digit run and the rest. */
  lemma FirstRuns(s: string) returns (text: string, digits: string, rest: string)
    requires RunLength(s, false) < |s|
    ensures s == text + digits + rest && |rest| < |s|
    ensures NoDigits(text) && AllDigits(digits) && digits != ""
    ensures rest != "" ==> !IsDigit(rest[0])
    ensures Split(s) == [text, digits] + Split(rest)
  {
    var t := RunLength(s, false);
    var d := RunLength(s[t..], true);
    text, digits, rest := s[..t], s[t..t + d], s[t + d..];
    assert digits == s[t..][..d];
    if rest != "" { assert rest[0] == s[t..][d]; }
  }

  /** The runs alternate and concatenate back to the text. */
  lemma {:induction false} SplitAlternates(s: string)
    ensures Alternating(Split(s))
    ensures Concat(Split(s)) == s
    decreases |s|
  {
    if RunLength(s, false) < |s| {
      var text, digits, rest := FirstRuns(s);
      SplitAlternates(rest);
      assert Split(s)[2..] == Split(rest) && Split(s)[1..][1..] == Split(rest);
    } else {
      assert [s][1..] == [];
    }
  }

  /** Text at even positions, digits at odd ones, and an odd number of runs: so two
      keys never compare a string with an integer. */
  lemma {:induction false} KindsAlternate(runs: seq<string>, i: nat)
    requires Alternating(runs) && i < |runs|
    ensures ToParts(runs, false)[i] == if i % 2 == 1 then Number(Int(runs[i])) else Text(runs[i])
    ensures if i % 2 == 1 then AllDigits(runs[i]) && runs[i] != "" else NoDigits(runs[i])
    ensures |runs| % 2 == 1
  {
    if |runs| > 1 {
      UnfoldParts(runs);
      KindsAlternate(runs[2..], if i < 2 then 0 else i - 2);
    }
  }

  lemma UnfoldParts(runs: seq<string>)
    requires |runs| >= 2
    ensures ToParts(runs, false) == [Text(runs[0]), Number(Int(runs[1]))] + ToParts(runs[2..], false)
  {
    assert runs[1..][1..] == runs[2..];
  }

  /** `Split` is the only alternating reading of a text. */
  lemma {:induction false} SplitIsUnique(runs: seq<string>)
    requires Alternating(runs)
    ensures Split(Concat(runs)) == runs
  {
    if |runs| == 1 {
      assert runs[1..] == [] && Concat(runs) == runs[0];
      RunOf(runs[0], "", false);
      assert runs[0] + "" == runs[0];
    } else {
      var rest := runs[2..];
      SplitIsUnique(rest);
      ConcatTwo(runs);
      if Concat(rest) != "" { ConcatStarts(rest); }
      SplitJoin(runs[0], runs[1], Concat(rest));
      assert runs == [runs[0], runs[1]] + rest;
    }
  }

  lemma ConcatTwo(runs: seq<string>)
    requires |runs| >= 2
    ensures Concat(runs) == runs[0] + runs[1] + Concat(runs[2..])
  {
    assert runs[1..][1..] == runs[2..];
  }

  /** What follows a digit run is no digit. */
  lemma ConcatStarts(runs: seq<string>)
    requires Alternating(runs) && Concat(runs) != "" && (|runs| > 1 ==> runs[0] != "")
    ensures !IsDigit(Concat(runs)[0])
  {
    if |runs| == 1 { assert runs[1..] == []; }
    assert Concat(runs)[0] == runs[0][0] && runs[0][0] in runs[0];
  }

  /** One text run, one digit run that ends where it must, and the rest. */
  lemma SplitJoin(text: string, digits: string, rest: string)
    requires NoDigits(text) && AllDigits(digits) && digits != ""
    requires rest != "" ==> !IsDigit(rest[0])
    ensures Split(text + digits + rest) == [text, digits] + Split(rest)
  {
    var s, tail := text + digits + rest, digits + rest;
    RunOf(text, tail, false);
    RunOf(digits, rest, true);
    assert s == text + tail && s[|text|..] == tail && s[..|text|] == text;
    assert s[|text|..|text| + |digits|] == digits && s[|text| + |digits|..] == rest;
  }

  lemma {:induction false} RunOf(run: string, rest: string, digits: bool)
    requires forall c :: c in run ==> IsDigit(c) == digits
    requires rest != "" ==> IsDigit(rest[0]) != digits
    ensures RunLength(run + rest, digits) == |run|
  {
    if run != "" {
      assert (run + rest)[1..] == run[1..] + rest;
      assert run[0] in run;
      RunOf(run[1..], rest, digits);
    } else {
      assert run + rest == rest;
    }
  }

  // -------------------------------------------------------------------------
  // A strict total order
  // -------------------------------------------------------------------------

  /** What a three-way comparison must satisfy to be a total order. */
  ghost predicate TotalOrder<T(!new)>(compare: (T, T) -> int) {
    && (forall x, y :: compare(x, y) == 0 <==> x == y)
    && (forall x, y :: compare(x, y) < 0 <==> compare(y, x) > 0)
    && (forall x, y, z :: compare(x, y) < 0 && compare(y, z) < 0 ==> compare(x, z) < 0)
  }

  lemma {:induction false} LexicographicEqual<T(!new)>(a: seq<T>, b: seq<T>, compare: (T, T) -> int)
    requires TotalOrder(compare)
    ensures Lexicographic(a, b, compare) == 0 <==> a == b
    ensures Lexicographic(a, b, compare) < 0 <==> Lexicographic(b, a, compare) > 0
  {
    if a != [] && b != [] {
      LexicographicEqual(a[1..], b[1..], compare);
      if a[0] == b[0] {
        assert a == [a[0]] + a[1..] && b == [b[0]] + b[1..];
      }
    }
  }

  lemma {:induction false} LexicographicTransitive<T(!new)>(a: seq<T>, b: seq<T>, c: seq<T>, compare: (T, T) -> int)
    requires TotalOrder(compare)
    requires Lexicographic(a, b, compare) < 0 && Lexicographic(b, c, compare) < 0
    ensures Lexicographic(a, c, compare) < 0
  {
    if a != [] && b != [] && c != [] {
      if compare(a[0], b[0]) == 0 && compare(b[0], c[0]) == 0 {
        LexicographicTransitive(a[1..], b[1..], c[1..], compare);
      }
    }
  }

  lemma LexicographicIsTotalOrder<T(!new)>(compare: (T, T) -> int)
    requires TotalOrder(compare)
    ensures forall a: seq<T>, b: seq<T> :: Lexicographic(a, b, compare) == 0 <==> a == b
    ensures forall a: seq<T>, b: seq<T> :: Lexicographic(a, b, compare) < 0 <==> Lexicographic(b, a, compare) > 0
    ensures forall a: seq<T>, b: seq<T>, c: seq<T> ::
              Lexicographic(a, b, compare) < 0 && Lexicographic(b, c, compare) < 0
              ==> Lexicographic(a, c, compare) < 0
  {
    forall a: seq<T>, b: seq<T>
      ensures Lexicographic(a, b, compare) == 0 <==> a == b
      ensures Lexicographic(a, b, compare) < 0 <==> Lexicographic(b, a, compare) > 0
    {
      LexicographicEqual(a, b, compare);
    }
    forall a: seq<T>, b: seq<T>, c: seq<T> |
      Lexicographic(a, b, compare) < 0 && Lexicographic(b, c, compare) < 0
      ensures Lexicographic(a, c, compare) < 0
    {
      LexicographicTransitive(a, b, c, compare);
    }
  }

  lemma ComponentOrders()
    ensures TotalOrder(CompareText)
    ensures TotalOrder(ComparePart)
    ensures TotalOrder(CompareParts)
  {
    assert TotalOrder(CompareChar);
    LexicographicIsTotalOrder(CompareChar);
    assert TotalOrder(CompareText);
    assert TotalOrder(ComparePart);
    LexicographicIsTotalOrder(ComparePart);
  }

  /** The order on names is a strict total order: any two different names compare
      one way, never both, and consistently. */
  lemma NamesAreTotallyOrdered()
    ensures TotalOrder(CompareNames)
  {
    ComponentOrders();
  }

  // -------------------------------------------------------------------------
  // Prefixes and numbers
  // -------------------------------------------------------------------------

  lemma {:induction false} ValueGrows(digits: string, more: string)
    ensures Int(digits) <= Int(digits + more)
  {
    if more != "" {
      var all := digits + more;
      var shorter := more[..|more| - 1];
      assert all[..|all| - 1] == digits + shorter;
      ValueGrows(digits, shorter);
    } else {
      assert digits + more == digits;
    }
  }

  lemma {:induction false} TextPrefix(p: string, s: string)
    requires p <= s
    ensures CompareText(p, s) == Sign(|p| - |s|)
  {
    if p != "" { TextPrefix(p[1..], s[1..]); }
  }

  lemma {:induction false} CommonRuns(p: string, s: string)
    requires p <= s
    ensures RunLength(p, false) <= RunLength(s, false)
    ensures RunLength(p, false) < |p| ==> RunLength(s, false) == RunLength(p, false)
    ensures RunLength(p, true) <= RunLength(s, true)
    ensures RunLength(p, true) < |p| ==> RunLength(s, true) == RunLength(p, true)
  {
    if p != "" { CommonRuns(p[1..], s[1..]); }
  }

  lemma PartsJoin(text: string, digits: string, rest: string)
    requires NoDigits(text) && AllDigits(digits) && digits != ""
    requires rest != "" ==> !IsDigit(rest[0])
    ensures Parts(text + digits + rest) == [Text(text), Number(Int(digits))] + Parts(rest)
  {
    SplitJoin(text, digits, rest);
    var runs := Split(text + digits + rest);
    UnfoldParts(runs);
    assert runs[2..] == Split(rest);
  }

  lemma AfterEqualText(x: string, m: nat, a: seq<Part>, n: nat, b: seq<Part>)
    ensures CompareParts([Text(x), Number(m)] + a, [Text(x), Number(n)] + b)
         == if m != n then Sign(m - n) else CompareParts(a, b)
  {
    var s, t := [Text(x), Number(m)] + a, [Text(x), Number(n)] + b;
    TextPrefix(x, x);
    assert s[1..] == [Number(m)] + a && t[1..] == [Number(n)] + b;
    assert CompareParts(s, t) == CompareParts(s[1..], t[1..]);
    assert s[1..][1..] == a && t[1..][1..] == b;
  }

  /** A folded name's first text decides first. */
  lemma FirstText(s: string) returns (text: string)
    ensures text <= s && |text| == RunLength(s, false)
    ensures Parts(s) != [] && Parts(s)[0] == Text(text)
    ensures text == s ==> Parts(s) == [Text(s)]
  {
    text := s[..RunLength(s, false)];
    if text == s { assert Split(s) == [s]; assert [s][1..] == []; }
  }

  lemma {:induction false} PartsOfPrefix(p: string, s: string)
    requires p <= s
    ensures CompareParts(Parts(p), Parts(s)) <= 0
    decreases |p|
  {
    CommonRuns(p, s);
    if RunLength(p, false) == |p| {
      TextOfPrefix(p, s);
    } else {
      var text, digits, rest, digits', rest' := SharedRuns(p, s);
      PartsJoin(text, digits, rest);
      PartsJoin(text, digits', rest');
      ValueGrows(digits, digits'[|digits|..]);
      assert digits' == digits + digits'[|digits|..];
      AfterEqualText(text, Int(digits), Parts(rest), Int(digits'), Parts(rest'));
      PartsOfPrefix(rest, rest');
    }
  }

  /** A prefix without digits sorts first, or together with what has the same text. */
  lemma TextOfPrefix(p: string, s: string)
    requires p <= s && RunLength(p, false) == |p|
    ensures CompareParts(Parts(p), Parts(s)) <= 0
  {
    CommonRuns(p, s);
    var u := FirstText(p);
    var v := FirstText(s);
    assert p <= v;
    TextPrefix(p, v);
    assert Parts(p)[1..] == [];
    if p == v { assert CompareParts(Parts(p), Parts(s)) == CompareParts([], Parts(s)[1..]); }
  }

  /** A prefix that reaches into a digit run shares the text before it, and either
      ends in that run or shares it too. */
  lemma SharedRuns(p: string, s: string)
    returns (text: string, digits: string, rest: string, digits': string, rest': string)
    requires p <= s && RunLength(p, false) < |p|
    ensures p == text + digits + rest && s == text + digits' + rest' && |rest| < |p|
    ensures NoDigits(text) && AllDigits(digits) && digits != "" && AllDigits(digits') && digits' != ""
    ensures rest != "" ==> !IsDigit(rest[0])
    ensures rest' != "" ==> !IsDigit(rest'[0])
    ensures digits <= digits' && rest <= rest'
  {
    var u, text', v;
    text, u, text', v := CutBoth(p, s, false);
    digits, rest, digits', rest' := CutBoth(u, v, true);
  }

  lemma CutPrefix(p: string, s: string, n: nat, m: nat)
    requires p <= s && n <= |p| && n <= m <= |s| && (n < |p| ==> n == m)
    ensures p[..n] <= s[..m] && p[n..] <= s[m..] && (p[n..] != "" ==> p[..n] == s[..m])
  {
    assert p == s[..|p|];
  }

  /** Cutting a prefix and its extension after their first runs. */
  lemma CutBoth(p: string, s: string, digits: bool)
    returns (run: string, rest: string, run': string, rest': string)
    requires p <= s
    ensures p == run + rest && s == run' + rest' && |run| == RunLength(p, digits) && |run'| == RunLength(s, digits)
    ensures run <= run' && rest <= rest' && (rest != "" ==> run == run')
    ensures if digits then AllDigits(run') else NoDigits(run')
    ensures if digits then AllDigits(run) else NoDigits(run)
    ensures rest != "" ==> IsDigit(rest[0]) != digits
    ensures rest' != "" ==> IsDigit(rest'[0]) != digits
  {
    CommonRuns(p, s);
    run, rest := Cut(p, digits);
    run', rest' := Cut(s, digits);
    CutPrefix(p, s, |run|, |run'|);
  }

  lemma Cut(s: string, digits: bool) returns (run: string, rest: string)
    ensures s == run + rest
    ensures run == s[..RunLength(s, digits)] && rest == s[RunLength(s, digits)..]
    ensures if digits then AllDigits(run) else NoDigits(run)
    ensures rest != "" ==> IsDigit(rest[0]) != digits
  {
    var n := RunLength(s, digits);
    run, rest := s[..n], s[n..];
  }

  /** A proper prefix of a name sorts strictly before the name. */
  lemma PrefixSortsFirst(p: string, s: string)
    requires p < s
    ensures CompareNames(p, s) < 0
  {
    assert LowerText(p) <= LowerText(s);
    PartsOfPrefix(LowerText(p), LowerText(s));
    TextPrefix(p, s);
  }

  /** Names that agree up to case and then hold a digit run each compare by the
      runs' numeric values, whatever their lengths, and by what follows when those
      are equal. */
  lemma {:induction false} NumbersCompareByValue(a: string, digits: string, digits': string, rest: string,
                                                 rest': string)
    requires a != "" ==> !IsDigit(a[|a| - 1])
    requires AllDigits(digits) && digits != "" && AllDigits(digits') && digits' != ""
    requires rest != "" ==> !IsDigit(rest[0])
    requires rest' != "" ==> !IsDigit(rest'[0])
    ensures CompareParts(Parts(a + digits + rest), Parts(a + digits' + rest'))
         == if Int(digits) != Int(digits') then Sign(Int(digits) - Int(digits'))
            else CompareParts(Parts(rest), Parts(rest'))
    decreases |a|
  {
    if RunLength(a, false) == |a| {
      PartsJoin(a, digits, rest);
      PartsJoin(a, digits', rest');
      AfterEqualText(a, Int(digits), Parts(rest), Int(digits'), Parts(rest'));
    } else {
      var text, run, tail := RunsBefore(a);
      NumbersCompareByValue(tail, digits, digits', rest, rest');
      PartsAfter(text, run, tail, digits, rest);
      PartsAfter(text, run, tail, digits', rest');
      AfterEqualText(text, Int(run), Parts(tail + digits + rest), Int(run), Parts(tail + digits' + rest'));
    }
  }

  lemma RunsBefore(a: string) returns (text: string, run: string, tail: string)
    requires RunLength(a, false) < |a| && !IsDigit(a[|a| - 1])
    ensures a == text + run + tail && |tail| < |a|
    ensures NoDigits(text) && AllDigits(run) && run != ""
    ensures tail != "" && !IsDigit(tail[0]) && !IsDigit(tail[|tail| - 1])
  {
    text, run, tail := FirstRuns(a);
    assert run[|run| - 1] in run;
  }

  lemma PartsAfter(text: string, run: string, tail: string, digits: string, rest: string)
    requires NoDigits(text) && AllDigits(run) && run != "" && tail != "" && !IsDigit(tail[0])
    ensures Parts(text + run + tail + digits + rest)
         == [Text(text), Number(Int(run))] + Parts(tail + digits + rest)
  {
    var more := tail + digits + rest;
    assert text + run + tail + digits + rest == text + run + more;
    assert more[0] == tail[0];
    PartsJoin(text, run, more);
  }

  /** The order on names follows: `Sprint 9` sorts before `sprint 10`. */
  lemma NamesCompareByNumber(a: string, b: string, digits: string, digits': string, rest: string, rest': string)
    requires LowerText(a) == LowerText(b)
    requires a != "" ==> !IsDigit(a[|a| - 1])
    requires AllDigits(digits) && digits != "" && AllDigits(digits') && digits' != ""
    requires rest != "" ==> !IsDigit(rest[0])
    requires rest' != "" ==> !IsDigit(rest'[0])
    requires Int(digits) != Int(digits')
    ensures CompareNames(a + digits + rest, b + digits' + rest') < 0 <==> Int(digits) < Int(digits')
  {
    FoldJoin(a, digits, rest);
    FoldJoin(b, digits', rest');
    FoldKeepsDigits(a);
    FoldKeepsDigits(rest);
    FoldKeepsDigits(rest');
    NumbersCompareByValue(LowerText(a), digits, digits', LowerText(rest), LowerText(rest'));
    PartsDecide(a + digits + rest, b + digits' + rest');
  }

  lemma FoldKeepsDigits(s: string)
    ensures s != "" ==> (IsDigit(LowerText(s)[0]) <==> IsDigit(s[0]))
    ensures s != "" ==> (IsDigit(LowerText(s)[|s| - 1]) <==> IsDigit(s[|s| - 1]))
  {
  }

  lemma PartsDecide(x: string, y: string)
    ensures var byParts := CompareParts(Parts(LowerText(x)), Parts(LowerText(y)));
      byParts != 0 ==> CompareNames(x, y) == byParts
  {
  }

  lemma FoldJoin(a: string, digits: string, rest: string)
    requires AllDigits(digits)
    ensures LowerText(a + digits + rest) == LowerText(a) + digits + LowerText(rest)
  {
    forall i | 0 <= i < |digits| ensures Lower(digits[i]) == digits[i] { assert digits[i] in digits; }
  }

  // -------------------------------------------------------------------------
  // Letters
  // -------------------------------------------------------------------------

  /** The texts agree before place `n`. */
  ghost predicate AgreeBefore(x: string, y: string, n: nat) {
    n <= |x| && n <= |y| && forall i :: 0 <= i < n ==> x[i] == y[i]
  }

  /** The first difference decides, the smaller character first. */
  lemma {:induction false} TextsCompareByCharacter(x: string, y: string, n: nat)
    requires AgreeBefore(x, y, n) && n < |x| && n < |y| && x[n] < y[n]
    ensures CompareText(x, y) < 0
  {
    if n > 0 { TextsCompareByCharacter(x[1..], y[1..], n - 1); }
  }

  lemma {:induction false} SameRuns(x: string, y: string, n: nat, digits: bool)
    requires AgreeBefore(x, y, n) && RunLength(x, digits) < n
    ensures RunLength(y, digits) == RunLength(x, digits)
  {
    if RunLength(x, digits) > 0 { SameRuns(x[1..], y[1..], n - 1, digits); }
  }

  /** Equal first runs are cut off both texts; place `n` moves to `m`. */
  lemma CutShared(x: string, y: string, n: nat, digits: bool) returns (run: string, u: string, v: string, m: nat)
    requires AgreeBefore(x, y, n) && n < |x| && n < |y| && RunLength(x, digits) == RunLength(y, digits) <= n
    ensures x == run + u && y == run + v && m == n - |run| && |run| == RunLength(x, digits)
    ensures if digits then AllDigits(run) else NoDigits(run)
    ensures SamePlace(x, y, n, u, v, m)
    ensures IsDigit(u[0]) != digits && IsDigit(v[0]) != digits
  {
    run, u := Cut(x, digits);
    v, m := y[|run|..], n - |run|;
    assert y == y[..|run|] + v && y[..|run|] == run;
  }

  /** Place `m` of the rests is place `n` of the texts. */
  ghost predicate SamePlace(x: string, y: string, n: nat, u: string, v: string, m: nat) {
    && n < |x| && n < |y| && m < |u| && m < |v|
    && AgreeBefore(u, v, m)
    && u[m] == x[n] && v[m] == y[n]
    && (m > 0 ==> n > 0 && u[m - 1] == x[n - 1])
  }

  /** The texts first differ where the second has no digit, and no digit run of the first
      reaches across that place. */
  ghost predicate DifferAt(x: string, y: string, n: nat) {
    && AgreeBefore(x, y, n) && n < |x| && n < |y|
    && !IsDigit(y[n])
    && if IsDigit(x[n]) then n == 0 || !IsDigit(x[n - 1]) else x[n] < y[n]
  }

  lemma {:induction false} SameDigits(u: string, v: string, m: nat)
    requires AgreeBefore(u, v, m) && m < |u| && m < |v| && !IsDigit(v[m])
    requires IsDigit(u[m]) ==> m > 0 && !IsDigit(u[m - 1])
    ensures RunLength(u, true) == RunLength(v, true) <= m
  {
    if m > 0 && IsDigit(u[0]) { SameDigits(u[1..], v[1..], m - 1); }
  }

  /** Texts that differ behind their first digit run share the runs before it. */
  lemma SharedStart(x: string, y: string, n: nat)
    returns (text: string, digits: string, rest: string, rest': string, m: nat)
    requires DifferAt(x, y, n) && RunLength(x, false) < n
    ensures x == text + digits + rest && y == text + digits + rest' && digits != ""
    ensures NoDigits(text) && AllDigits(digits)
    ensures m < n && DifferAt(rest, rest', m)
    ensures !IsDigit(rest[0]) && !IsDigit(rest'[0])
  {
    var u, v, k;
    SameRuns(x, y, n, false);
    text, u, v, k := CutShared(x, y, n, false);
    SameDigits(u, v, k);
    digits, rest, rest', m := CutShared(u, v, k, true);
    Associative(text, digits, rest);
    Associative(text, digits, rest');
  }

  lemma {:induction false} PartsCompareByCharacter(x: string, y: string, n: nat)
    requires DifferAt(x, y, n)
    ensures CompareParts(Parts(x), Parts(y)) < 0
    decreases n
  {
    if RunLength(x, false) < n {
      var text, digits, rest, rest', m := SharedStart(x, y, n);
      PartsJoin(text, digits, rest);
      PartsJoin(text, digits, rest');
      PartsCompareByCharacter(rest, rest', m);
      AfterEqualText(text, Int(digits), Parts(rest), Int(digits), Parts(rest'));
    } else {
      FirstTextDecides(x, y, n);
    }
  }

  lemma FirstTextDecides(x: string, y: string, n: nat)
    requires DifferAt(x, y, n) && RunLength(x, false) >= n
    ensures CompareParts(Parts(x), Parts(y)) < 0
  {
    var u := FirstText(x);
    var v := FirstText(y);
    TextReaches(y, n);
    if IsDigit(x[n]) {
      assert u == v[..n];
      TextPrefix(u, v);
    } else {
      TextReaches(x, n);
      TextsCompareByCharacter(u, v, n);
    }
    FirstPartDecides(Parts(x), Parts(y));
  }

  lemma FirstPartDecides(a: seq<Part>, b: seq<Part>)
    requires a != [] && b != [] && ComparePart(a[0], b[0]) < 0
    ensures CompareParts(a, b) < 0
  {
  }

  lemma {:induction false} TextReaches(s: string, n: nat)
    requires n < |s| && forall i :: 0 <= i <= n ==> !IsDigit(s[i])
    ensures RunLength(s, false) > n
  {
    if n > 0 { TextReaches(s[1..], n - 1); }
  }

  /** Names that agree up to case before a place compare by the folded characters there,
      whatever runs precede it: `Alpha` sorts before `beta`. A number there sorts before
      any other character. */
  lemma NamesCompareByLetter(a: string, b: string, n: nat)
    requires DifferAt(LowerText(a), LowerText(b), n)
    ensures CompareNames(a, b) < 0
  {
    PartsCompareByCharacter(LowerText(a), LowerText(b), n);
  }

  /** Between names with equal parts the names' own characters decide: `V1` sorts before
      `v1`. */
  lemma EqualPartsCompareByCharacter(a: string, b: string, n: nat)
    requires Parts(LowerText(a)) == Parts(LowerText(b))
    requires AgreeBefore(a, b, n) && n < |a| && n < |b| && a[n] < b[n]
    ensures CompareNames(a, b) < 0
  {
    ComponentOrders();
    TextsCompareByCharacter(a, b, n);
  }
}
