/** The rewriting of unclosed `<!--` before full-text parsing (migration 0040).

    `FtsText` is the SQL function, built from `StrPos`, `Reverse` and `Replace` as
    the migration builds it. `Stream` is what PostgreSQL's comment-skipping parser
    reads, and `Cost` counts the characters it looks at while doing so. */
module CommentOpeners {
  import opened Wrappers

  const OPENER := "<!--"

  // -------------------------------------------------------------------------
  // The SQL function
  // -------------------------------------------------------------------------

  predicate OccursAt(t: string, p: string, i: int) {
    0 <= i <= |t| - |p| && t[i..i + |p|] == p
  }

  /** SQL `strpos`, looking from `from` on: the 1-based position of the first
      occurrence, 0 when there is none. */
  function StrPos(t: string, p: string, from: nat): (r: nat)
    ensures r == 0 ==> forall i :: from <= i ==> !OccursAt(t, p, i)
    ensures r > 0 ==> from < r && OccursAt(t, p, r - 1)
                      && forall i :: from <= i < r - 1 ==> !OccursAt(t, p, i)
    decreases |t| - from
  {
    if from + |p| > |t| then 0
    else if OccursAt(t, p, from) then from + 1
    else StrPos(t, p, from + 1)
  }

  function Reverse(t: string): (r: string)
    ensures |r| == |t|
    ensures forall i :: 0 <= i < |t| ==> r[i] == t[|t| - 1 - i]
  {
    seq(|t|, i requires 0 <= i < |t| => t[|t| - 1 - i])
  }

  /** SQL `replace`: occurrences are taken from the left and do not overlap. */
  function Replace(t: string, from: string, to: string): string
    requires from != ""
  {
    if |t| < |from| then t
    else if OccursAt(t, from, 0) then to + Replace(t[|from|..], from, to)
    else [t[0]] + Replace(t[1..], from, to)
  }

  /** How much of the text is kept as it is. */
  function Keep(t: string): (keep: nat)
    ensures keep <= |t|
  {
    var back := StrPos(Reverse(t), ">--", 0);
    if back == 0 then 0 else |t| - back + 1
  }

  /** The SQL function `specivo_fts_text`; `None` is SQL NULL. */
  function FtsText(source: Option<string>): string {
    var t := source.GetOr("");
    if StrPos(t, OPENER, 0) == 0 then t
    else t[..Keep(t)] + Replace(t[Keep(t)..], OPENER, " !--")
  }

  // -------------------------------------------------------------------------
  // The parser
  // -------------------------------------------------------------------------

  predicate OpenerAt(t: string, i: int) {
    0 <= i <= |t| - 4 && t[i] == '<' && t[i + 1] == '!' && t[i + 2] == '-' && t[i + 3] == '-'
  }

  predicate CloserAt(t: string, i: int) {
    0 <= i <= |t| - 3 && t[i] == '-' && t[i + 1] == '-' && t[i + 2] == '>'
  }

  /** The parser's look-ahead: the first closer at or after `from`. */
  function NextCloser(t: string, from: nat): (r: Option<nat>)
    ensures r.None? ==> forall c :: from <= c ==> !CloserAt(t, c)
    ensures r.Some? ==> from <= r.value && CloserAt(t, r.value)
                        && forall c :: from <= c < r.value ==> !CloserAt(t, c)
    decreases |t| - from
  {
    if from + 3 > |t| then None
    else if CloserAt(t, from) then Some(from)
    else NextCloser(t, from + 1)
  }

  /** What the rest of the parser sees: characters, and closed comments as one unit. */
  datatype Piece = Char(c: char) | Comment(text: string)

  /** At an opener the parser looks ahead for a closer that starts at or after the
      opener's end. When there is none, it treats `<` as a blank and moves on one character. */
  function Stream(t: string, i: nat): seq<Piece>
    requires i <= |t|
    decreases |t| - i
  {
    if i == |t| then []
    else if OpenerAt(t, i) then
      match NextCloser(t, i + 4)
      case Some(c) => [Comment(t[i..c + 3])] + Stream(t, c + 3)
      case None => [Char(' ')] + Stream(t, i + 1)
    else [Char(t[i])] + Stream(t, i + 1)
  }

  /** Characters read by `Stream`, the look-ahead included. */
  function Cost(t: string, i: nat): nat
    requires i <= |t|
    decreases |t| - i
  {
    if i == |t| then 0
    else if OpenerAt(t, i) then
      match NextCloser(t, i + 4)
      case Some(c) => c + 3 - i + Cost(t, c + 3)
      case None => |t| - i + Cost(t, i + 1)
    else 1 + Cost(t, i + 1)
  }

  ghost predicate Unclosed(t: string, i: int) {
    OpenerAt(t, i) && forall c :: i + 4 <= c ==> !CloserAt(t, c)
  }

  // -------------------------------------------------------------------------
  // The SQL function, position by position
  // -------------------------------------------------------------------------

  lemma OccursByChars(t: string, i: int)
    ensures OccursAt(t, OPENER, i) <==> OpenerAt(t, i)
  {
    if 0 <= i <= |t| - 4 { assert t[i..i + 4] == [t[i], t[i + 1], t[i + 2], t[i + 3]]; }
  }

  lemma ReversedOccurrence(t: string, i: nat)
    requires i + 3 <= |t|
    ensures OccursAt(Reverse(t), ">--", |t| - i - 3) <==> CloserAt(t, i)
  {
    var r, j := Reverse(t), |t| - i - 3;
    assert r[j..j + 3] == [r[j], r[j + 1], r[j + 2]];
  }

  /** `keep` is the end of the last closer, or 0 without one. */
  ghost predicate EndOfLastCloser(t: string, keep: nat) {
    && keep <= |t|
    && (forall c :: CloserAt(t, c) ==> c + 3 <= keep)
    && (keep > 0 ==> CloserAt(t, keep - 3))
  }

  lemma KeepIsEndOfLastCloser(t: string)
    ensures EndOfLastCloser(t, Keep(t))
  {
    var back := StrPos(Reverse(t), ">--", 0);
    forall c | CloserAt(t, c) ensures back > 0 && c + 3 <= Keep(t) {
      ReversedOccurrence(t, c);
    }
    if back > 0 { ReversedOccurrence(t, |t| - back - 2); }
  }

  /** `r` is `t` with the `<` of every opener at or after `keep` blanked. */
  ghost predicate BlankedFrom(t: string, keep: nat, r: string) {
    && |r| == |t|
    && forall i {:trigger r[i]} :: 0 <= i < |t| ==> r[i] == if keep <= i && OpenerAt(t, i) then ' ' else t[i]
  }

  lemma {:induction false} ReplaceBlanks(t: string)
    ensures BlankedFrom(t, 0, Replace(t, OPENER, " !--"))
  {
    var r := Replace(t, OPENER, " !--");
    OccursByChars(t, 0);
    if |t| < 4 {
    } else if OpenerAt(t, 0) {
      ReplaceBlanks(t[4..]);
      assert t == t[..4] + t[4..];
      forall i | 4 <= i < |t| ensures OpenerAt(t, i) <==> OpenerAt(t[4..], i - 4) {}
    } else {
      ReplaceBlanks(t[1..]);
      forall i | 1 <= i < |t| ensures OpenerAt(t, i) <==> OpenerAt(t[1..], i - 1) {}
    }
  }

  /** Length is preserved, and a position changes exactly when an opener after the
      last closer starts there: its `<` becomes a blank. */
  lemma RewriteBlanks(t: string)
    ensures BlankedFrom(t, Keep(t), FtsText(Some(t)))
    ensures FtsText(None) == ""
  {
    var keep := Keep(t);
    assert StrPos("", OPENER, 0) == 0;
    if StrPos(t, OPENER, 0) != 0 {
      ReplaceBlanks(t[keep..]);
      BlankedTail(t, keep, Replace(t[keep..], OPENER, " !--"));
    } else {
      forall i | 0 <= i < |t| ensures !OpenerAt(t, i) { OccursByChars(t, i); }
    }
  }

  lemma BlankedTail(t: string, keep: nat, tail: string)
    requires keep <= |t| && BlankedFrom(t[keep..], 0, tail)
    ensures BlankedFrom(t, keep, t[..keep] + tail)
  {
    forall i | keep <= i < |t| ensures OpenerAt(t, i) <==> OpenerAt(t[keep..], i - keep) {}
    forall i | 0 <= i < |t|
      ensures (t[..keep] + tail)[i] == if keep <= i && OpenerAt(t, i) then ' ' else t[i]
    {
      assert i >= keep ==> t[keep..][i - keep] == t[i] && (t[..keep] + tail)[i] == tail[i - keep];
    }
  }

  /** Closers are untouched, exactly the openers before the split remain, and no
      opener straddles the split. */
  lemma OccurrencesAfterBlanking(t: string, keep: nat, r: string)
    requires EndOfLastCloser(t, keep) && BlankedFrom(t, keep, r)
    ensures forall i :: CloserAt(r, i) <==> CloserAt(t, i)
    ensures forall i :: OpenerAt(r, i) <==> OpenerAt(t, i) && i < keep
    ensures forall i :: OpenerAt(t, i) && i < keep ==> i + 4 <= keep
    ensures EndOfLastCloser(r, keep)
  {
    if keep > 0 { assert t[keep - 1] == '>'; }
  }

  // -------------------------------------------------------------------------
  // Main results
  // -------------------------------------------------------------------------

  /** The parser reads the same pieces from the rewritten text, for every text. */
  lemma RewriteKeepsMeaning(t: string)
    ensures |FtsText(Some(t))| == |t| && Stream(FtsText(Some(t)), 0) == Stream(t, 0)
  {
    RewriteBlanks(t);
    KeepIsEndOfLastCloser(t);
    var r := FtsText(Some(t));
    forall k | 0 <= k < |t| ensures StepsAlike(t, r, k) { SameStep(t, Keep(t), r, k); }
    SameStreamFrom(t, r, 0);
  }

  /** At position `i` the parser does the same on both texts. */
  ghost predicate StepsAlike(t: string, r: string, i: nat)
    requires i < |t| == |r|
  {
    var closer := NextCloser(t, i + 4);
    && NextCloser(r, i + 4) == closer
    && if OpenerAt(t, i) && closer.Some? then OpenerAt(r, i) && r[i..closer.value + 3] == t[i..closer.value + 3]
       else if OpenerAt(t, i) then OpenerAt(r, i) || r[i] == ' '
       else !OpenerAt(r, i) && r[i] == t[i]
  }

  lemma SameStep(t: string, keep: nat, r: string, i: nat)
    requires EndOfLastCloser(t, keep) && BlankedFrom(t, keep, r) && i < |t|
    ensures StepsAlike(t, r, i)
  {
    OccurrencesAfterBlanking(t, keep, r);
    SameCloser(t, r, i + 4);
    var closer := NextCloser(t, i + 4);
    if OpenerAt(t, i) && closer.Some? {
      assert closer.value + 3 <= keep;
    }
  }

  lemma {:induction false} SameStreamFrom(t: string, r: string, i: nat)
    requires i <= |t| == |r| && forall k :: 0 <= k < |t| ==> StepsAlike(t, r, k)
    ensures Stream(r, i) == Stream(t, i)
    decreases |t| - i
  {
    if i < |t| {
      assert StepsAlike(t, r, i);
      var closer := NextCloser(t, i + 4);
      if OpenerAt(t, i) && closer.Some? {
        SameStreamFrom(t, r, closer.value + 3);
      } else {
        SameStreamFrom(t, r, i + 1);
      }
    }
  }

  lemma SameCloser(t: string, r: string, from: nat)
    requires forall i :: CloserAt(r, i) <==> CloserAt(t, i)
    ensures NextCloser(r, from) == NextCloser(t, from)
  {}

  /** Every replaced character is the `<` of an opener with no closer after it. */
  lemma OnlyUnclosedReplaced(t: string, i: nat)
    requires i < |t|
    ensures |FtsText(Some(t))| == |t|
    ensures FtsText(Some(t))[i] != t[i] ==> Unclosed(t, i) && FtsText(Some(t))[i] == ' '
  {
    RewriteBlanks(t);
    KeepIsEndOfLastCloser(t);
  }

  /** An opener of the output is unclosed exactly when it overlaps the last closer, as in
      `<!-->` or `<!--->`. */
  lemma UnclosedIff(t: string, i: int)
    ensures Unclosed(FtsText(Some(t)), i) <==> OpenerAt(t, i) && Keep(t) - 6 <= i < Keep(t)
  {
    RewriteBlanks(t);
    KeepIsEndOfLastCloser(t);
    var r, keep := FtsText(Some(t)), Keep(t);
    OccurrencesAfterBlanking(t, keep, r);
    if Unclosed(r, i) { UnclosedOverlaps(r, keep, i); }
  }

  /** The comment's claim that every opener before the last closer has a closer fails on
      these two texts, which the rewrite leaves as they are. */
  lemma OverlappingOpenersStay(t: string)
    requires t == "<!-->" || t == "<!--->"
    ensures Unclosed(FtsText(Some(t)), 0)
  {
    assert OpenerAt(t, 0) && CloserAt(t, |t| - 3);
    OverlappingOpenerStays(t);
  }

  lemma OverlappingOpenerStays(t: string)
    requires |t| <= 6 && OpenerAt(t, 0) && CloserAt(t, |t| - 3)
    ensures Unclosed(FtsText(Some(t)), 0)
  {
    KeepIsEndOfLastCloser(t);
    UnclosedIff(t, 0);
  }

  /** At most one opener of the output is unclosed. */
  lemma AtMostOneUnclosed(t: string, i: int, j: int)
    requires Unclosed(FtsText(Some(t)), i)
    ensures Keep(t) - 6 <= i <= Keep(t) - 5
    ensures Unclosed(FtsText(Some(t)), j) ==> i == j
  {
    RewriteBlanks(t);
    KeepIsEndOfLastCloser(t);
    var r, keep := FtsText(Some(t)), Keep(t);
    OccurrencesAfterBlanking(t, keep, r);
    UnclosedOverlaps(r, keep, i);
    if Unclosed(r, j) { UnclosedOverlaps(r, keep, j); }
  }

  lemma UnclosedOverlaps(r: string, keep: nat, i: int)
    requires EndOfLastCloser(r, keep) && Unclosed(r, i) && i < keep
    ensures keep - 6 <= i <= keep - 5
  {
    assert CloserAt(r, keep - 3);
  }

  /** With at most one unclosed opener ahead, reading from `i` costs at most one pass
      over the rest and one look-ahead. */
  lemma {:induction false} CostBound(t: string, i: nat, only: int)
    requires i <= |t|
    requires forall j :: i <= j && Unclosed(t, j) ==> j == only
    ensures Cost(t, i) <= |t| - i + if i <= only <= |t| then |t| - only else 0
    decreases |t| - i
  {
    if i < |t| {
      if OpenerAt(t, i) && NextCloser(t, i + 4).Some? {
        CostBound(t, NextCloser(t, i + 4).value + 3, only);
      } else {
        assert OpenerAt(t, i) ==> Unclosed(t, i);
        CostBound(t, i + 1, only);
      }
    }
  }

  /** Parsing the rewritten text is linear: at most two looks at each character. */
  lemma RewriteIsLinear(t: string)
    ensures |FtsText(Some(t))| == |t| && Cost(FtsText(Some(t)), 0) <= 2 * |t|
  {
    var r := FtsText(Some(t));
    RewriteBlanks(t);
    if j :| Unclosed(r, j) {
      forall k | Unclosed(r, k) ensures k == j { AtMostOneUnclosed(t, j, k); }
      CostBound(r, 0, j);
    } else {
      CostBound(r, 0, -1);
    }
  }

  lemma RewriteIsIdempotent(t: string)
    ensures FtsText(Some(FtsText(Some(t)))) == FtsText(Some(t))
  {
    var r := FtsText(Some(t));
    RewriteBlanks(t);
    KeepIsEndOfLastCloser(t);
    OccurrencesAfterBlanking(t, Keep(t), r);
    RewriteBlanks(r);
    KeepIsEndOfLastCloser(r);
    SameEnd(r, Keep(t), Keep(r));
    assert FtsText(Some(r)) == r;
  }

  lemma SameEnd(t: string, k: nat, l: nat)
    requires EndOfLastCloser(t, k) && EndOfLastCloser(t, l)
    ensures k == l
  {
    if k > 0 { assert CloserAt(t, k - 3); }
    if l > 0 { assert CloserAt(t, l - 3); }
  }

  // -------------------------------------------------------------------------
  // What the rewrite is for: without it, openers cost quadratic time
  // -------------------------------------------------------------------------

  function Openers(n: nat): string {
    if n == 0 then "" else OPENER + Openers(n - 1)
  }

  lemma {:induction false} OpenersShape(n: nat)
    ensures |Openers(n)| == 4 * n
    ensures forall c :: !CloserAt(Openers(n), c)
    ensures forall k :: 0 <= k < n ==> OpenerAt(Openers(n), 4 * k)
    ensures forall i :: 0 <= i < 4 * n && i % 4 != 0 ==> !OpenerAt(Openers(n), i)
  {
    if n > 0 {
      OpenersShape(n - 1);
      var t, rest := Openers(n), Openers(n - 1);
      assert forall i :: 4 <= i < |t| ==> t[i] == rest[i - 4];
      forall c ensures !CloserAt(t, c) {
        if c >= 4 { assert !CloserAt(rest, c - 4); }
      }
      forall k | 0 <= k < n ensures OpenerAt(t, 4 * k) {
        if k > 0 { assert OpenerAt(rest, 4 * (k - 1)); }
      }
      forall i | 0 <= i < 4 * n && i % 4 != 0 ensures !OpenerAt(t, i) {
        if i >= 4 { assert (i - 4) % 4 == i % 4; assert !OpenerAt(rest, i - 4); }
      }
    }
  }

  /** One more opener ahead adds its look-ahead and its four steps. */
  lemma OneMoreOpener(k: nat)
    requires k > 0
    ensures 2 * k * (k + 1) + 3 * k == 4 * k + 3 + (2 * (k - 1) * k + 3 * (k - 1))
  {
    assert 2 * k * (k + 1) == 2 * k * k + 2 * k;
    assert 2 * (k - 1) * k == 2 * k * k - 2 * k;
  }

  lemma {:induction false} OpenersCostFrom(n: nat, k: nat)
    requires k <= n
    requires |Openers(n)| == 4 * n
    ensures Cost(Openers(n), 4 * (n - k)) == 2 * k * (k + 1) + 3 * k
  {
    if k > 0 {
      OpenersShape(n);
      OpenersCostFrom(n, k - 1);
      FourSteps(Openers(n), 4 * (n - k));
      OneMoreOpener(k);
    }
  }

  lemma FourSteps(t: string, i: nat)
    requires i + 4 <= |t| && OpenerAt(t, i) && forall c :: !CloserAt(t, c)
    ensures Cost(t, i) == |t| - i + 3 + Cost(t, i + 4)
  {
    assert Cost(t, i) == |t| - i + Cost(t, i + 1);
    assert Cost(t, i + 1) == 1 + Cost(t, i + 2);
    assert Cost(t, i + 2) == 1 + Cost(t, i + 3);
  }

  /** `n` openers cost quadratic time as they are, and linear time once rewritten. */
  lemma OpenersAreQuadratic(n: nat)
    ensures |FtsText(Some(Openers(n)))| == |Openers(n)| == 4 * n
    ensures Cost(Openers(n), 0) == 2 * n * (n + 1) + 3 * n
    ensures Cost(FtsText(Some(Openers(n))), 0) <= 8 * n
  {
    OpenersShape(n);
    OpenersCostFrom(n, n);
    RewriteIsLinear(Openers(n));
  }
}
