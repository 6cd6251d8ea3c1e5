/** ASCII characters, case and decimal numbers. */
module Ascii {
  predicate IsDigit(c: char) { '0' <= c <= '9' }
  predicate IsUpper(c: char) { 'A' <= c <= 'Z' }
  predicate IsLower(c: char) { 'a' <= c <= 'z' }
  predicate IsLetter(c: char) { IsUpper(c) || IsLower(c) }
  predicate IsAlnum(c: char) { IsLetter(c) || IsDigit(c) }

  function Lower(c: char): char { if IsUpper(c) then c + 32 as char else c }
  function Upper(c: char): char { if IsLower(c) then c - 32 as char else c }

  function LowerText(s: string): (r: string)
    ensures |r| == |s| && forall i :: 0 <= i < |s| ==> r[i] == Lower(s[i])
  {
    seq(|s|, i requires 0 <= i < |s| => Lower(s[i]))
  }

  function UpperText(s: string): (r: string)
    ensures |r| == |s| && forall i :: 0 <= i < |s| ==> r[i] == Upper(s[i])
  {
    seq(|s|, i requires 0 <= i < |s| => Upper(s[i]))
  }

  function DigitValue(c: char): nat { if IsDigit(c) then (c - '0') as nat else 0 }

  /** `int` of a digit run. */
  function Int(s: string): nat {
    if s == "" then 0 else 10 * Int(s[..|s| - 1]) + DigitValue(s[|s| - 1])
  }

  function Decimal(n: nat): (s: string)
    ensures s != ""
  {
    if n < 10 then [n as char + '0'] else Decimal(n / 10) + [(n % 10) as char + '0']
  }

  lemma {:induction false} DecimalDigits(n: nat)
    ensures forall i {:trigger Decimal(n)[i]} :: 0 <= i < |Decimal(n)| ==> IsDigit(Decimal(n)[i])
  {
    if n >= 10 { DecimalDigits(n / 10); }
  }

  lemma {:induction false} IntOfDecimal(n: nat)
    ensures Int(Decimal(n)) == n
  {
    var s := Decimal(n);
    if n < 10 {
      assert s[..0] == "" && Int(s) == 10 * Int(s[..|s| - 1]) + DigitValue(s[0]);
    } else {
      IntOfDecimal(n / 10);
      assert s[..|s| - 1] == Decimal(n / 10);
    }
  }

  function Pow10(k: nat): nat { if k == 0 then 1 else 10 * Pow10(k - 1) }

  lemma {:induction false} DecimalLength(n: nat, k: nat)
    requires k >= 1 && n < Pow10(k)
    ensures |Decimal(n)| <= k
  {
    if n >= 10 {
      assert Pow10(1) == 10;
      DecimalLength(n / 10, k - 1);
    }
  }

  /** Digits count by place: each one to the right is worth a tenth of the one before it. */
  lemma {:induction false} IntConcat(a: string, b: string)
    ensures Int(a + b) == Int(a) * Pow10(|b|) + Int(b)
    decreases |b|
  {
    if b == "" {
      assert a + b == a;
    } else {
      var before, last := b[..|b| - 1], b[|b| - 1];
      IntConcat(a, before);
      IntAppend(a + before, last);
      IntAppend(before, last);
      assert a + b == a + before + [last] && b == before + [last];
      Shift(Int(a), Pow10(|before|), Int(before), DigitValue(last));
    }
  }

  lemma IntAppend(s: string, c: char)
    ensures Int(s + [c]) == 10 * Int(s) + DigitValue(c)
  {
    assert (s + [c])[..|s|] == s;
  }

  lemma Shift(x: nat, p: nat, y: nat, z: nat)
    ensures 10 * (x * p + y) + z == x * (10 * p) + (10 * y + z)
  {}

  /** Case: no lower-case letter is upper case of itself, each is paired with one, and
      everything else stays. */
  lemma CasesPair(c: char)
    ensures if 'a' <= c <= 'z' then Upper(c) == 'A' + (c - 'a') && Lower(Upper(c)) == c else Upper(c) == c
    ensures if 'A' <= c <= 'Z' then Lower(c) == 'a' + (c - 'A') && Upper(Lower(c)) == c else Lower(c) == c
  {}
}
