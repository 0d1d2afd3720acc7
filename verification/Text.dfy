/** String facts the other modules share: Python's order on `str`, `rstrip` of one
    character, letter case, and the decimal rendering of a non-negative integer. */
module Text {

  datatype Option<+T> = None | Some(value: T)

  // ---------------------------------------------------------------- order

  /** `a <= b` as Python compares `str`: by code point, a prefix first. */
  predicate LexLe(a: string, b: string) {
    a == "" || (b != "" && (a[0] < b[0] || (a[0] == b[0] && LexLe(a[1..], b[1..]))))
  }

  lemma LexTotal(a: string, b: string)
    ensures LexLe(a, b) || LexLe(b, a)
  {}

  lemma LexAntisymmetric(a: string, b: string)
    requires LexLe(a, b) && LexLe(b, a)
    ensures a == b
  {
    if a != "" {
      LexAntisymmetric(a[1..], b[1..]);
      assert a == [a[0]] + a[1..] && b == [b[0]] + b[1..];
    }
  }

  lemma LexTransitive(a: string, b: string, c: string)
    requires LexLe(a, b) && LexLe(b, c)
    ensures LexLe(a, c)
  {}

  ghost predicate DifferAt(a: string, b: string, k: int) {
    0 <= k < |a| && k < |b| && a[..k] == b[..k] && a[k] != b[k]
  }

  lemma DifferLater(a: string, b: string, k: nat)
    requires a != "" && b != "" && a[0] == b[0]
    ensures DifferAt(a[1..], b[1..], k) <==> DifferAt(a, b, k + 1)
  {
    if k < |a| - 1 && k < |b| - 1 {
      assert a[..k + 1] == [a[0]] + a[1..][..k] && b[..k + 1] == [b[0]] + b[1..][..k];
      if a[..k + 1] == b[..k + 1] { assert a[1..][..k] == a[..k + 1][1..] == b[..k + 1][1..] == b[1..][..k]; }
    }
  }

  lemma PrefixLater(a: string, b: string)
    requires a != "" && b != "" && a[0] == b[0]
    ensures a[1..] <= b[1..] <==> a <= b
  {
    if a[1..] <= b[1..] { assert a == [a[0]] + a[1..] && b == [b[0]] + b[1..]; }
  }

  /** A prefix comes first; else the first code point that differs decides. */
  lemma {:induction false} LexLeIff(a: string, b: string)
    ensures LexLe(a, b) <==> a <= b || exists k :: DifferAt(a, b, k) && a[k] < b[k]
  {
    if a != "" && b != "" {
      if a[0] != b[0] {
        assert DifferAt(a, b, 0);
      } else {
        LexLeIff(a[1..], b[1..]);
        PrefixLater(a, b);
        if k :| DifferAt(a[1..], b[1..], k) && a[1..][k] < b[1..][k] { DifferLater(a, b, k); }
        if k :| DifferAt(a, b, k) && a[k] < b[k] { DifferLater(a, b, k - 1); }
      }
    }
  }

  // ---------------------------------------------------------------- stripping

  /** `s.rstrip(c)` */
  function RStrip(s: string, c: char): (r: string)
    ensures r <= s
    ensures r != "" ==> r[|r| - 1] != c
    ensures forall i :: |r| <= i < |s| ==> s[i] == c
  {
    if s != "" && s[|s| - 1] == c then RStrip(s[..|s| - 1], c) else s
  }

  /** What `rstrip` keeps is settled by where the run of `c` starts. */
  lemma RStripIs(s: string, c: char, n: nat)
    requires n <= |s|
    requires n == 0 || s[n - 1] != c
    requires forall i :: n <= i < |s| ==> s[i] == c
    ensures RStrip(s, c) == s[..n]
  {}

  // ---------------------------------------------------------------- letter case

  function LowerChar(c: char): char {
    if 'A' <= c <= 'Z' then (c as int + 32) as char else c
  }

  /** The text with its letters A to Z in lower case. */
  function Lower(s: string): (r: string)
    ensures |r| == |s| && forall i :: 0 <= i < |s| ==> r[i] == LowerChar(s[i])
  {
    if s == "" then "" else [LowerChar(s[0])] + Lower(s[1..])
  }

  lemma LowerConcat(a: string, b: string)
    ensures Lower(a + b) == Lower(a) + Lower(b)
  {}

  const UPPER := "ABCDEFGHIJKLMNOPQRSTUVWXYZ"
  const LOWER := "abcdefghijklmnopqrstuvwxyz"

  /** The letters of the alphabet are folded and nothing else is. */
  lemma LowerCharIs(c: char)
    ensures forall i :: 0 <= i < 26 ==> LowerChar(UPPER[i]) == LOWER[i]
    ensures c !in UPPER ==> LowerChar(c) == c
  {
    if 'A' <= c <= 'Z' { assert UPPER[c as int - 'A' as int] == c; }
  }

  // ---------------------------------------------------------------- decimal numbers

  predicate IsDigit(c: char) { '0' <= c <= '9' }

  function Digit(n: nat): (c: char)
    requires n < 10
    ensures IsDigit(c)
  {
    ['0', '1', '2', '3', '4', '5', '6', '7', '8', '9'][n]
  }

  lemma DigitInjective(m: nat, n: nat)
    requires m < 10 && n < 10 && Digit(m) == Digit(n)
    ensures m == n
  {}

  /** `str(n)` for `n >= 0` */
  function Decimal(n: nat): (s: string)
    ensures s != "" && forall i :: 0 <= i < |s| ==> IsDigit(s[i])
  {
    if n < 10 then [Digit(n)] else Decimal(n / 10) + [Digit(n % 10)]
  }

  lemma {:induction false} DecimalInjective(m: nat, n: nat)
    requires Decimal(m) == Decimal(n)
    ensures m == n
  {
    var s := Decimal(m);
    if m < 10 {
      assert |s| == 1;
      DigitInjective(m, n);
    } else {
      assert s[..|s| - 1] == Decimal(m / 10) && s[..|s| - 1] == Decimal(n / 10);
      assert s[|s| - 1] == Digit(m % 10) && s[|s| - 1] == Digit(n % 10);
      DecimalInjective(m / 10, n / 10);
      DigitInjective(m % 10, n % 10);
    }
  }

  /** The number that decimal digits stand for. */
  function Number(s: string): int {
    if s == "" then 0 else 10 * Number(s[..|s| - 1]) + (s[|s| - 1] as int - '0' as int)
  }

  /** The rendering of a number reads as that number, and does not begin with a zero unless it is
      zero. */
  lemma {:induction false} DecimalReads(n: nat)
    ensures Number(Decimal(n)) == n && (Decimal(n)[0] == '0' <==> n == 0)
  {
    var s := Decimal(n);
    DigitReads(n % 10);
    if n < 10 {
      assert s[..|s| - 1] == "" && n % 10 == n;
    } else {
      DecimalReads(n / 10);
      assert s[..|s| - 1] == Decimal(n / 10) && s[0] == Decimal(n / 10)[0];
    }
  }

  lemma DigitReads(n: nat)
    requires n < 10
    ensures Digit(n) as int - '0' as int == n
  {}

  /** A text followed by a non-digit and a number decodes in one way only. */
  lemma NumberSuffixUnique(a: string, b: string, m: nat, n: nat)
    requires a != "" && b != "" && !IsDigit(a[|a| - 1]) && !IsDigit(b[|b| - 1])
    requires a + Decimal(m) == b + Decimal(n)
    ensures a == b && m == n
  {
    var s := a + Decimal(m);
    assert forall i :: |a| <= i < |s| ==> s[i] == Decimal(m)[i - |a|];
    assert forall i :: |b| <= i < |s| ==> s[i] == Decimal(n)[i - |b|];
    assert s[|a| - 1] == a[|a| - 1] && s[|b| - 1] == b[|b| - 1];
    assert |a| == |b|;
    assert a == s[..|a|] && b == s[..|a|];
    assert Decimal(m) == s[|a|..] && Decimal(n) == s[|a|..];
    DecimalInjective(m, n);
  }
}
