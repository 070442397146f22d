/**
 * The backup naming convention `app-<digits>.db`: the anchored pattern
 * `^app-(\d+)\.db$` of app/app.py:42 and the decimal conversion `int(m.group(1))`
 * of app/app.py:48.
 */
module BackupName {
  import opened Wrappers

  const Prefix: string := "app-"
  const Suffix: string := ".db"

  predicate IsDigit(c: char) {
    '0' <= c <= '9'
  }

  predicate AllDigits(s: string) {
    forall i :: 0 <= i < |s| ==> IsDigit(s[i])
  }

  function DigitValue(c: char): (d: nat)
    requires IsDigit(c)
    ensures d < 10
  {
    (c as int) - ('0' as int)
  }

  function DigitChar(d: nat): (c: char)
    requires d < 10
    ensures IsDigit(c) && DigitValue(c) == d
  {
    (('0' as int) + d) as char
  }

  function Pow10(k: nat): (p: nat)
    ensures p > 0
  {
    if k == 0 then 1 else 10 * Pow10(k - 1)
  }

  /** The value of a run of decimal digits, most significant first (Python's `int`); `k` digits stay below `10^k`. */
  function DecimalValue(s: string): (n: nat)
    requires AllDigits(s)
    ensures n < Pow10(|s|)
  {
    if s == [] then 0 else DecimalValue(s[..|s| - 1]) * 10 + DigitValue(s[|s| - 1])
  }

  /** The canonical decimal rendering of `n`, without leading zeros. */
  function Decimal(n: nat): (s: string)
    ensures |s| > 0 && AllDigits(s)
    ensures s[0] != '0' || n == 0
  {
    if n < 10 then [DigitChar(n)] else Decimal(n / 10) + [DigitChar(n % 10)]
  }

  /** `k` zero digits. */
  function Zeros(k: nat): (s: string)
    ensures |s| == k && AllDigits(s)
  {
    seq(k, _ => '0')
  }

  /** A name follows the convention when it is the prefix, a non-empty digit run and the suffix, nothing else. */
  ghost predicate MatchesConvention(name: string) {
    exists digits :: |digits| > 0 && AllDigits(digits) && name == Prefix + digits + Suffix
  }

  /** The three parts of a name written by the convention, read back by slicing. */
  lemma ConventionParts(digits: string)
    ensures var name := Prefix + digits + Suffix;
      && |name| == |Prefix| + |digits| + |Suffix|
      && name[..|Prefix|] == Prefix
      && name[|name| - |Suffix|..] == Suffix
      && name[|Prefix|..|name| - |Suffix|] == digits
  {
  }

  /**
   * The match of `^app-(\d+)\.db$` against a name, with `$` read as the end of
   * the name, and the epoch the digit group denotes. A name is accepted exactly
   * when it follows the convention, and then its epoch is the value of its digits.
   */
  function ParseBackupName(name: string): (r: Option<nat>)
    ensures r.Some? <==> MatchesConvention(name)
  {
    ConventionShape(name);
    if |name| > |Prefix| + |Suffix|
       && name[..|Prefix|] == Prefix
       && name[|name| - |Suffix|..] == Suffix
       && AllDigits(name[|Prefix|..|name| - |Suffix|])
    then Some(DecimalValue(name[|Prefix|..|name| - |Suffix|]))
    else None
  }

  /** Following the convention is the same as having the prefix, the suffix and a non-empty digit run between them. */
  lemma ConventionShape(name: string)
    ensures MatchesConvention(name) <==>
      (&& |name| > |Prefix| + |Suffix|
       && name[..|Prefix|] == Prefix
       && name[|name| - |Suffix|..] == Suffix
       && AllDigits(name[|Prefix|..|name| - |Suffix|]))
  {
    if MatchesConvention(name) {
      var digits :| |digits| > 0 && AllDigits(digits) && name == Prefix + digits + Suffix;
      ConventionParts(digits);
    }
    if |name| > |Prefix| + |Suffix| {
      var digits := name[|Prefix|..|name| - |Suffix|];
      assert name == name[..|Prefix|] + digits + name[|name| - |Suffix|..];
    }
  }

  /**
   * The match with `$` read as Python's `re` reads it: in a pattern without
   * MULTILINE, `$` also matches just before a newline that ends the string.
   * `\d` is still read as ASCII digits. It accepts the conforming names, with
   * the same epoch, and the conforming names followed by one newline.
   */
  function ParseBackupNameAsWritten(name: string): (r: Option<nat>)
    ensures ParseBackupName(name).Some? ==> r == ParseBackupName(name)
    ensures r.Some? <==> (MatchesConvention(name)
      || (|name| > 0 && name[|name| - 1] == '\n' && MatchesConvention(name[..|name| - 1])))
  {
    match ParseBackupName(name)
    case Some(n) => Some(n)
    case None =>
      if |name| > 0 && name[|name| - 1] == '\n' then ParseBackupName(name[..|name| - 1]) else None
  }

  /** Read most significant digit first, a digit run is its leading digit times a power of ten plus the rest. */
  lemma {:induction false} DecimalValueLeading(s: string)
    requires |s| > 0 && AllDigits(s)
    ensures DecimalValue(s) == DigitValue(s[0]) * Pow10(|s| - 1) + DecimalValue(s[1..])
    decreases |s|
  {
    if |s| > 1 {
      var init, last := s[..|s| - 1], s[|s| - 1];
      DecimalValueLeading(init);
      assert init[0] == s[0];
      assert s[1..] == init[1..] + [last];
      DecimalValueAppend(init[1..], last);
      ShiftDigit(DigitValue(s[0]), Pow10(|s| - 2), DecimalValue(init[1..]), DigitValue(last));
    } else {
      assert s[..0] == [] && s[1..] == [];
    }
  }

  lemma ShiftDigit(d: int, p: int, rest: int, last: int)
    ensures (d * p + rest) * 10 + last == d * (10 * p) + (rest * 10 + last)
  {
  }

  lemma {:induction false} DecimalRoundTrip(n: nat)
    ensures DecimalValue(Decimal(n)) == n
  {
    if n >= 10 {
      var s := Decimal(n / 10) + [DigitChar(n % 10)];
      assert s[..|s| - 1] == Decimal(n / 10);
      DecimalRoundTrip(n / 10);
    }
  }

  lemma {:induction false} DecimalValueAppend(s: string, c: char)
    requires AllDigits(s) && IsDigit(c)
    ensures AllDigits(s + [c]) && DecimalValue(s + [c]) == DecimalValue(s) * 10 + DigitValue(c)
  {
    assert (s + [c])[..|s|] == s;
  }

  /** Leading zeros do not change the value of a digit run. */
  lemma {:induction false} LeadingZerosIgnored(k: nat, s: string)
    requires AllDigits(s)
    ensures AllDigits(Zeros(k) + s) && DecimalValue(Zeros(k) + s) == DecimalValue(s)
    decreases |s|
  {
    if s == [] {
      assert Zeros(k) + s == Zeros(k);
      ZerosValue(k);
    } else {
      var init := s[..|s| - 1];
      LeadingZerosIgnored(k, init);
      assert Zeros(k) + s == (Zeros(k) + init) + [s[|s| - 1]];
      DecimalValueAppend(Zeros(k) + init, s[|s| - 1]);
    }
  }

  lemma {:induction false} ZerosValue(k: nat)
    ensures DecimalValue(Zeros(k)) == 0
  {
    if k > 0 {
      assert Zeros(k)[..k - 1] == Zeros(k - 1);
      ZerosValue(k - 1);
    }
  }

  /** Every name of the form prefix, digits, suffix is accepted, with the value of its digits as epoch. */
  lemma ParseAcceptsConvention(digits: string)
    requires |digits| > 0 && AllDigits(digits)
    ensures ParseBackupName(Prefix + digits + Suffix) == Some(DecimalValue(digits))
  {
    ConventionParts(digits);
  }

  /** A name that does not start with the prefix is rejected. */
  lemma WrongPrefixRejected(name: string)
    requires |name| < |Prefix| || name[..|Prefix|] != Prefix
    ensures ParseBackupName(name) == None
  {
  }

  /** A name written from an epoch parses back to that epoch. */
  lemma ParseRoundTrip(n: nat)
    ensures ParseBackupName(Prefix + Decimal(n) + Suffix) == Some(n)
  {
    ParseAcceptsConvention(Decimal(n));
    DecimalRoundTrip(n);
  }

  /** Leading zeros in the digit run are accepted and read as a decimal number. */
  lemma ParseLeadingZeros(k: nat, n: nat)
    ensures ParseBackupName(Prefix + Zeros(k) + Decimal(n) + Suffix) == Some(n)
  {
    LeadingZerosIgnored(k, Decimal(n));
    assert Prefix + Zeros(k) + Decimal(n) + Suffix == Prefix + (Zeros(k) + Decimal(n)) + Suffix;
    ParseAcceptsConvention(Zeros(k) + Decimal(n));
    DecimalRoundTrip(n);
  }

  /**
   * Python's `$` lets a conforming name followed by a newline through, although
   * that name does not follow the convention (for example `app-5.db` and a newline).
   */
  lemma TrailingNewlineAccepted(digits: string)
    requires |digits| > 0 && AllDigits(digits)
    ensures ParseBackupNameAsWritten(Prefix + digits + Suffix + "\n") == Some(DecimalValue(digits))
    ensures !MatchesConvention(Prefix + digits + Suffix + "\n")
  {
    var name := Prefix + digits + Suffix;
    StrictRejectsNewline(name);
    ConventionParts(digits);
    assert (name + "\n")[..|name|] == name;
  }

  /** The strict reading rejects every name that ends in a newline. */
  lemma StrictRejectsNewline(name: string)
    ensures ParseBackupName(name + "\n") == None
  {
    var n := name + "\n";
    if |n| > |Prefix| + |Suffix| {
      assert n[|n| - |Suffix|..][2] == '\n';
    }
  }
}
