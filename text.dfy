/** The few `str` operations the scripts rely on: `startswith`, `endswith`,
    `replace` and the conversion `int(str)`. */
module Text {
  import opened Values

  predicate StartsWith(s: string, prefix: string)
  {
    |prefix| <= |s| && s[..|prefix|] == prefix
  }

  predicate EndsWith(s: string, suffix: string)
  {
    |suffix| <= |s| && s[|s| - |suffix|..] == suffix
  }

  // ---------------------------------------------------------------------
  // str.replace(pattern, replacement)

  /** `pattern` starts at index `i` of `s`. */
  predicate OccursAt(s: string, pattern: string, i: int)
  {
    0 <= i && i + |pattern| <= |s| && s[i..i + |pattern|] == pattern
  }

  /** Python's `s.replace(pattern, replacement)` for a non-empty pattern:
      occurrences are found left to right and do not overlap. */
  function ReplaceAll(s: string, pattern: string, replacement: string): string
    requires |pattern| > 0
    decreases |s|
  {
    if |s| < |pattern| then s
    else if s[..|pattern|] == pattern then replacement + ReplaceAll(s[|pattern|..], pattern, replacement)
    else [s[0]] + ReplaceAll(s[1..], pattern, replacement)
  }

  /** A string in which the pattern does not occur is left unchanged. */
  lemma {:induction false} ReplaceAllWithoutOccurrence(s: string, pattern: string, replacement: string)
    requires |pattern| > 0
    requires forall i :: !OccursAt(s, pattern, i)
    ensures ReplaceAll(s, pattern, replacement) == s
    decreases |s|
  {
    if |s| >= |pattern| {
      assert !OccursAt(s, pattern, 0);
      forall i ensures !OccursAt(s[1..], pattern, i) {
        if OccursAt(s[1..], pattern, i) {
          assert s[1..][i..i + |pattern|] == s[i + 1..i + 1 + |pattern|];
          assert OccursAt(s, pattern, i + 1);
        }
      }
      ReplaceAllWithoutOccurrence(s[1..], pattern, replacement);
    }
  }

  /** Where the pattern does not start the text, its first character is
      kept and the scan moves on by one. */
  lemma ReplaceAllSkip(s: string, pattern: string, replacement: string)
    requires |pattern| > 0
    requires |s| > 0 && !OccursAt(s, pattern, 0)
    ensures ReplaceAll(s, pattern, replacement) == [s[0]] + ReplaceAll(s[1..], pattern, replacement)
  {
  }

  /** The pattern does not start anywhere before index `i` of `s`. */
  predicate NoOccurrenceBefore(s: string, pattern: string, i: int)
  {
    forall j :: 0 <= j < i ==> !OccursAt(s, pattern, j)
  }

  /** The leftmost occurrence is replaced, the text before it is kept,
      and the scan resumes right after it. */
  lemma ReplaceAllAtFirstOccurrence(s: string, pattern: string, replacement: string, i: nat)
    requires |pattern| > 0
    requires OccursAt(s, pattern, i)
    requires NoOccurrenceBefore(s, pattern, i)
    ensures ReplaceAll(s, pattern, replacement)
         == s[..i] + replacement + ReplaceAll(s[i + |pattern|..], pattern, replacement)
  {
    ReplaceAllAcrossClearPrefix(s, pattern, replacement, i);
    ReplaceAllAtStart(s[i..], pattern, replacement);
    assert s[i..][|pattern|..] == s[i + |pattern|..];
    Associate(s[..i], replacement, ReplaceAll(s[i + |pattern|..], pattern, replacement));
  }

  /** An occurrence at the very start is replaced and the scan resumes
      right after it. */
  lemma ReplaceAllAtStart(s: string, pattern: string, replacement: string)
    requires |pattern| > 0 && OccursAt(s, pattern, 0)
    ensures ReplaceAll(s, pattern, replacement) == replacement + ReplaceAll(s[|pattern|..], pattern, replacement)
  {
    assert s[..|pattern|] == s[0..0 + |pattern|];
  }

  /** Proof plumbing: regroups a concatenation, which the solver otherwise
      proves element by element at a higher cost. */
  lemma Associate(a: string, b: string, c: string)
    ensures a + (b + c) == a + b + c
  {
  }

  /** A prefix in which no occurrence starts is copied unchanged. */
  lemma {:induction false} ReplaceAllAcrossClearPrefix(s: string, pattern: string, replacement: string, i: nat)
    requires |pattern| > 0
    requires i <= |s| && NoOccurrenceBefore(s, pattern, i)
    ensures ReplaceAll(s, pattern, replacement) == s[..i] + ReplaceAll(s[i..], pattern, replacement)
    decreases i
  {
    if i == 0 {
      assert s[..i] == [] && s[i..] == s;
    } else {
      var t := s[1..];
      ShiftOccurrences(s, pattern, i);
      ReplaceAllSkip(s, pattern, replacement);
      ReplaceAllAcrossClearPrefix(t, pattern, replacement, i - 1);
      assert t[i - 1..] == s[i..];
      Regroup(s[0], t[..i - 1], ReplaceAll(s[i..], pattern, replacement), s[..i]);
    }
  }

  /** Proof plumbing: regroups the first character of a copied prefix. */
  lemma Regroup(c: char, a: string, rest: string, prefix: string)
    requires prefix == [c] + a
    ensures [c] + (a + rest) == prefix + rest
  {
  }

  /** Dropping the first character shifts every occurrence left by one. */
  lemma ShiftOccurrences(s: string, pattern: string, i: nat)
    requires 0 < i <= |s| && NoOccurrenceBefore(s, pattern, i)
    ensures !OccursAt(s, pattern, 0)
    ensures NoOccurrenceBefore(s[1..], pattern, i - 1)
  {
    var t := s[1..];
    forall j | 0 <= j < i - 1 ensures !OccursAt(t, pattern, j) {
      assert !OccursAt(s, pattern, j + 1);
      if j + |pattern| <= |t| {
        assert t[j..j + |pattern|] == s[j + 1..j + 1 + |pattern|];
      }
    }
  }

  // ---------------------------------------------------------------------
  // int(str)

  /** The characters `int()` strips from both ends of its argument: the
      ASCII white space `\t \n \v \f \r` and space, and the Unicode
      spaces above U+007F. The separators U+001C to U+001F, which
      `str.isspace()` accepts, are not among them: `int()` keeps every
      ASCII character as it is and then strips ASCII white space only. */
  predicate IsSpace(c: char)
  {
    var n := c as int;
    (9 <= n <= 13) || n == 32 || n == 0x85 || n == 0xA0 || n == 0x1680
    || (0x2000 <= n <= 0x200A) || n == 0x2028 || n == 0x2029 || n == 0x202F
    || n == 0x205F || n == 0x3000
  }

  function TrimStart(s: string): (r: string)
    decreases |s|
  {
    if |s| > 0 && IsSpace(s[0]) then TrimStart(s[1..]) else s
  }

  function TrimEnd(s: string): (r: string)
    decreases |s|
  {
    if |s| > 0 && IsSpace(s[|s| - 1]) then TrimEnd(s[..|s| - 1]) else s
  }

  predicate IsDigit(c: char)
  {
    '0' <= c <= '9'
  }

  /** Decimal digits, where a single `_` may stand between two digits. */
  predicate IsDigitRun(b: string)
  {
    && |b| > 0
    && IsDigit(b[0])
    && IsDigit(b[|b| - 1])
    && forall i :: 0 < i < |b| - 1 ==>
         IsDigit(b[i]) || (b[i] == '_' && IsDigit(b[i - 1]) && IsDigit(b[i + 1]))
  }

  /** The number the digits of `b` spell, underscores ignored. */
  function DigitsValue(b: string): nat
    decreases |b|
  {
    if b == [] then 0
    else
      var n := |b| - 1;
      if IsDigit(b[n]) then 10 * DigitsValue(b[..n]) + (b[n] as int - '0' as int)
      else DigitsValue(b[..n])
  }

  /** Python's `int(s)` for a string: surrounding white space is ignored, an
      optional sign is followed by a run of decimal digits; anything else
      raises ValueError, here `None`. */
  function ParseInt(s: string): Option<int>
  {
    var t := TrimEnd(TrimStart(s));
    if |t| > 0 && (t[0] == '+' || t[0] == '-') then
      if IsDigitRun(t[1..]) then
        Some(if t[0] == '-' then -(DigitsValue(t[1..]) as int) else DigitsValue(t[1..]))
      else None
    else if IsDigitRun(t) then Some(DigitsValue(t))
    else None
  }

  function DigitChar(d: nat): char
    requires d < 10
  {
    ('0' as int + d) as char
  }

  /** The decimal digits of a natural number, most significant first. */
  function NatDigits(n: nat): string
    decreases n
  {
    if n < 10 then [DigitChar(n)] else NatDigits(n / 10) + [DigitChar(n % 10)]
  }

  /** `str(n)` for an integer. */
  function Decimal(n: int): string
  {
    if n < 0 then "-" + NatDigits(-n) else NatDigits(n)
  }

  lemma {:induction false} NatDigitsAreDigits(n: nat)
    ensures |NatDigits(n)| > 0
    ensures forall i :: 0 <= i < |NatDigits(n)| ==> IsDigit(NatDigits(n)[i])
    ensures DigitsValue(NatDigits(n)) == n
    decreases n
  {
    if n >= 10 {
      NatDigitsAreDigits(n / 10);
      var d := NatDigits(n);
      assert d[..|d| - 1] == NatDigits(n / 10);
    }
  }

  lemma DigitIsNotSpace(c: char)
    requires IsDigit(c)
    ensures !IsSpace(c) && c != '+' && c != '-'
  {
  }

  lemma ParseUnsignedRun(b: string)
    requires IsDigitRun(b)
    ensures ParseInt(b) == Some(DigitsValue(b))
  {
    DigitIsNotSpace(b[0]);
    DigitIsNotSpace(b[|b| - 1]);
    assert TrimStart(b) == b;
    assert TrimEnd(b) == b;
  }

  lemma ParseNegativeRun(b: string)
    requires IsDigitRun(b)
    ensures ParseInt("-" + b) == Some(-(DigitsValue(b) as int))
  {
    var s := "-" + b;
    DigitIsNotSpace(b[|b| - 1]);
    assert s[|s| - 1] == b[|b| - 1];
    assert TrimStart(s) == s;
    assert TrimEnd(s) == s;
    assert s[1..] == b;
  }

  /** A digit run behind the file separator U+001C is rejected: that
      character is not stripped, and it is neither a sign nor a digit. */
  lemma ParseRejectsSeparatorPrefix(b: string)
    requires IsDigitRun(b)
    ensures ParseInt(['\U{1C}'] + b) == None
  {
    var s := ['\U{1C}'] + b;
    DigitIsNotSpace(b[|b| - 1]);
    assert s[|s| - 1] == b[|b| - 1];
    assert TrimStart(s) == s;
    assert TrimEnd(s) == s;
    assert !IsDigit(s[0]);
  }

  /** `int(str(n)) == n`: a version written as a decimal string is read
      back as the same number. */
  lemma DecimalParsesBack(n: int)
    ensures ParseInt(Decimal(n)) == Some(n)
  {
    var m := if n < 0 then -n else n;
    NatDigitsAreDigits(m);
    assert IsDigitRun(NatDigits(m));
    if n < 0 {
      ParseNegativeRun(NatDigits(m));
    } else {
      ParseUnsignedRun(NatDigits(m));
    }
  }
}
