/** Character strings as Python's str methods see them, restricted to ASCII:
    lower-casing, the substring test `p in s`, `split` on one character,
    `endswith`, and decimal digits. */
module Text {

  predicate IsUpper(c: char) { 'A' <= c <= 'Z' }

  /** str.lower() on one ASCII character; every other character is kept. */
  function LowerChar(c: char): (r: char)
    ensures IsUpper(c) ==> r as int == c as int + 32
    ensures !IsUpper(c) ==> r == c
  {
    if IsUpper(c) then (c as int + 32) as char else c
  }

  /** str.lower() on ASCII text. */
  function Lower(s: string): (r: string)
  {
    seq(|s|, i requires 0 <= i < |s| => LowerChar(s[i]))
  }

  /** Lower-casing twice is lower-casing once. */
  lemma LowerIdempotent(s: string)
    ensures Lower(Lower(s)) == Lower(s)
  {
  }

  /** Text without upper-case letters is its own lower-case form. */
  lemma LowerOfLowercase(s: string)
    requires forall i :: 0 <= i < |s| ==> !IsUpper(s[i])
    ensures Lower(s) == s
  {
  }

  // ---------------------------------------------------------------------
  // Substring test `p in s`

  /** The characters of p at index j onwards sit in s at offset i + j. */
  predicate MatchesFrom(s: string, p: string, i: nat, j: nat)
    requires i + |p| <= |s| && j <= |p|
    decreases |p| - j
  {
    j == |p| || (s[i + j] == p[j] && MatchesFrom(s, p, i, j + 1))
  }

  /** p occurs in s at some offset i or later. */
  predicate OccursFrom(s: string, p: string, i: nat)
    decreases |s| - i
  {
    i + |p| <= |s| && (MatchesFrom(s, p, i, 0) || OccursFrom(s, p, i + 1))
  }

  /** Python's `p in s` for strings. */
  predicate Contains(s: string, p: string)
  {
    OccursFrom(s, p, 0)
  }

  /** The slice-based meaning of an occurrence at offset i. */
  ghost predicate OccursAt(s: string, p: string, i: int)
  {
    0 <= i && i + |p| <= |s| && s[i..i + |p|] == p
  }

  lemma {:induction false} MatchesFromIff(s: string, p: string, i: nat, j: nat)
    requires i + |p| <= |s| && j <= |p|
    ensures MatchesFrom(s, p, i, j) <==> forall k :: j <= k < |p| ==> s[i + k] == p[k]
    decreases |p| - j
  {
    if j < |p| {
      MatchesFromIff(s, p, i, j + 1);
    }
  }

  lemma {:induction false} OccursFromIff(s: string, p: string, i: nat)
    ensures OccursFrom(s, p, i) <==> exists k :: i <= k && OccursAt(s, p, k)
    decreases |s| - i
  {
    if i + |p| <= |s| {
      MatchesFromIff(s, p, i, 0);
      assert MatchesFrom(s, p, i, 0) <==> OccursAt(s, p, i) by {
        if MatchesFrom(s, p, i, 0) {
          assert s[i..i + |p|] == p;
        }
      }
      OccursFromIff(s, p, i + 1);
      if !OccursFrom(s, p, i) {
        forall k | i <= k ensures !OccursAt(s, p, k) {
          if k != i { assert i + 1 <= k; }
        }
      }
    } else {
      forall k | i <= k ensures !OccursAt(s, p, k) { }
    }
  }

  /** `p in s` holds exactly when some slice of s equals p. */
  lemma ContainsIff(s: string, p: string)
    ensures Contains(s, p) <==> exists k :: OccursAt(s, p, k)
  {
    OccursFromIff(s, p, 0);
  }

  /** A slice equal to p is an occurrence of p. */
  lemma ContainsSlice(s: string, p: string, i: nat)
    requires i + |p| <= |s| && s[i..i + |p|] == p
    ensures Contains(s, p)
  {
    ContainsIff(s, p);
    assert OccursAt(s, p, i);
  }

  // ---------------------------------------------------------------------
  // str.endswith and str.split on one separator character

  predicate EndsWith(s: string, suffix: string)
  {
    |suffix| <= |s| && s[|s| - |suffix|..] == suffix
  }

  /** s.split(sep) for a one-character separator: the pieces between the
      separators, so there is always at least one (possibly empty) piece. */
  function Split(s: string, sep: char): (parts: seq<string>)
    ensures |parts| >= 1
  {
    if s == [] then [""]
    else
      var rest := Split(s[1..], sep);
      if s[0] == sep then [""] + rest else [[s[0]] + rest[0]] + rest[1..]
  }

  /** sep.join(parts) */
  function Join(parts: seq<string>, sep: char): string
    requires |parts| >= 1
  {
    if |parts| == 1 then parts[0] else parts[0] + [sep] + Join(parts[1..], sep)
  }

  lemma JoinConsChar(c: char, parts: seq<string>, sep: char)
    requires |parts| >= 1
    ensures Join([[c] + parts[0]] + parts[1..], sep) == [c] + Join(parts, sep)
  {
    var ps := [[c] + parts[0]] + parts[1..];
    if |parts| > 1 {
      assert ps[1..] == parts[1..];
    }
  }

  /** Splitting and joining again gives back the path. */
  lemma {:induction false} JoinSplit(s: string, sep: char)
    ensures Join(Split(s, sep), sep) == s
  {
    if s != [] {
      var rest := Split(s[1..], sep);
      JoinSplit(s[1..], sep);
      if s[0] == sep {
        assert ([""] + rest)[1..] == rest;
        assert s == [sep] + s[1..];
      } else {
        JoinConsChar(s[0], rest, sep);
        assert s == [s[0]] + s[1..];
      }
    }
  }

  /** A piece without the separator splits into itself. */
  lemma {:induction false} SplitPiece(a: string, sep: char)
    requires sep !in a
    ensures Split(a, sep) == [a]
  {
    if a != [] {
      SplitPiece(a[1..], sep);
      assert [a[0]] + a[1..] == a;
    }
  }

  /** A piece followed by the separator splits off as the first part. */
  lemma {:induction false} SplitAfterPiece(a: string, t: string, sep: char)
    requires sep !in a
    ensures Split(a + [sep] + t, sep) == [a] + Split(t, sep)
  {
    var s := a + [sep] + t;
    if a == [] {
      assert s == [sep] + t;
      assert s[1..] == t;
    } else {
      assert s[0] == a[0] && s[1..] == a[1..] + [sep] + t;
      SplitAfterPiece(a[1..], t, sep);
      assert [a[0]] + a[1..] == a;
    }
  }

  /** Joining pieces that hold no separator and splitting again gives the
      pieces back. */
  lemma {:induction false} SplitJoin(parts: seq<string>, sep: char)
    requires |parts| >= 1 && forall i :: 0 <= i < |parts| ==> sep !in parts[i]
    ensures Split(Join(parts, sep), sep) == parts
    decreases |parts|
  {
    if |parts| == 1 {
      SplitPiece(parts[0], sep);
    } else {
      SplitAfterPiece(parts[0], Join(parts[1..], sep), sep);
      SplitJoin(parts[1..], sep);
      assert [parts[0]] + parts[1..] == parts;
    }
  }

  // ---------------------------------------------------------------------
  // Decimal digits

  predicate IsDigit(c: char) { '0' <= c <= '9' }

  function DigitValue(c: char): (d: nat)
    requires IsDigit(c)
    ensures d <= 9
  {
    c as int - '0' as int
  }

  /** int() of a run of decimal digits. */
  function NumberValue(digits: string): (n: nat)
    requires forall i :: 0 <= i < |digits| ==> IsDigit(digits[i])
    ensures |digits| > 0 ==> n < Pow10(|digits|)
    decreases |digits|
  {
    if digits == [] then 0
    else NumberValue(digits[..|digits| - 1]) * 10 + DigitValue(digits[|digits| - 1])
  }

  function Pow10(k: nat): (r: nat)
    ensures r >= 1
  {
    if k == 0 then 1 else 10 * Pow10(k - 1)
  }

  /** Length of the longest run of digits at the start of s. */
  function DigitRun(s: string): (k: nat)
    ensures k <= |s|
    ensures forall i :: 0 <= i < k ==> IsDigit(s[i])
    ensures k < |s| ==> !IsDigit(s[k])
  {
    if s == [] || !IsDigit(s[0]) then 0 else 1 + DigitRun(s[1..])
  }

  /** The digit run of a string of digits followed by a non-digit (or
      nothing) is exactly those digits. */
  lemma {:induction false} DigitRunOfDigits(digits: string, rest: string)
    requires forall i :: 0 <= i < |digits| ==> IsDigit(digits[i])
    requires rest == [] || !IsDigit(rest[0])
    ensures DigitRun(digits + rest) == |digits|
  {
    if digits != [] {
      assert (digits + rest)[1..] == digits[1..] + rest;
      DigitRunOfDigits(digits[1..], rest);
    }
  }

  function DigitChar(d: nat): (c: char)
    requires d <= 9
    ensures IsDigit(c) && DigitValue(c) == d
  {
    ('0' as int + d) as char
  }

  /** The last `width` decimal digits of n, zero-padded (Python's `%0*d`
      for values below 10^width). */
  function PadDigits(n: nat, width: nat): (r: string)
    ensures |r| == width
    ensures forall i :: 0 <= i < |r| ==> IsDigit(r[i])
    ensures NumberValue(r) == n % Pow10(width)
  {
    if width == 0 then ""
    else
      var r := PadDigits(n / 10, width - 1) + [DigitChar(n % 10)];
      assert r[..|r| - 1] == PadDigits(n / 10, width - 1);
      ModPow10Step(n, width);
      r
  }

  lemma ModPow10Step(n: nat, width: nat)
    requires width >= 1
    ensures n % Pow10(width) == (n / 10) % Pow10(width - 1) * 10 + n % 10
  {
    var q := Pow10(width - 1);
    var a, b := n / 10, n % 10;
    var c, d := a / q, a % q;
    assert a == c * q + d;
    calc {
      n;
      a * 10 + b;
      (c * q + d) * 10 + b;
      { assert (c * q + d) * 10 == c * (q * 10) + d * 10; }
      c * (q * 10) + (d * 10 + b);
    }
    assert d * 10 + b < q * 10 by {
      assert d <= q - 1;
      assert d * 10 <= (q - 1) * 10;
    }
    ModUnique(n, q * 10, c, d * 10 + b);
  }

  lemma ModUnique(n: int, m: int, x: int, r: int)
    requires m > 0 && 0 <= r < m && n == x * m + r
    ensures n % m == r
  {
    var x', r' := n / m, n % m;
    assert x' * m + r' == x * m + r;
    if x' != x {
      var k := if x' < x then x - x' else x' - x;
      assert k * m == (if x' < x then r' - r else r - r') by {
        if x' < x { assert (x - x') * m == x * m - x' * m; }
        else { assert (x' - x) * m == x' * m - x * m; }
      }
      AtLeastOnce(k, m);
    }
  }

  lemma {:induction false} AtLeastOnce(k: int, m: int)
    requires k >= 1 && m > 0
    ensures k * m >= m
    decreases k
  {
    if k > 1 {
      AtLeastOnce(k - 1, m);
      assert k * m == (k - 1) * m + m;
    }
  }
}
