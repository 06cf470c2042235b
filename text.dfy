/**
 * The string operations the recognition client uses from Rust's `str`:
 * `contains`, `starts_with`, `to_lowercase` (ASCII part), `replace` of one
 * character, the decimal `Display` of integers, and `split` on one character.
 */
module Text {

  /** `s.starts_with(p)` */
  predicate StartsWith(s: string, p: string) {
    |p| <= |s| && s[..|p|] == p
  }

  /** `s.contains(p)`: `p` starts at some position of `s` (the empty pattern occurs everywhere). */
  predicate Contains(s: string, p: string)
    ensures Contains(s, p) ==> |p| <= |s|
    ensures |p| == 0 ==> Contains(s, p)
    decreases |s|
  {
    StartsWith(s, p) || (|s| > 0 && Contains(s[1..], p))
  }

  /** Independent reading of `contains`: there is an index at which `p` occurs. */
  ghost predicate OccursAt(s: string, p: string, i: int) {
    0 <= i && i + |p| <= |s| && s[i..i + |p|] == p
  }

  lemma {:induction false} ContainsIffOccurs(s: string, p: string)
    ensures Contains(s, p) <==> exists i :: OccursAt(s, p, i)
    decreases |s|
  {
    if StartsWith(s, p) {
      assert OccursAt(s, p, 0);
    } else if |s| > 0 {
      ContainsIffOccurs(s[1..], p);
      if exists i :: OccursAt(s[1..], p, i) {
        var i :| OccursAt(s[1..], p, i);
        assert s[i + 1..i + 1 + |p|] == s[1..][i..i + |p|];
        assert OccursAt(s, p, i + 1);
      }
      if exists i :: OccursAt(s, p, i) {
        var i :| OccursAt(s, p, i);
        assert i != 0;
        assert s[1..][i - 1..i - 1 + |p|] == s[i..i + |p|];
        assert OccursAt(s[1..], p, i - 1);
      }
    }
  }

  /** An occurrence in the right operand of a concatenation is an occurrence in the whole. */
  lemma ContainsInRight(a: string, b: string, p: string)
    requires Contains(b, p)
    ensures Contains(a + b, p)
  {
    ContainsIffOccurs(b, p);
    var i :| OccursAt(b, p, i);
    assert (a + b)[|a| + i..|a| + i + |p|] == b[i..i + |p|];
    assert OccursAt(a + b, p, |a| + i);
    ContainsIffOccurs(a + b, p);
  }

  /** An occurrence in the left operand of a concatenation is an occurrence in the whole. */
  lemma ContainsInLeft(a: string, b: string, p: string)
    requires Contains(a, p)
    ensures Contains(a + b, p)
  {
    ContainsIffOccurs(a, p);
    var i :| OccursAt(a, p, i);
    assert (a + b)[i..i + |p|] == a[i..i + |p|];
    assert OccursAt(a + b, p, i);
    ContainsIffOccurs(a + b, p);
  }

  /** A prefix is contained. */
  lemma StartsWithContains(s: string, p: string)
    requires StartsWith(s, p)
    ensures Contains(s, p)
  {
  }

  /** `c` does not occur in `s`. */
  predicate NoChar(s: string, c: char) {
    forall i :: 0 <= i < |s| ==> s[i] != c
  }

  /**
   * Prepending text that lacks the first character of a non-empty pattern
   * neither creates nor hides an occurrence of the pattern.
   */
  lemma ContainsAfterPrefix(a: string, b: string, p: string)
    requires |p| > 0 && NoChar(a, p[0])
    ensures Contains(a + b, p) <==> Contains(b, p)
  {
    ContainsIffOccurs(a + b, p);
    ContainsIffOccurs(b, p);
    if Contains(a + b, p) {
      var i :| OccursAt(a + b, p, i);
      assert (a + b)[i] == p[0];
      assert i >= |a|;
      assert b[i - |a|..i - |a| + |p|] == (a + b)[i..i + |p|];
      assert OccursAt(b, p, i - |a|);
    }
    if Contains(b, p) {
      ContainsInRight(a, b, p);
    }
  }

  /**
   * `p` cannot straddle a boundary followed by `" ("`: no space in `p` is its
   * last character or is followed by an opening parenthesis.
   */
  ghost predicate NoSpaceParen(p: string) {
    forall k :: 0 <= k < |p| && p[k] == ' ' ==> k + 1 < |p| && p[k + 1] != '('
  }

  /**
   * Appending text that starts with `" ("` neither creates nor hides an
   * occurrence of a pattern that has no space before a parenthesis, as long
   * as the appended text does not contain the pattern itself.
   */
  lemma ContainsBeforeSuffix(a: string, b: string, p: string)
    requires |b| >= 2 && b[0] == ' ' && b[1] == '('
    requires NoSpaceParen(p) && !Contains(b, p)
    ensures Contains(a + b, p) <==> Contains(a, p)
  {
    ContainsIffOccurs(a + b, p);
    ContainsIffOccurs(a, p);
    ContainsIffOccurs(b, p);
    if Contains(a + b, p) {
      var i :| OccursAt(a + b, p, i);
      // the occurrence lies neither inside b nor across the boundary
      if i >= |a| {
        SliceOfRight(a, b, i, |p|);
        OccursContains(b, p, i - |a|);
        assert false;
      } else if i + |p| > |a| {
        SliceAt(a + b, i, |p|, |a| - i);
        SliceAt(a + b, i, |p|, |a| - i + 1);
        assert false;
      }
      assert a[i..i + |p|] == (a + b)[i..i + |p|];
      assert OccursAt(a, p, i);
    }
    if Contains(a, p) {
      ContainsInLeft(a, b, p);
    }
  }

  lemma OccursContains(s: string, p: string, i: int)
    ensures OccursAt(s, p, i) ==> Contains(s, p)
  {
    ContainsIffOccurs(s, p);
  }

  lemma SliceAt(s: string, i: int, n: int, j: int)
    ensures 0 <= i && i + n <= |s| && 0 <= j < n ==> s[i..i + n][j] == s[i + j]
  {
  }

  lemma SliceOfRight(a: string, b: string, i: int, n: int)
    ensures |a| <= i && i + n <= |a| + |b| && 0 <= n ==> (a + b)[i..i + n] == b[i - |a|..i - |a| + n]
  {
  }

  /** A text that lacks the first character of a non-empty pattern does not contain it. */
  lemma NoFirstCharNoContains(s: string, p: string)
    requires |p| > 0 && NoChar(s, p[0])
    ensures !Contains(s, p)
  {
    forall i ensures !OccursAt(s, p, i) {
      SliceAt(s, i, |p|, 0);
    }
    ContainsIffOccurs(s, p);
  }

  /**
   * A pattern is found in `a + m + b` exactly when it is found in `m`, if
   * neither frame holds the pattern's first character and `b` opens with
   * `" ("`, which the pattern never shows after a space.
   */
  lemma ContainsInFramed(a: string, m: string, b: string, p: string)
    requires |p| > 0 && NoChar(a, p[0]) && NoChar(b, p[0]) && NoSpaceParen(p)
    requires |b| >= 2 && b[0] == ' ' && b[1] == '('
    ensures Contains(a + m + b, p) <==> Contains(m, p)
  {
    assert a + m + b == a + (m + b);
    ContainsAfterPrefix(a, m + b, p);
    NoFirstCharNoContains(b, p);
    ContainsBeforeSuffix(m, b, p);
  }

  /** ASCII part of `char::to_lowercase`: `A`..`Z` become `a`..`z`, everything else is kept. */
  function LowerChar(c: char): (l: char) {
    if 'A' <= c <= 'Z' then (c as int + 32) as char else c
  }

  predicate IsUpperAscii(c: char) {
    'A' <= c <= 'Z'
  }

  /** `str::to_lowercase`, restricted to the ASCII case mapping. */
  function Lower(s: string): (r: string)
    ensures |r| == |s|
    ensures forall i :: 0 <= i < |s| ==> !IsUpperAscii(r[i])
    ensures forall i :: 0 <= i < |s| && !IsUpperAscii(s[i]) ==> r[i] == s[i]
  {
    if s == [] then [] else [LowerChar(s[0])] + Lower(s[1..])
  }

  /** Each character is lowered on its own: `A`..`Z` become `a`..`z`, the rest stay. */
  lemma {:induction false} LowerAt(s: string, i: int)
    requires 0 <= i < |s|
    ensures Lower(s)[i] == LowerChar(s[i])
    decreases |s|
  {
    if i > 0 {
      LowerAt(s[1..], i - 1);
    }
  }

  lemma {:induction false} LowerIdempotent(s: string)
    ensures Lower(Lower(s)) == Lower(s)
  {
    var l := Lower(s);
    var ll := Lower(l);
    assert |ll| == |l|;
    forall i | 0 <= i < |l| ensures ll[i] == l[i] {
      assert !IsUpperAscii(l[i]);
    }
  }

  /** `s.replace(from, to)` for single characters: every `from` becomes `to`. */
  function ReplaceChar(s: string, from: char, to: char): (r: string)
    ensures |r| == |s|
  {
    if s == [] then [] else [if s[0] == from then to else s[0]] + ReplaceChar(s[1..], from, to)
  }

  lemma {:induction false} ReplaceCharAt(s: string, from: char, to: char, i: int)
    requires 0 <= i < |s|
    ensures ReplaceChar(s, from, to)[i] == if s[i] == from then to else s[i]
    decreases |s|
  {
    if i > 0 {
      ReplaceCharAt(s[1..], from, to, i - 1);
    }
  }

  /** After the replacement no `from` is left, and the other characters are untouched. */
  lemma ReplaceCharRemoves(s: string, from: char, to: char)
    requires from != to
    ensures NoChar(ReplaceChar(s, from, to), from)
    ensures forall i :: 0 <= i < |s| && s[i] != from ==> ReplaceChar(s, from, to)[i] == s[i]
  {
    forall i | 0 <= i < |s| ensures ReplaceChar(s, from, to)[i] == if s[i] == from then to else s[i] {
      ReplaceCharAt(s, from, to, i);
    }
  }

  /** Decimal digit for `0 <= d < 10`. */
  function Digit(d: nat): (c: char)
    requires d < 10
  {
    "0123456789"[d]
  }

  predicate IsDigit(c: char) {
    '0' <= c <= '9'
  }

  /** Value of a decimal digit. */
  function DigitValue(c: char): (d: nat)
    requires IsDigit(c)
    ensures d < 10
  {
    c as int - '0' as int
  }

  lemma DigitValueOfDigit(d: nat)
    requires d < 10
    ensures IsDigit(Digit(d)) && DigitValue(Digit(d)) == d
  {
  }

  predicate AllDigits(s: string) {
    forall i :: 0 <= i < |s| ==> IsDigit(s[i])
  }

  /**
   * `u64::to_string` / `usize::to_string`: the shortest decimal rendering
   * (non-empty, all digits, no leading zero unless the number is zero).
   */
  function NatToString(n: nat): (s: string)
    ensures |s| > 0 && AllDigits(s)
    ensures |s| > 1 ==> s[0] != '0'
    decreases n
  {
    if n < 10 then [Digit(n)] else NatToString(n / 10) + [Digit(n % 10)]
  }

  /** Reads a string of decimal digits back as a number (the inverse of `NatToString`). */
  function ParseDecimal(s: string): (n: nat)
    requires AllDigits(s)
    decreases |s|
  {
    if s == [] then 0 else ParseDecimal(s[..|s| - 1]) * 10 + DigitValue(s[|s| - 1])
  }

  lemma {:induction false} ParseDecimalOfNatToString(n: nat)
    ensures ParseDecimal(NatToString(n)) == n
    decreases n
  {
    var s := NatToString(n);
    if n < 10 {
      DigitValueOfDigit(n);
      assert s[..|s| - 1] == [];
    } else {
      ParseDecimalOfNatToString(n / 10);
      DigitValueOfDigit(n % 10);
      assert s[..|s| - 1] == NatToString(n / 10);
    }
  }

  /** Different numbers render differently. */
  lemma NatToStringInjective(m: nat, n: nat)
    requires NatToString(m) == NatToString(n)
    ensures m == n
  {
    ParseDecimalOfNatToString(m);
    ParseDecimalOfNatToString(n);
  }

  /** `i32`'s `Display`: a minus sign for negative numbers, then the digits of the magnitude. */
  function IntToString(i: int): (s: string)
    ensures |s| > 0
    ensures forall k :: 0 <= k < |s| ==> s[k] == '-' || IsDigit(s[k])
    ensures s[0] == '-' <==> i < 0
    ensures i < 0 ==> s[1..] == NatToString(-i)
    ensures i >= 0 ==> s == NatToString(i)
  {
    if i < 0 then "-" + NatToString(-i) else NatToString(i)
  }

  /** Different integers render differently. */
  lemma IntToStringInjective(i: int, j: int)
    requires IntToString(i) == IntToString(j)
    ensures i == j
  {
    if i < 0 {
      NatToStringInjective(-i, -j);
    } else {
      NatToStringInjective(i, j);
    }
  }

  /** `s.split(sep)`: the pieces between separators; there is always at least one. */
  function Split(s: string, sep: char): (r: seq<string>)
    ensures |r| >= 1
    decreases |s|
  {
    if s == [] then [[]]
    else
      var rest := Split(s[1..], sep);
      if s[0] == sep then [[]] + rest else [[s[0]] + rest[0]] + rest[1..]
  }

  /** Joins pieces with `sep` between them (the `join` that `format!` spells out inline). */
  function Join(parts: seq<string>, sep: char): (s: string)
    requires |parts| >= 1
  {
    if |parts| == 1 then parts[0] else parts[0] + [sep] + Join(parts[1..], sep)
  }

  lemma {:induction false} SplitAfterPiece(a: string, rest: string, sep: char)
    requires NoChar(a, sep)
    ensures Split(a + [sep] + rest, sep) == [a] + Split(rest, sep)
    decreases |a|
  {
    if a == [] {
      assert a + [sep] + rest == [sep] + rest;
      assert ([sep] + rest)[1..] == rest;
    } else {
      assert (a + [sep] + rest)[1..] == a[1..] + [sep] + rest;
      SplitAfterPiece(a[1..], rest, sep);
      assert [a[0]] + a[1..] == a;
    }
  }

  lemma {:induction false} SplitOfPiece(a: string, sep: char)
    requires NoChar(a, sep)
    ensures Split(a, sep) == [a]
    decreases |a|
  {
    if a != [] {
      SplitOfPiece(a[1..], sep);
      assert [a[0]] + a[1..] == a;
    }
  }

  /** Splitting undoes joining when no piece contains the separator. */
  lemma {:induction false} SplitJoin(parts: seq<string>, sep: char)
    requires |parts| >= 1
    requires forall j :: 0 <= j < |parts| ==> NoChar(parts[j], sep)
    ensures Split(Join(parts, sep), sep) == parts
    decreases |parts|
  {
    if |parts| == 1 {
      SplitOfPiece(parts[0], sep);
    } else {
      SplitJoin(parts[1..], sep);
      SplitAfterPiece(parts[0], Join(parts[1..], sep), sep);
      assert [parts[0]] + parts[1..] == parts;
    }
  }
}
