/** The .NET string operations the core relies on, over `seq<char>`.
    Ordinal comparisons compare characters one by one; OrdinalIgnoreCase
    compares their upper-case forms, which this model computes for ASCII
    letters only. */
module Text {
  /** The upper-case form used by OrdinalIgnoreCase. */
  function UpperChar(c: char): char
  {
    if 'a' <= c <= 'z' then (c as int - 32) as char else c
  }

  /** The form two strings share exactly when OrdinalIgnoreCase calls them equal. */
  function Fold(s: string): string
  {
    seq(|s|, i requires 0 <= i < |s| => UpperChar(s[i]))
  }

  predicate EqualsIgnoreCase(a: string, b: string)
  {
    Fold(a) == Fold(b)
  }

  /** `string.StartsWith(prefix, StringComparison.Ordinal)`. */
  predicate StartsWith(s: string, prefix: string)
  {
    |prefix| <= |s| && s[..|prefix|] == prefix
  }

  /** `string.EndsWith(suffix, StringComparison.Ordinal)`. */
  predicate EndsWith(s: string, suffix: string)
  {
    |suffix| <= |s| && s[|s| - |suffix|..] == suffix
  }

  /** `string.EndsWith(suffix, StringComparison.OrdinalIgnoreCase)`. */
  predicate EndsWithIgnoreCase(s: string, suffix: string)
  {
    |suffix| <= |s| && Fold(s[|s| - |suffix|..]) == Fold(suffix)
  }

  /** `StartsWith(prefix, StringComparison.OrdinalIgnoreCase)`. */
  predicate StartsWithIgnoreCase(s: string, prefix: string)
  {
    |prefix| <= |s| && Fold(s[..|prefix|]) == Fold(prefix)
  }

  /** `char.IsWhiteSpace`: the Unicode space separators, the line and paragraph
      separators, and the control characters U+0009 to U+000D and U+0085. */
  predicate IsWhiteSpace(c: char)
  {
    ('\U{0009}' <= c <= '\U{000D}') || c == '\U{0020}' || c == '\U{0085}' || c == '\U{00A0}'
    || c == '\U{1680}' || ('\U{2000}' <= c <= '\U{200A}') || c == '\U{2028}'
    || c == '\U{2029}' || c == '\U{202F}' || c == '\U{205F}' || c == '\U{3000}'
  }

  /** `string.IsNullOrWhiteSpace` of a non-null string. */
  predicate IsWhiteSpaceOnly(s: string)
  {
    forall i | 0 <= i < |s| :: IsWhiteSpace(s[i])
  }

  /** `string.Replace(char, char)`. */
  function ReplaceChar(s: string, from: char, to: char): string
  {
    seq(|s|, i requires 0 <= i < |s| => if s[i] == from then to else s[i])
  }

  /** `string.Replace(string, string)`: an ordinal, left-to-right replacement
      of non-overlapping occurrences. */
  function Replace(s: string, pattern: string, replacement: string): string
    requires |pattern| > 0
    decreases |s|
  {
    if |s| < |pattern| then s
    else if s[..|pattern|] == pattern then replacement + Replace(s[|pattern|..], pattern, replacement)
    else [s[0]] + Replace(s[1..], pattern, replacement)
  }

  /** Decimal digits of a natural number, without leading zeros. */
  function NatToString(n: nat): (r: string)
    ensures |r| > 0
    ensures forall i | 0 <= i < |r| :: '0' <= r[i] <= '9'
    decreases n
  {
    if n < 10 then [(48 + n) as char]
    else NatToString(n / 10) + [(48 + n % 10) as char]
  }

  /** `int.ToString()` in the invariant culture: a minus sign, then the digits. */
  function IntToString(n: int): string
  {
    if n < 0 then "-" + NatToString(-n) else NatToString(n)
  }

  /** Ordinal order: strings compare by their first differing character, and a
      proper prefix comes first. */
  predicate OrdinalLessOrEqual(a: string, b: string)
    decreases |a|
  {
    if a == [] then true
    else if b == [] then false
    else if a[0] != b[0] then a[0] < b[0]
    else OrdinalLessOrEqual(a[1..], b[1..])
  }

  lemma ReplaceCharAppend(a: string, b: string, from: char, to: char)
    ensures ReplaceChar(a + b, from, to) == ReplaceChar(a, from, to) + ReplaceChar(b, from, to)
  {
    assert forall i | 0 <= i < |a + b| ::
      ReplaceChar(a + b, from, to)[i] == (ReplaceChar(a, from, to) + ReplaceChar(b, from, to))[i];
  }

  /** A replacement whose character does not occur changes nothing. */
  lemma ReplaceCharAbsent(s: string, from: char, to: char)
    requires forall i | 0 <= i < |s| :: s[i] != from
    ensures ReplaceChar(s, from, to) == s
  {
  }

  lemma FoldAppend(a: string, b: string)
    ensures Fold(a + b) == Fold(a) + Fold(b)
  {
    assert forall i | 0 <= i < |a + b| :: Fold(a + b)[i] == (Fold(a) + Fold(b))[i];
  }

  lemma FoldPrefix(s: string, n: nat)
    requires n <= |s|
    ensures Fold(s[..n]) == Fold(s)[..n]
  {
  }

  lemma {:induction false} NatToStringLength(n: nat)
    ensures n < 10 ==> |NatToString(n)| == 1
    ensures n >= 10 ==> |NatToString(n)| == |NatToString(n / 10)| + 1
  {
  }

  /** Ordinal order is total. */
  lemma {:induction false} OrdinalTotal(a: string, b: string)
    ensures OrdinalLessOrEqual(a, b) || OrdinalLessOrEqual(b, a)
    decreases |a|
  {
    if a != [] && b != [] && a[0] == b[0] {
      OrdinalTotal(a[1..], b[1..]);
    }
  }

  /** Ordinal order is transitive. */
  lemma {:induction false} OrdinalTransitive(a: string, b: string, c: string)
    requires OrdinalLessOrEqual(a, b) && OrdinalLessOrEqual(b, c)
    ensures OrdinalLessOrEqual(a, c)
    decreases |a|
  {
    if a != [] && b != [] && c != [] && a[0] == b[0] && b[0] == c[0] {
      OrdinalTransitive(a[1..], b[1..], c[1..]);
    }
  }

  /** Ordinal order is antisymmetric: it tells apart any two different strings. */
  lemma {:induction false} OrdinalAntisymmetric(a: string, b: string)
    requires OrdinalLessOrEqual(a, b) && OrdinalLessOrEqual(b, a)
    ensures a == b
    decreases |a|
  {
    if a != [] && b != [] {
      OrdinalAntisymmetric(a[1..], b[1..]);
      assert a == [a[0]] + a[1..] && b == [b[0]] + b[1..];
    }
  }

  /** The first character of a replacement result is either the replacement's
      first character (the input starts with the pattern) or the input's own. */
  lemma ReplaceFirst(s: string, pattern: string, replacement: string)
    requires |pattern| > 0 && |replacement| > 0 && |s| > 0
    ensures var r := Replace(s, pattern, replacement);
            |r| > 0 && (r[0] == s[0] || (StartsWith(s, pattern) && r[0] == replacement[0]))
  {
  }

  /** Replacing a one-character pattern by text without that character leaves
      no occurrence of it. */
  lemma {:induction false} ReplaceRemovesChar(s: string, c: char, replacement: string)
    requires forall j | 0 <= j < |replacement| :: replacement[j] != c
    ensures forall i | 0 <= i < |Replace(s, [c], replacement)| :: Replace(s, [c], replacement)[i] != c
    decreases |s|
  {
    if |s| >= 1 {
      ReplaceRemovesChar(s[1..], c, replacement);
    }
  }

  /** Whether `c1` is immediately followed by `c2` somewhere in `s`. */
  predicate ContainsPair(s: string, c1: char, c2: char)
  {
    exists i | 0 <= i < |s| - 1 :: s[i] == c1 && s[i + 1] == c2
  }

  /** Replacing a two-character pattern by text that contains neither of its
      characters leaves no occurrence of the pattern. */
  lemma {:induction false} ReplaceRemovesPair(s: string, c1: char, c2: char, replacement: string)
    requires |replacement| > 0
    requires forall j | 0 <= j < |replacement| :: replacement[j] != c1 && replacement[j] != c2
    ensures !ContainsPair(Replace(s, [c1, c2], replacement), c1, c2)
    decreases |s|
  {
    var pattern := [c1, c2];
    var r := Replace(s, pattern, replacement);
    if |s| < 2 {
    } else if s[..2] == pattern {
      var rest := Replace(s[2..], pattern, replacement);
      ReplaceRemovesPair(s[2..], c1, c2, replacement);
      assert r == replacement + rest;
      forall i | 0 <= i < |r| - 1 ensures !(r[i] == c1 && r[i + 1] == c2) {
        if i < |replacement| {
          assert r[i] == replacement[i];
        } else {
          var k := i - |replacement|;
          assert 0 <= k < |rest| - 1;
          assert r[i] == rest[k] && r[i + 1] == rest[k + 1];
          assert !ContainsPair(rest, c1, c2);
        }
      }
    } else {
      var rest := Replace(s[1..], pattern, replacement);
      ReplaceRemovesPair(s[1..], c1, c2, replacement);
      assert r == [s[0]] + rest;
      forall i | 0 <= i < |r| - 1 ensures !(r[i] == c1 && r[i + 1] == c2) {
        if i == 0 {
          ReplaceFirst(s[1..], pattern, replacement);
        } else {
          var k := i - 1;
          assert 0 <= k < |rest| - 1;
          assert r[i] == rest[k] && r[i + 1] == rest[k + 1];
          assert !ContainsPair(rest, c1, c2);
        }
      }
    }
  }
  /** Putting text after every occurrence of a newline-like pattern (one
      character, or two different ones) and then replacing the padded
      pattern by the pattern gives the original back. */
  lemma {:induction false} ReplaceUndo(s: string, pattern: string, extra: string)
    requires 1 <= |pattern| <= 2 && (|pattern| == 2 ==> pattern[0] != pattern[1])
    ensures Replace(Replace(s, pattern, pattern + extra), pattern + extra, pattern) == s
    decreases |s|
  {
    var padded := pattern + extra;
    var r := Replace(s, pattern, padded);
    if |s| < |pattern| {
      assert r == s;
    } else if s[..|pattern|] == pattern {
      var rest := s[|pattern|..];
      ReplaceUndo(rest, pattern, extra);
      assert r == padded + Replace(rest, pattern, padded);
      assert r[..|padded|] == padded && r[|padded|..] == Replace(rest, pattern, padded);
      assert s == pattern + rest;
    } else {
      var rest := s[1..];
      var rr := Replace(rest, pattern, padded);
      ReplaceUndo(rest, pattern, extra);
      assert r == [s[0]] + rr;
      assert r[1..] == rr;
      if |r| >= |padded| {
        assert r[..|padded|] != padded by {
          if s[0] != pattern[0] {
            assert r[0] != padded[0];
          } else {
            assert |s[..|pattern|]| == |pattern|;
            var k :| 0 <= k < |pattern| && s[..|pattern|][k] != pattern[k];
            assert k == 1 && |pattern| == 2 && s[1] != pattern[1];
            assert |rest| > 0;
            ReplaceFirst(rest, pattern, padded);
            assert r[1] == rr[0];
          }
        }
      }
      assert s == [s[0]] + rest;
    }
  }
}
