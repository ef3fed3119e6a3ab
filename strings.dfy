/** The Kotlin string operations the app's codecs are built from: `indexOf`,
    `split` and `joinToString` with a multi-character delimiter,
    `String.toBoolean`, and the decimal rendering of a count. */
module Strings {

  /** `d` occurs in `s` starting at index `k`. */
  predicate OccursAt(s: string, d: string, k: int)
  {
    0 <= k && k + |d| <= |s| && s[k..k + |d|] == d
  }

  /** `d` occurs somewhere in `s` (Kotlin's `s.contains(d)`). */
  predicate ContainsText(s: string, d: string)
  {
    exists k | 0 <= k <= |s| :: OccursAt(s, d, k)
  }

  lemma OccursAtChars(s: string, d: string, k: int)
    requires 0 <= k && k + |d| <= |s|
    ensures OccursAt(s, d, k) <==> forall i :: 0 <= i < |d| ==> s[k + i] == d[i]
  {
    if forall i :: 0 <= i < |d| ==> s[k + i] == d[i] {
      assert s[k..k + |d|] == d;
    }
  }

  /** An occurrence that ends within the first `n` characters is an occurrence in `s[..n]`, and back. */
  lemma OccursAtPrefix(s: string, d: string, k: int, n: int)
    requires 0 <= k && k + |d| <= n <= |s|
    ensures OccursAt(s, d, k) <==> OccursAt(s[..n], d, k)
  {
    assert s[..n][k..k + |d|] == s[k..k + |d|];
  }

  lemma OccursAtTail(s: string, d: string)
    requires |s| > 0
    ensures forall k {:trigger OccursAt(s, d, k)} :: 1 <= k ==> (OccursAt(s, d, k) <==> OccursAt(s[1..], d, k - 1))
  {
    forall k | 1 <= k && k + |d| <= |s|
      ensures OccursAt(s, d, k) <==> OccursAt(s[1..], d, k - 1)
    {
      assert s[1..][k - 1..k - 1 + |d|] == s[k..k + |d|];
    }
  }

  /** Leftmost occurrence of `d` in `s`, or -1 when there is none (Java's `String.indexOf`). */
  function IndexOf(s: string, d: string): (r: int)
    requires |d| > 0
    ensures r >= -1
    ensures r >= 0 ==> OccursAt(s, d, r)
    ensures forall k :: 0 <= k && (r < 0 || k < r) ==> !OccursAt(s, d, k)
    decreases |s|
  {
    if |s| < |d| then -1
    else if s[..|d|] == d then 0
    else
      OccursAtTail(s, d);
      var r := IndexOf(s[1..], d);
      if r < 0 then -1 else r + 1
  }

  lemma IndexOfAbsent(s: string, d: string)
    requires |d| > 0
    ensures IndexOf(s, d) < 0 <==> !ContainsText(s, d)
  {
  }

  /** Kotlin's `joinToString(d)`: the parts in order with `d` between neighbours; "" for no parts. */
  function Join(parts: seq<string>, d: string): string
  {
    if |parts| == 0 then []
    else if |parts| == 1 then parts[0]
    else parts[0] + d + Join(parts[1..], d)
  }

  /** A joined text begins with the first part. */
  lemma JoinStartsWithFirst(parts: seq<string>, d: string)
    requires |parts| > 0
    ensures parts[0] <= Join(parts, d)
  {
  }

  /** Kotlin's `split(d)` for a single non-empty delimiter: cuts at the leftmost
      occurrence, continues after it (occurrences do not overlap) and keeps empty parts. */
  function Split(s: string, d: string): (parts: seq<string>)
    requires |d| > 0
    ensures |parts| >= 1
    ensures Join(parts, d) == s
    ensures forall i :: 0 <= i < |parts| ==> !ContainsText(parts[i], d)
    decreases |s|
  {
    var k := IndexOf(s, d);
    if k < 0 then
      [s]
    else
      var rest := Split(s[k + |d|..], d);
      var parts := [s[..k]] + rest;
      assert parts[1..] == rest;
      assert s == s[..k] + d + s[k + |d|..] by {
        assert s[k..k + |d|] == d;
      }
      assert !ContainsText(s[..k], d) by {
        forall j | OccursAt(s[..k], d, j) ensures false {
          OccursAtPrefix(s, d, j, k);
        }
      }
      parts
  }

  /** The text splits into a single part exactly when it holds no delimiter. */
  lemma SplitOnePart(s: string, d: string)
    requires |d| > 0
    ensures |Split(s, d)| == 1 <==> !ContainsText(s, d)
  {
    IndexOfAbsent(s, d);
  }

  /** No occurrence of `d` in `p + d` starts inside `p`: in `p + d + rest` the
      first cut falls exactly after `p`. */
  predicate EndsCleanly(p: string, d: string)
  {
    forall k :: 0 <= k < |p| ==> !OccursAt(p + d, d, k)
  }

  lemma FirstCutAfter(p: string, d: string, rest: string)
    requires |d| > 0 && EndsCleanly(p, d)
    ensures IndexOf(p + d + rest, d) == |p|
  {
    var s := p + d + rest;
    assert s[..|p| + |d|] == p + d;
    assert OccursAt(s, d, |p|) by {
      assert s[|p|..|p| + |d|] == d;
    }
    forall k | 0 <= k < |p| ensures !OccursAt(s, d, k) {
      OccursAtPrefix(s, d, k, |p| + |d|);
    }
    var r := IndexOf(s, d);
    assert r >= 0;
    assert r >= |p|;
  }

  /** A part that ends cleanly is cut off whole, and splitting goes on after the delimiter. */
  lemma SplitCut(p: string, d: string, rest: string)
    requires |d| > 0 && EndsCleanly(p, d)
    ensures Split(p + d + rest, d) == [p] + Split(rest, d)
  {
    var s := p + d + rest;
    FirstCutAfter(p, d, rest);
    assert s[..|p|] == p;
    assert s[|p| + |d|..] == rest;
  }

  /** Splitting a joined list gives the list back when every cut is unambiguous:
      each part but the last ends cleanly against `d`, and the last holds no `d`. */
  lemma {:induction false} SplitOfJoin(parts: seq<string>, d: string)
    requires |d| > 0 && |parts| >= 1
    requires forall i :: 0 <= i < |parts| - 1 ==> EndsCleanly(parts[i], d)
    requires !ContainsText(parts[|parts| - 1], d)
    ensures Split(Join(parts, d), d) == parts
  {
    if |parts| == 1 {
      IndexOfAbsent(parts[0], d);
    } else {
      SplitCut(parts[0], d, Join(parts[1..], d));
      SplitOfJoin(parts[1..], d);
      assert [parts[0]] + parts[1..] == parts;
    }
  }

  /** A text without the delimiter's first character holds no delimiter. */
  lemma WithoutFirstChar(s: string, d: string)
    requires |d| > 0 && d[0] !in s
    ensures !ContainsText(s, d)
  {
    forall k | 0 <= k && k + |d| <= |s| ensures !OccursAt(s, d, k) {
      assert s[k..k + |d|][0] == s[k];
    }
  }

  /** For a two-character delimiter, a concatenation holds one only inside a
      piece or across the seam. */
  lemma ConcatAvoidsPair(a: string, b: string, d: string)
    requires |d| == 2 && !ContainsText(a, d) && !ContainsText(b, d)
    requires a == [] || b == [] || a[|a| - 1] != d[0] || b[0] != d[1]
    ensures !ContainsText(a + b, d)
  {
    var s := a + b;
    forall k | 0 <= k && k + 2 <= |s| ensures !OccursAt(s, d, k) {
      if k + 2 <= |a| {
        OccursAtPrefix(s, d, k, |a|);
        assert s[..|a|] == a;
      } else if k >= |a| {
        var j := k - |a|;
        assert s[k..k + 2] == [b[j], b[j + 1]] == b[j..j + 2];
        assert !OccursAt(b, d, j);
      } else {
        assert s[k..k + 2] == [a[|a| - 1], b[0]];
        assert d == [d[0], d[1]];
      }
    }
  }

  /** "::" overlaps itself (a ':' followed by "::" holds an earlier "::"), so a part
      cuts cleanly only if it holds no "::" and does not end with ':'. */
  lemma DoubleColonEndsCleanly(p: string)
    requires !ContainsText(p, "::")
    requires p == [] || p[|p| - 1] != ':'
    ensures EndsCleanly(p, "::")
  {
    var d := "::";
    var t := p + d;
    forall k | 0 <= k < |p| ensures !OccursAt(t, d, k) {
      if k + 2 <= |p| {
        OccursAtPrefix(t, d, k, |p|);
        assert t[..|p|] == p;
      } else {
        assert t[k..k + 2][0] == p[|p| - 1];
      }
    }
  }

  /** "<<>>" never overlaps itself, so any part without it cuts cleanly. */
  lemma AngleSeparatorEndsCleanly(p: string)
    requires !ContainsText(p, "<<>>")
    ensures EndsCleanly(p, "<<>>")
  {
    var d := "<<>>";
    var t := p + d;
    forall k | 0 <= k < |p| ensures !OccursAt(t, d, k) {
      if k + 4 <= |p| {
        OccursAtPrefix(t, d, k, |p|);
        assert t[..|p|] == p;
      } else if k == |p| - 3 {
        assert t[k..k + 4][3] == t[|p|] == '<';
      } else {
        assert t[k..k + 4][2] == t[k + 2] == '<';
      }
    }
  }

  /** Kotlin's `a.compareTo(b) < 0` on strings: lexicographic by character code,
      a proper prefix first. */
  predicate Less(a: string, b: string)
  {
    if a == [] then b != []
    else if b == [] then false
    else if a[0] != b[0] then a[0] < b[0]
    else Less(a[1..], b[1..])
  }

  lemma {:induction false} LessIrreflexive(a: string)
    ensures !Less(a, a)
  {
    if a != [] {
      LessIrreflexive(a[1..]);
    }
  }

  lemma {:induction false} LessAsymmetric(a: string, b: string)
    ensures Less(a, b) ==> !Less(b, a)
  {
    if a != [] && b != [] && a[0] == b[0] {
      LessAsymmetric(a[1..], b[1..]);
    }
  }

  lemma {:induction false} LessTransitive(a: string, b: string, c: string)
    ensures Less(a, b) && Less(b, c) ==> Less(a, c)
  {
    if a != [] && b != [] && c != [] && a[0] == b[0] == c[0] {
      LessTransitive(a[1..], b[1..], c[1..]);
    }
  }

  lemma {:induction false} LessTotal(a: string, b: string)
    ensures a == b || Less(a, b) || Less(b, a)
  {
    if a != [] && b != [] && a[0] == b[0] {
      LessTotal(a[1..], b[1..]);
      if a[1..] == b[1..] {
        assert a == [a[0]] + a[1..] && b == [b[0]] + b[1..];
      }
    }
  }

  function LowerAscii(c: char): char
  {
    if 'A' <= c <= 'Z' then (c as int + 32) as char else c
  }

  /** Kotlin's `String.toBoolean()`: true exactly for "true" in any letter case. */
  function ToBoolean(s: string): (b: bool)
    ensures b <==> |s| == 4 && forall i :: 0 <= i < 4 ==> LowerAscii(s[i]) == "true"[i]
  {
    |s| == 4 && LowerAscii(s[0]) == 't' && LowerAscii(s[1]) == 'r'
    && LowerAscii(s[2]) == 'u' && LowerAscii(s[3]) == 'e'
  }

  /** A Boolean as Kotlin writes it in a string template; `ToBoolean` reads it back. */
  function BoolText(b: bool): (s: string)
    ensures ToBoolean(s) == b
    ensures '<' !in s && ':' !in s && |s| > 0 && s[|s| - 1] == 'e'
  {
    if b then "true" else "false"
  }

  function DigitChar(n: nat): char
    requires n < 10
  {
    ('0' as int + n) as char
  }

  predicate AllDigits(s: string)
  {
    forall i :: 0 <= i < |s| ==> '0' <= s[i] <= '9'
  }

  /** Decimal rendering of a count, as Kotlin's `Int.toString()` writes it. */
  function NatToString(n: nat): (s: string)
    ensures |s| >= 1 && AllDigits(s)
    ensures n > 0 ==> s[0] != '0'
  {
    if n < 10 then [DigitChar(n)] else NatToString(n / 10) + [DigitChar(n % 10)]
  }

  /** The number a string of decimal digits denotes. */
  function DigitsValue(s: string): nat
    requires AllDigits(s)
  {
    if s == [] then 0 else DigitsValue(s[..|s| - 1]) * 10 + (s[|s| - 1] as int - '0' as int)
  }

  lemma {:induction false} NatToStringRoundTrip(n: nat)
    ensures DigitsValue(NatToString(n)) == n
  {
    if n >= 10 {
      NatToStringRoundTrip(n / 10);
      var s := NatToString(n);
      assert s[..|s| - 1] == NatToString(n / 10);
    }
  }
}
