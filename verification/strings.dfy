/** String helpers the subsystem relies on: prefix and substring tests,
    ASCII lower-casing, decimal formatting and parsing of `u32`, splitting on
    a separator character, and the lexicographic order Rust uses on `String`. */
module Strings {
  import opened Common

  // ---------------------------------------------------------------------------
  // Prefix and substring tests (`str::starts_with`, `str::contains`)
  // ---------------------------------------------------------------------------

  predicate StartsWith(s: string, prefix: string) {
    |prefix| <= |s| && s[..|prefix|] == prefix
  }

  /** `s.contains(sub)`; the empty pattern is contained in every string. */
  predicate Contains(s: string, sub: string) {
    exists i | 0 <= i <= |s| :: StartsWith(s[i..], sub)
  }

  /** Every character of a contained pattern occurs in the string. */
  lemma ContainsChar(s: string, sub: string, j: int)
    requires Contains(s, sub) && 0 <= j < |sub|
    ensures sub[j] in s
  {
    var i :| 0 <= i <= |s| && StartsWith(s[i..], sub);
    assert s[i..][j] == sub[j];
    assert s[i + j] == sub[j];
  }

  lemma EmptyContained(s: string)
    ensures Contains(s, "")
  {
    assert StartsWith(s[0..], "");
  }

  // ---------------------------------------------------------------------------
  // ASCII lower-casing
  // ---------------------------------------------------------------------------

  predicate IsUpper(c: char) {
    'A' <= c <= 'Z'
  }

  function LowerChar(c: char): (r: char)
    ensures !IsUpper(r)
    ensures !IsUpper(c) ==> r == c
  {
    if IsUpper(c) then (c as int + 32) as char else c
  }

  function Lower(s: string): (r: string)
    ensures |r| == |s|
    ensures forall i :: 0 <= i < |s| ==> r[i] == LowerChar(s[i])
  {
    seq(|s|, i requires 0 <= i < |s| => LowerChar(s[i]))
  }

  /** A lower-cased string never contains an upper-case pattern. */
  lemma LowerNeverContainsUpper(s: string, pattern: string, j: int)
    requires 0 <= j < |pattern| && IsUpper(pattern[j])
    ensures !Contains(Lower(s), pattern)
  {
    var l := Lower(s);
    forall i | 0 <= i <= |l| ensures !StartsWith(l[i..], pattern) {
      if |pattern| <= |l[i..]| {
        assert l[i..][..|pattern|][j] == l[i + j];
      }
    }
  }

  // ---------------------------------------------------------------------------
  // Decimal formatting (`format!("{}", n)`) and `u32::from_str`
  // ---------------------------------------------------------------------------

  predicate IsDigit(c: char) {
    '0' <= c <= '9'
  }

  predicate AllDigits(s: string) {
    forall i :: 0 <= i < |s| ==> IsDigit(s[i])
  }

  function DigitChar(d: nat): (c: char)
    requires d < 10
    ensures IsDigit(c)
  {
    ('0' as int + d) as char
  }

  function DigitValue(c: char): nat
    requires IsDigit(c)
  {
    c as int - '0' as int
  }

  /** Value of a string of decimal digits (the empty string is 0). */
  function DigitsValue(s: string): nat
    requires AllDigits(s)
  {
    if |s| == 0 then 0 else DigitsValue(s[..|s| - 1]) * 10 + DigitValue(s[|s| - 1])
  }

  /** Decimal rendering of a natural number, without sign or leading zeros. */
  function NatToString(n: nat): (r: string)
    ensures |r| > 0
    ensures AllDigits(r)
    decreases n
  {
    if n < 10 then [DigitChar(n)] else NatToString(n / 10) + [DigitChar(n % 10)]
  }

  lemma {:induction false} NatToStringValue(n: nat)
    ensures DigitsValue(NatToString(n)) == n
    decreases n
  {
    if n >= 10 {
      NatToStringValue(n / 10);
      var s := NatToString(n);
      assert s[..|s| - 1] == NatToString(n / 10);
    }
  }

  /** `s` is the digit string `d`, possibly behind one `+`. */
  predicate UnsignedSpelling(s: string, d: string) {
    |d| > 0 && AllDigits(d) && (s == d || s == ['+'] + d)
  }

  /** `s.parse::<u32>()`: an optional leading `+`, then at least one decimal
      digit, with a value below 2^32. */
  function ParseU32(s: string): (r: Option<u32>)
    ensures r.Some? ==> exists d :: UnsignedSpelling(s, d) && r.value == DigitsValue(d)
    ensures forall d :: UnsignedSpelling(s, d) ==>
      r == if DigitsValue(d) < 0x1_0000_0000 then Some(DigitsValue(d)) else None
  {
    assert forall d :: UnsignedSpelling(s, d) ==> d == if s[0] == '+' then s[1..] else s by {
      forall d | UnsignedSpelling(s, d) ensures d == if s[0] == '+' then s[1..] else s {
        assert IsDigit(d[0]);
        if s == ['+'] + d {
          assert s[1..] == d;
        }
      }
    }
    var digits := if |s| > 0 && s[0] == '+' then s[1..] else s;
    if |digits| > 0 && AllDigits(digits) && DigitsValue(digits) < 0x1_0000_0000
    then Some(DigitsValue(digits))
    else None
  }

  /** Formatting a `u32` and parsing it back gives the same number. */
  lemma ParseFormatted(n: u32)
    ensures ParseU32(NatToString(n)) == Some(n)
  {
    NatToStringValue(n);
    assert IsDigit(NatToString(n)[0]);
  }

  // ---------------------------------------------------------------------------
  // `str::split(c)`
  // ---------------------------------------------------------------------------

  /** The pieces between occurrences of `c`; always at least one piece. */
  function Split(s: string, c: char): (parts: seq<string>)
    ensures |parts| >= 1
    decreases |s|
  {
    if |s| == 0 then [""]
    else if s[0] == c then [""] + Split(s[1..], c)
    else
      var rest := Split(s[1..], c);
      [[s[0]] + rest[0]] + rest[1..]
  }

  lemma {:induction false} SplitWithoutSeparator(s: string, c: char)
    requires c !in s
    ensures Split(s, c) == [s]
    decreases |s|
  {
    if |s| > 0 {
      SplitWithoutSeparator(s[1..], c);
      assert [s[0]] + s[1..] == s;
    }
  }

  lemma {:induction false} SplitAtSeparator(a: string, c: char, b: string)
    requires c !in a
    ensures Split(a + [c] + b, c) == [a] + Split(b, c)
    decreases |a|
  {
    if |a| == 0 {
      assert a + [c] + b == [c] + b;
      assert ([c] + b)[1..] == b;
    } else {
      var s := a + [c] + b;
      assert s[0] == a[0];
      assert s[1..] == a[1..] + [c] + b;
      SplitAtSeparator(a[1..], c, b);
      assert [a[0]] + a[1..] == a;
    }
  }

  /** A string holding the separator splits into at least two pieces. */
  lemma {:induction false} SplitHasSeparatorPiece(s: string, c: char)
    requires c in s
    ensures |Split(s, c)| >= 2
    decreases |s|
  {
    if s[0] != c {
      assert c in s[1..] by {
        var k :| 0 <= k < |s| && s[k] == c;
        assert s[1..][k - 1] == c;
      }
      SplitHasSeparatorPiece(s[1..], c);
    }
  }

  /** Position `i` holds the only occurrence of `c` in `s`. */
  predicate OnlySeparatorAt(s: string, c: char, i: int) {
    0 <= i < |s| && s[i] == c && c !in s[..i] && c !in s[i + 1..]
  }

  /** `s` splits into exactly two pieces when it holds `c` exactly once,
      and the pieces are what lies before and after that occurrence. */
  lemma SplitInTwo(s: string, c: char)
    ensures |Split(s, c)| == 2 <==> exists i :: OnlySeparatorAt(s, c, i)
    ensures forall i :: OnlySeparatorAt(s, c, i) ==> Split(s, c) == [s[..i], s[i + 1..]]
  {
    forall i | OnlySeparatorAt(s, c, i)
      ensures Split(s, c) == [s[..i], s[i + 1..]]
    {
      assert s == s[..i] + [c] + s[i + 1..];
      SplitAtSeparator(s[..i], c, s[i + 1..]);
      SplitWithoutSeparator(s[i + 1..], c);
    }
    if c !in s {
      SplitWithoutSeparator(s, c);
    } else {
      var i := FirstIndexOf(s, c);
      assert s == s[..i] + [c] + s[i + 1..];
      SplitAtSeparator(s[..i], c, s[i + 1..]);
      if c in s[i + 1..] {
        SplitHasSeparatorPiece(s[i + 1..], c);
      } else {
        assert OnlySeparatorAt(s, c, i);
      }
    }
  }

  /** The first position holding `c`. */
  function FirstIndexOf(s: string, c: char): (i: nat)
    requires c in s
    ensures i < |s| && s[i] == c && c !in s[..i]
  {
    if s[0] == c then 0
    else
      assert c in s[1..] by {
        var k :| 0 <= k < |s| && s[k] == c;
        assert s[1..][k - 1] == c;
      }
      var j := FirstIndexOf(s[1..], c);
      assert s[..j + 1] == [s[0]] + s[1..][..j];
      j + 1
  }

  // ---------------------------------------------------------------------------
  // Lexicographic order of `String` (Rust's `Ord for str`)
  // ---------------------------------------------------------------------------

  predicate Le(a: string, b: string)
    decreases |a|
  {
    if |a| == 0 then true
    else if |b| == 0 then false
    else if a[0] != b[0] then a[0] < b[0]
    else Le(a[1..], b[1..])
  }

  lemma {:induction false} LeTotal(a: string, b: string)
    ensures Le(a, b) || Le(b, a)
    decreases |a|
  {
    if |a| > 0 && |b| > 0 && a[0] == b[0] {
      LeTotal(a[1..], b[1..]);
    }
  }

  lemma {:induction false} LeAntisymmetric(a: string, b: string)
    requires Le(a, b) && Le(b, a)
    ensures a == b
    decreases |a|
  {
    if |a| > 0 && |b| > 0 {
      LeAntisymmetric(a[1..], b[1..]);
      assert a == [a[0]] + a[1..];
      assert b == [b[0]] + b[1..];
    }
  }

  lemma {:induction false} LeTransitive(a: string, b: string, c: string)
    requires Le(a, b) && Le(b, c)
    ensures Le(a, c)
    decreases |a|
  {
    if |a| > 0 && |b| > 0 && |c| > 0 && a[0] == b[0] && b[0] == c[0] {
      LeTransitive(a[1..], b[1..], c[1..]);
    }
  }

  lemma {:induction false} LeReflexive(a: string)
    ensures Le(a, a)
    decreases |a|
  {
    if |a| > 0 {
      LeReflexive(a[1..]);
    }
  }

  predicate IsLeast(m: string, s: set<string>) {
    m in s && forall x :: x in s ==> Le(m, x)
  }

  lemma {:induction false} LeastExists(s: set<string>)
    requires s != {}
    ensures exists m :: IsLeast(m, s)
    decreases |s|
  {
    var x :| x in s;
    if s != {x} {
      LeastExists(s - {x});
      var m :| IsLeast(m, s - {x});
      LeTotal(x, m);
      if Le(x, m) {
        forall y | y in s ensures Le(x, y) {
          if y != x { LeTransitive(x, m, y); } else { LeReflexive(x); }
        }
        assert IsLeast(x, s);
      } else {
        assert IsLeast(m, s);
      }
    } else {
      LeReflexive(x);
      assert IsLeast(x, s);
    }
  }

  lemma LeastUnique(m: string, m': string, s: set<string>)
    requires IsLeast(m, s) && IsLeast(m', s)
    ensures m == m'
  {
    LeAntisymmetric(m, m');
  }

  function Least(s: set<string>): (m: string)
    requires s != {}
    ensures IsLeast(m, s)
  {
    LeastExists(s);
    forall m, m' | IsLeast(m, s) && IsLeast(m', s) ensures m == m' {
      LeastUnique(m, m', s);
    }
    var m :| IsLeast(m, s);
    m
  }

  /** Strictly ascending: sorted and free of duplicates. */
  predicate StrictlyAscending(xs: seq<string>) {
    forall i, j :: 0 <= i < j < |xs| ==> Le(xs[i], xs[j]) && xs[i] != xs[j]
  }

  /** The elements of a finite set of strings, in ascending order.  The model
      uses this order wherever the source iterates a hash map, whose order
      Rust leaves unspecified. */
  function Ascending(s: set<string>): (r: seq<string>)
    ensures |r| == |s|
    ensures forall x :: x in r <==> x in s
    ensures StrictlyAscending(r)
    decreases |s|
  {
    if s == {} then []
    else
      var m := Least(s);
      var rest := Ascending(s - {m});
      PrependLeast(m, rest);
      [m] + rest
  }

  /** A string that precedes every element of a strictly ascending list
      starts a strictly ascending list. */
  lemma PrependLeast(m: string, rest: seq<string>)
    requires StrictlyAscending(rest)
    requires forall x :: x in rest ==> Le(m, x) && x != m
    ensures StrictlyAscending([m] + rest)
  {
    var r := [m] + rest;
    forall i, j | 0 <= i < j < |r| ensures Le(r[i], r[j]) && r[i] != r[j] {
      assert r[j] == rest[j - 1];
      if i > 0 {
        assert r[i] == rest[i - 1];
      } else {
        assert rest[j - 1] in rest;
      }
    }
  }

  /** `names` lists each key of `m` exactly once. */
  predicate ListsKeys<V>(names: seq<string>, m: map<string, V>) {
    (forall i :: 0 <= i < |names| ==> names[i] in m)
    && (forall k :: k in m ==> k in names)
    && (forall i, j :: 0 <= i < j < |names| ==> names[i] != names[j])
  }

  lemma AscendingListsKeys<V>(m: map<string, V>)
    ensures ListsKeys(Ascending(m.Keys), m)
  {
  }
}
