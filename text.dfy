/**
 * The string operations of Python's `str` that the core relies on: `isspace`,
 * `strip`, `upper`, `replace(c, "")`, `split('\n')`, `sep.join`, `in` on strings,
 * `count`, `startswith` and `str(int)`.
 */
module Text {

  /** Python's `str.isspace()` for one character: the characters `strip()` removes. */
  predicate IsSpace(c: char) {
    var n := c as int;
    (9 <= n <= 13) || (28 <= n <= 32) || n == 0x85 || n == 0xA0 || n == 0x1680
    || (0x2000 <= n <= 0x200A) || n == 0x2028 || n == 0x2029 || n == 0x202F
    || n == 0x205F || n == 0x3000
  }

  /** `str.upper()` on one character; only `a`..`z` are mapped, every other character is kept. */
  function Upper(c: char): (u: char)
    ensures 'a' <= c <= 'z' ==> 'A' <= u <= 'Z'
    ensures !('a' <= c <= 'z') ==> u == c
    ensures !('a' <= u <= 'z')
  {
    if 'a' <= c <= 'z' then (c as int - 32) as char else c
  }

  function UpperString(s: string): (u: string)
    ensures |u| == |s|
    ensures forall i :: 0 <= i < |s| ==> u[i] == Upper(s[i])
  {
    seq(|s|, i requires 0 <= i < |s| => Upper(s[i]))
  }

  /** `s.replace(c, "")`: every occurrence of `c` removed. */
  function Without(s: string, c: char): string {
    if s == [] then []
    else (if s[0] == c then [] else [s[0]]) + Without(s[1..], c)
  }

  /** After `replace(c, "")` no `c` is left, every other character is kept, and the length drops by the count of `c`. */
  lemma {:induction false} WithoutShape(s: string, c: char)
    ensures c !in Without(s, c)
    ensures forall x :: x in Without(s, c) <==> x in s && x != c
    ensures |Without(s, c)| == |s| - Count(s, c)
  {
    if s != [] {
      WithoutShape(s[1..], c);
      assert s == [s[0]] + s[1..];
    }
  }

  lemma {:induction false} WithoutAbsent(s: string, c: char)
    requires c !in s
    ensures Without(s, c) == s
  {
    if s != [] {
      WithoutAbsent(s[1..], c);
      assert s == [s[0]] + s[1..];
    }
  }

  /** `s.count(c)` for a one-character `c`. */
  function Count(s: string, c: char): (n: nat)
    ensures n <= |s|
  {
    if s == [] then 0 else (if s[0] == c then 1 else 0) + Count(s[1..], c)
  }

  lemma {:induction false} CountAppend(s: string, t: string, c: char)
    ensures Count(s + t, c) == Count(s, c) + Count(t, c)
  {
    if s == [] {
      assert s + t == t;
    } else {
      assert (s + t)[1..] == s[1..] + t;
      CountAppend(s[1..], t, c);
    }
  }

  /** Removing one character leaves the count of any other character unchanged. */
  lemma {:induction false} CountWithout(s: string, c: char, d: char)
    requires c != d
    ensures Count(Without(s, c), d) == Count(s, d)
  {
    if s != [] {
      CountWithout(s[1..], c, d);
      CountAppend(if s[0] == c then [] else [s[0]], Without(s[1..], c), d);
    }
  }

  /** Upper-casing does not change how often a non-letter occurs. */
  lemma {:induction false} CountUpper(s: string, c: char)
    requires !('a' <= c <= 'z') && !('A' <= c <= 'Z')
    ensures Count(UpperString(s), c) == Count(s, c)
  {
    if s != [] {
      assert UpperString(s)[1..] == UpperString(s[1..]);
      CountUpper(s[1..], c);
    }
  }

  function TrimStart(s: string): (r: string)
    ensures r != [] ==> !IsSpace(r[0])
  {
    if s != [] && IsSpace(s[0]) then TrimStart(s[1..]) else s
  }

  /** `TrimStart` drops a prefix made of whitespace. */
  lemma {:induction false} TrimStartSpaces(s: string)
    ensures |TrimStart(s)| <= |s| && TrimStart(s) == s[|s| - |TrimStart(s)|..]
    ensures forall i :: 0 <= i < |s| - |TrimStart(s)| ==> IsSpace(s[i])
  {
    if s != [] && IsSpace(s[0]) {
      TrimStartSpaces(s[1..]);
      assert forall i :: 1 <= i < |s| - |TrimStart(s)| ==> s[i] == s[1..][i - 1];
    }
  }

  function TrimEnd(s: string): (r: string)
    ensures r != [] ==> !IsSpace(r[|r| - 1])
  {
    if s != [] && IsSpace(s[|s| - 1]) then TrimEnd(s[..|s| - 1]) else s
  }

  /** `TrimEnd` drops a suffix made of whitespace. */
  lemma {:induction false} TrimEndSpaces(s: string)
    ensures |TrimEnd(s)| <= |s| && TrimEnd(s) == s[..|TrimEnd(s)|]
    ensures forall i :: |TrimEnd(s)| <= i < |s| ==> IsSpace(s[i])
  {
    if s != [] && IsSpace(s[|s| - 1]) {
      TrimEndSpaces(s[..|s| - 1]);
      assert forall i :: |TrimEnd(s)| <= i < |s| - 1 ==> s[i] == s[..|s| - 1][i];
    }
  }

  /** `s.strip()`: leading and trailing whitespace removed. */
  function Strip(s: string): string {
    TrimEnd(TrimStart(s))
  }

  /** Every character is whitespace (or there is none). */
  predicate IsBlank(s: string) {
    forall i :: 0 <= i < |s| ==> IsSpace(s[i])
  }

  /** `not s.strip()` holds exactly when every character of `s` is whitespace. */
  lemma {:induction false} StripEmptyIffBlank(s: string)
    ensures Strip(s) == [] <==> IsBlank(s)
  {
    var t := TrimStart(s);
    TrimStartSpaces(s);
    TrimEndSpaces(t);
    if Strip(s) == [] {
      assert t == [];
    } else {
      var r := Strip(s);
      assert !IsSpace(r[0]);
      assert r[0] == t[0] == s[|s| - |t|];
    }
  }

  /** A string with no whitespace at either end is its own strip. */
  lemma {:induction false} StripUnchanged(s: string)
    requires s != [] ==> !IsSpace(s[0]) && !IsSpace(s[|s| - 1])
    ensures Strip(s) == s
  {
  }

  lemma {:induction false} StripShape(s: string)
    ensures Strip(s) != [] ==> !IsSpace(Strip(s)[0]) && !IsSpace(Strip(s)[|Strip(s)| - 1])
  {
    var t := TrimStart(s);
    var r := TrimEnd(t);
    TrimEndSpaces(t);
    if r != [] {
      assert r[0] == t[0];
    }
  }


  /** Trailing whitespace after a string that does not start with whitespace is dropped by strip. */
  lemma {:induction false} StripTrailingSpace(s: string, c: char)
    requires s != [] && !IsSpace(s[0]) && !IsSpace(s[|s| - 1]) && IsSpace(c)
    ensures Strip(s + [c]) == s
  {
    assert TrimStart(s + [c]) == s + [c];
    assert (s + [c])[..|s + [c]| - 1] == s;
    assert TrimEnd(s) == s;
  }

  /** `s.split(sep)` for a one-character separator; never empty, as in Python. */
  function Split(s: string, sep: char): (parts: seq<string>)
    ensures |parts| >= 1
    ensures forall i :: 0 <= i < |parts| ==> sep !in parts[i]
  {
    if s == [] then [[]]
    else
      var rest := Split(s[1..], sep);
      if s[0] == sep then [[]] + rest
      else [[s[0]] + rest[0]] + rest[1..]
  }

  /** `sep.join(parts)`. */
  function Join(parts: seq<string>, sep: string): string {
    if parts == [] then []
    else if |parts| == 1 then parts[0]
    else parts[0] + sep + Join(parts[1..], sep)
  }

  /** `''.join(parts)`. */
  function Concat(parts: seq<string>): string {
    if parts == [] then [] else parts[0] + Concat(parts[1..])
  }

  lemma {:induction false} ConcatAppend(a: seq<string>, b: seq<string>)
    ensures Concat(a + b) == Concat(a) + Concat(b)
  {
    if a == [] {
      assert a + b == b;
    } else {
      assert (a + b)[1..] == a[1..] + b;
      ConcatAppend(a[1..], b);
    }
  }

  /** Joining the pieces of a split with the same separator gives the string back. */
  lemma {:induction false} JoinSplit(s: string, sep: char)
    ensures Join(Split(s, sep), [sep]) == s
  {
    if s != [] {
      JoinSplit(s[1..], sep);
      var rest := Split(s[1..], sep);
      if s[0] != sep && |rest| > 1 {
        assert rest[1..][..] == rest[1..];
        assert Join(rest, [sep]) == rest[0] + [sep] + Join(rest[1..], [sep]);
      }
    }
  }

  lemma {:induction false} SplitNoSeparator(p: string, sep: char)
    requires sep !in p
    ensures Split(p, sep) == [p]
  {
    if p != [] {
      SplitNoSeparator(p[1..], sep);
      assert [p[0]] + p[1..] == p;
    }
  }

  lemma {:induction false} SplitAtSeparator(p: string, sep: char, t: string)
    requires sep !in p
    ensures Split(p + [sep] + t, sep) == [p] + Split(t, sep)
  {
    if p == [] {
      assert p + [sep] + t == [sep] + t;
      assert ([sep] + t)[1..] == t;
    } else {
      assert (p + [sep] + t)[1..] == p[1..] + [sep] + t;
      SplitAtSeparator(p[1..], sep, t);
      assert [p[0]] + p[1..] == p;
    }
  }

  /** Splitting a join gives the parts back when no part holds the separator. */
  lemma {:induction false} SplitJoin(parts: seq<string>, sep: char)
    requires parts != []
    requires forall i :: 0 <= i < |parts| ==> sep !in parts[i]
    ensures Split(Join(parts, [sep]), sep) == parts
  {
    if |parts| == 1 {
      SplitNoSeparator(parts[0], sep);
    } else {
      var rest := parts[1..];
      assert forall i :: 0 <= i < |rest| ==> sep !in rest[i] by {
        assert forall i :: 0 <= i < |rest| ==> rest[i] == parts[i + 1];
      }
      var tail := Join(rest, [sep]);
      assert Join(parts, [sep]) == parts[0] + [sep] + tail;
      SplitJoin(rest, sep);
      SplitAtSeparator(parts[0], sep, tail);
      assert [parts[0]] + rest == parts;
    }
  }

  /** A join starts with its first part and ends with its last. */
  lemma {:induction false} JoinEnds(parts: seq<string>, sep: string)
    requires parts != []
    ensures var j := Join(parts, sep); |j| >= |parts[0]| && j[..|parts[0]|] == parts[0]
    ensures var j := Join(parts, sep); var last := parts[|parts| - 1];
            |j| >= |last| && j[|j| - |last|..] == last
  {
    if |parts| > 1 {
      JoinEnds(parts[1..], sep);
    }
  }

  lemma {:induction false} JoinAppendEmpty(parts: seq<string>, sep: string)
    requires parts != []
    ensures Join(parts + [[]], sep) == Join(parts, sep) + sep
  {
    if |parts| == 1 {
      assert (parts + [[]])[1..] == [[]];
    } else {
      assert (parts + [[]])[1..] == parts[1..] + [[]];
      JoinAppendEmpty(parts[1..], sep);
    }
  }

  /** Python's `needle in hay` for strings. */
  predicate Contains(hay: string, needle: string)
    decreases |hay|
  {
    |needle| <= |hay| && (hay[..|needle|] == needle || Contains(hay[1..], needle))
  }

  /** Every character of a contained string occurs in the containing one. */
  lemma {:induction false} ContainsChar(hay: string, needle: string, c: char)
    requires Contains(hay, needle) && c in needle
    ensures c in hay
    decreases |hay|
  {
    if hay[..|needle|] != needle {
      ContainsChar(hay[1..], needle, c);
    }
  }

  /** A string lacking one of the needle's characters does not contain the needle. */
  lemma {:induction false} NotContainsChar(hay: string, needle: string, c: char)
    requires c in needle && c !in hay
    ensures !Contains(hay, needle)
  {
    if Contains(hay, needle) {
      ContainsChar(hay, needle, c);
    }
  }

  lemma {:induction false} ContainsPrefix(needle: string, rest: string)
    ensures Contains(needle + rest, needle)
  {
    assert (needle + rest)[..|needle|] == needle;
  }

  lemma {:induction false} ContainsExtend(p: string, s: string, needle: string)
    requires Contains(s, needle)
    ensures Contains(p + s, needle) && Contains(s + p, needle)
    decreases |p| + |s|
  {
    if p == [] {
      assert p + s == s && s + p == s;
    } else {
      assert (p + s)[1..] == p[1..] + s;
      ContainsExtend(p[1..], s, needle);
    }
    if s[..|needle|] != needle {
      assert (s + p)[1..] == s[1..] + p;
      ContainsExtend(p, s[1..], needle);
    } else {
      assert (s + p)[..|needle|] == needle;
    }
  }

  /** Some position of `s` holds `a` immediately followed by `b`. */
  predicate HasPair(s: string, a: char, b: char) {
    exists i :: 0 <= i < |s| - 1 && s[i] == a && s[i + 1] == b
  }

  /** A string that contains `needle` contains the first two characters of `needle` side by side. */
  lemma {:induction false} ContainsPair(hay: string, needle: string)
    requires |needle| >= 2 && Contains(hay, needle)
    ensures HasPair(hay, needle[0], needle[1])
    decreases |hay|
  {
    if hay[..|needle|] == needle {
      assert hay[0] == needle[0] && hay[1] == needle[1];
    } else {
      ContainsPair(hay[1..], needle);
      var i :| 0 <= i < |hay[1..]| - 1 && hay[1..][i] == needle[0] && hay[1..][i + 1] == needle[1];
      assert hay[i + 1] == needle[0] && hay[i + 2] == needle[1];
    }
  }

  /** A string without the first two characters of `needle` side by side does not contain it. */
  lemma {:induction false} NotContainsPair(hay: string, needle: string)
    requires |needle| >= 2 && !HasPair(hay, needle[0], needle[1])
    ensures !Contains(hay, needle)
  {
    if Contains(hay, needle) {
      ContainsPair(hay, needle);
    }
  }

  /** A pair in a concatenation lies in one part or straddles the seam. */
  lemma {:induction false} PairAppend(s: string, t: string, a: char, b: char)
    requires HasPair(s + t, a, b)
    ensures HasPair(s, a, b) || HasPair(t, a, b) || (s != [] && t != [] && s[|s| - 1] == a && t[0] == b)
  {
    var i :| 0 <= i < |s + t| - 1 && (s + t)[i] == a && (s + t)[i + 1] == b;
    if i + 1 < |s| {
      assert s[i] == a && s[i + 1] == b;
    } else if i >= |s| {
      assert t[i - |s|] == a && t[i - |s| + 1] == b;
    }
  }

  lemma {:induction false} NoPairAppend(s: string, t: string, a: char, b: char)
    requires !HasPair(s, a, b) && !HasPair(t, a, b)
    requires s == [] || t == [] || s[|s| - 1] != a || t[0] != b
    ensures !HasPair(s + t, a, b)
  {
    if HasPair(s + t, a, b) {
      PairAppend(s, t, a, b);
    }
  }

  predicate StartsWith(s: string, c: char) {
    |s| > 0 && s[0] == c
  }

  predicate IsDigit(c: char) {
    '0' <= c <= '9'
  }

  /** `str(n)` for a natural number. */
  function NatToString(n: nat): (s: string)
    ensures |s| >= 1
    ensures forall i :: 0 <= i < |s| ==> IsDigit(s[i])
  {
    var d := (('0' as int) + n % 10) as char;
    if n < 10 then [d] else NatToString(n / 10) + [d]
  }
}
