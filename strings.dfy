/**
 * The JavaScript string operations the upload page relies on: `indexOf`,
 * `includes`, `lastIndexOf`, `split(..).pop()` and the decimal rendering of a
 * number in a template literal. Strings are sequences of characters.
 */
module Strings {

  /** `t` occurs in `s` starting at index `i`. */
  predicate OccursAt(s: string, t: string, i: int) {
    0 <= i && i + |t| <= |s| && s[i..i + |t|] == t
  }

  /** `s.includes(t)`: `t` occurs somewhere in `s`. */
  predicate Contains(s: string, t: string) {
    exists i :: 0 <= i <= |s| && OccursAt(s, t, i)
  }

  /** Moving the start of `s` one character right shifts every occurrence by one. */
  lemma TailOccurrences(s: string, t: string)
    requires |s| > 0
    ensures forall j :: 1 <= j ==> (OccursAt(s, t, j) <==> OccursAt(s[1..], t, j - 1))
  {
    forall j | 1 <= j
      ensures OccursAt(s, t, j) <==> OccursAt(s[1..], t, j - 1)
    {
      if j + |t| <= |s| {
        assert s[1..][j - 1..j - 1 + |t|] == s[j..j + |t|];
      }
    }
  }

  /** `s.indexOf(t)`: the first index where `t` occurs in `s`, or -1 when it does not occur. */
  function IndexOf(s: string, t: string): (r: int)
    ensures r >= 0 ==> OccursAt(s, t, r) && forall j :: 0 <= j < r ==> !OccursAt(s, t, j)
    ensures r < 0 ==> r == -1 && !Contains(s, t)
    decreases |s|
  {
    if |s| < |t| then -1
    else if s[..|t|] == t then 0
    else
      var k := IndexOf(s[1..], t);
      TailOccurrences(s, t);
      if k < 0 then -1 else k + 1
  }

  /** A string cannot contain `t` when one of the characters of `t` is missing from it. */
  lemma MissingCharExcludes(s: string, t: string, k: nat)
    requires k < |t| && t[k] !in s
    ensures !Contains(s, t)
  {
    forall i | 0 <= i <= |s|
      ensures !OccursAt(s, t, i)
    {
      if i + |t| <= |s| {
        assert s[i..i + |t|][k] == s[i + k];
      }
    }
  }

  /** Whatever a prefix of `s` contains, `s` contains too. */
  lemma PrefixContains(s: string, n: nat, t: string)
    requires n <= |s| && Contains(s[..n], t)
    ensures Contains(s, t)
  {
    var i :| 0 <= i <= n && OccursAt(s[..n], t, i);
    assert s[..n][i..i + |t|] == s[i..i + |t|];
    assert OccursAt(s, t, i);
  }

  /** `s.lastIndexOf(c)`: the last index holding `c`, or -1 when `c` is absent. */
  function LastIndexOf(s: string, c: char): (r: int)
    ensures -1 <= r < |s|
    ensures r >= 0 ==> s[r] == c
    ensures forall j :: r < j < |s| ==> s[j] != c
  {
    if |s| == 0 then -1
    else if s[|s| - 1] == c then |s| - 1
    else LastIndexOf(s[..|s| - 1], c)
  }

  /** The three facts in the contract of LastIndexOf pin its result down. */
  lemma LastIndexOfUnique(s: string, c: char, r: int)
    requires -1 <= r < |s|
    requires r >= 0 ==> s[r] == c
    requires forall j :: r < j < |s| ==> s[j] != c
    ensures LastIndexOf(s, c) == r
  {
  }

  /** The last `c` of `a + b` lies in `b` when `b` has one, and otherwise it is the last `c` of `a`. */
  lemma LastIndexOfConcat(a: string, b: string, c: char)
    ensures LastIndexOf(a + b, c)
         == if LastIndexOf(b, c) >= 0 then |a| + LastIndexOf(b, c) else LastIndexOf(a, c)
  {
    var s := a + b;
    var kb, ka := LastIndexOf(b, c), LastIndexOf(a, c);
    if kb >= 0 {
      assert s[|a| + kb] == b[kb];
      forall j | |a| + kb < j < |s| ensures s[j] != c {
        assert s[j] == b[j - |a|];
      }
      LastIndexOfUnique(s, c, |a| + kb);
    } else {
      forall j | ka < j < |s| ensures s[j] != c {
        if j < |a| { assert s[j] == a[j]; } else { assert s[j] == b[j - |a|]; }
      }
      LastIndexOfUnique(s, c, ka);
    }
  }

  /** The inverse of `split`: the parts glued back together with `sep` between them. */
  function Join(parts: seq<string>, sep: char): string
    requires |parts| > 0
  {
    if |parts| == 1 then parts[0]
    else Join(parts[..|parts| - 1], sep) + [sep] + parts[|parts| - 1]
  }

  /** `s.split(sep)` for a one-character separator: the maximal pieces of `s` free of `sep`. */
  function Split(s: string, sep: char): (parts: seq<string>)
    ensures |parts| > 0
    ensures forall k :: 0 <= k < |parts| ==> sep !in parts[k]
    ensures Join(parts, sep) == s
    decreases |s|
  {
    var i := LastIndexOf(s, sep);
    if i < 0 then [s]
    else
      var init := Split(s[..i], sep);
      var parts := init + [s[i + 1..]];
      assert parts[..|init|] == init && parts[|init|] == s[i + 1..];
      assert s == s[..i] + [sep] + s[i + 1..];
      parts
  }

  /** Splitting undoes joining whenever no part holds the separator. */
  lemma {:induction false} SplitJoin(parts: seq<string>, sep: char)
    requires |parts| > 0
    requires forall k :: 0 <= k < |parts| ==> sep !in parts[k]
    ensures Split(Join(parts, sep), sep) == parts
  {
    var last := parts[|parts| - 1];
    LastIndexOfUnique(last, sep, -1);
    if |parts| > 1 {
      var init := parts[..|parts| - 1];
      var head := Join(init, sep);
      var s := Join(parts, sep);
      assert s == (head + [sep]) + last;
      LastIndexOfConcat(head + [sep], last, sep);
      LastIndexOfUnique(head + [sep], sep, |head|);
      assert s[..|head|] == head;
      assert s[|head| + 1..] == last;
      SplitJoin(init, sep);
      assert parts == init + [last];
    }
  }

  /** `xs.pop()` read for its result: the last element. */
  function Last<T>(xs: seq<T>): T
    requires |xs| > 0
  {
    xs[|xs| - 1]
  }

  /** The number of occurrences of `c` in `s`. */
  function Count(s: string, c: char): nat {
    if |s| == 0 then 0
    else Count(s[..|s| - 1], c) + (if s[|s| - 1] == c then 1 else 0)
  }

  /** Occurrences add up over a concatenation. */
  lemma {:induction false} CountConcat(a: string, b: string, c: char)
    ensures Count(a + b, c) == Count(a, c) + Count(b, c)
    decreases |b|
  {
    if |b| > 0 {
      var b' := b[..|b| - 1];
      assert (a + b)[..|a + b| - 1] == a + b';
      CountConcat(a, b', c);
    } else {
      assert a + b == a;
    }
  }

  /** A character that does not occur is counted zero times. */
  lemma {:induction false} CountAbsent(s: string, c: char)
    requires c !in s
    ensures Count(s, c) == 0
  {
    if |s| > 0 {
      CountAbsent(s[..|s| - 1], c);
    }
  }

  /** The decimal digit character for `d`. */
  function DigitChar(d: nat): (ch: char)
    requires d < 10
    ensures '0' <= ch <= '9' && ch as int - '0' as int == d
  {
    (d + '0' as int) as char
  }

  /** `${n}` for a non-negative integer below 10^21 (JavaScript writes larger numbers in exponent
      form; every `Date.now()` value is far below): its decimal digits, most significant first, no
      leading zero. */
  function NumberToString(n: nat): (s: string)
    ensures |s| > 0
    ensures forall k :: 0 <= k < |s| ==> '0' <= s[k] <= '9'
    ensures |s| > 1 ==> s[0] != '0'
  {
    if n < 10 then [DigitChar(n)]
    else NumberToString(n / 10) + [DigitChar(n % 10)]
  }

  /** The value of a string of decimal digits. */
  function DecimalValue(s: string): nat
    requires forall k :: 0 <= k < |s| ==> '0' <= s[k] <= '9'
  {
    if |s| == 0 then 0
    else 10 * DecimalValue(s[..|s| - 1]) + (s[|s| - 1] as int - '0' as int)
  }

  /** Reading the decimal rendering of `n` gives `n` back. */
  lemma {:induction false} DecimalRoundTrip(n: nat)
    ensures DecimalValue(NumberToString(n)) == n
  {
    if n >= 10 {
      var s := NumberToString(n);
      assert s[..|s| - 1] == NumberToString(n / 10);
      DecimalRoundTrip(n / 10);
    }
  }
}
