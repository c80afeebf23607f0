/** Optional values: a regular-expression match that may be absent, a
    session pointer that may be None. */
module Wrappers {
  datatype Option<+T> = None | Some(value: T)
}

/** The character classes and scanning primitives the reply annotator relies
    on: `\d`, `str.strip()`, substring search and `int()` on a digit run. */
module Text {
  import opened Wrappers

  /** `\d`, restricted to the ASCII digits. */
  predicate IsDigit(c: char) {
    '0' <= c <= '9'
  }

  /** What `str.isspace()` accepts within ASCII: tab, line feed, vertical tab,
      form feed, carriage return, the separators 0x1C-0x1F and space. */
  predicate IsSpace(c: char) {
    (9 <= c as int <= 13) || (28 <= c as int <= 32)
  }

  predicate AllDigits(s: string) {
    forall i :: 0 <= i < |s| ==> IsDigit(s[i])
  }

  predicate AllSpace(s: string) {
    forall i :: 0 <= i < |s| ==> IsSpace(s[i])
  }

  /** Neither end of `s` is whitespace. */
  predicate Trimmed(s: string) {
    s == [] || (!IsSpace(s[0]) && !IsSpace(s[|s| - 1]))
  }

  // ----- str.strip() -----

  /** `s` without its leading whitespace. */
  function TrimStart(s: string): (r: string)
    ensures |r| <= |s| && r == s[|s| - |r|..]
    ensures AllSpace(s[..|s| - |r|])
    ensures r == [] || !IsSpace(r[0])
  {
    if s != [] && IsSpace(s[0]) then
      var r := TrimStart(s[1..]);
      assert s[..|s| - |r|] == [s[0]] + s[1..][..|s| - 1 - |r|];
      assert s[1..][|s| - 1 - |r|..] == s[|s| - |r|..];
      r
    else
      s
  }

  /** `s` without its trailing whitespace. */
  function TrimEnd(s: string): (r: string)
    ensures |r| <= |s| && r == s[..|r|]
    ensures AllSpace(s[|r|..])
    ensures r == [] || !IsSpace(r[|r| - 1])
  {
    if s != [] && IsSpace(s[|s| - 1]) then
      var r := TrimEnd(s[..|s| - 1]);
      assert s[|r|..] == s[..|s| - 1][|r|..] + [s[|s| - 1]];
      assert s[..|s| - 1][..|r|] == s[..|r|];
      r
    else
      s
  }

  /** `s.strip()`: the slice of `s` left once whitespace is removed from both
      ends. */
  function Strip(s: string): (r: string)
    ensures Trimmed(r)
    ensures exists a, b :: 0 <= a <= b <= |s| && r == s[a..b] && AllSpace(s[..a]) && AllSpace(s[b..])
  {
    var t := TrimStart(s);
    var r := TrimEnd(t);
    SliceOfSuffix(s, |s| - |t|, r);
    r
  }

  /** A prefix of the suffix of `s` from `a` is a slice of `s`, and what
      follows it in the suffix is what follows it in `s`. */
  lemma SliceOfSuffix(s: string, a: nat, r: string)
    requires a <= |s| && |r| <= |s| - a && r == s[a..][..|r|]
    ensures r == s[a..a + |r|]
    ensures s[a..][|r|..] == s[a + |r|..]
  {
  }

  /** TrimStart is determined by where the first non-whitespace character is. */
  lemma {:induction false} TrimStartOf(s: string, a: nat)
    requires a <= |s| && AllSpace(s[..a])
    requires a == |s| || !IsSpace(s[a])
    ensures TrimStart(s) == s[a..]
  {
    if a > 0 {
      assert s[..a][0] == s[0];
      assert s[1..][..a - 1] == s[1..a];
      TrimStartOf(s[1..], a - 1);
    }
  }

  /** TrimEnd is determined by where the last non-whitespace character is. */
  lemma {:induction false} TrimEndOf(s: string, b: nat)
    requires b <= |s| && AllSpace(s[b..])
    requires b == 0 || !IsSpace(s[b - 1])
    ensures TrimEnd(s) == s[..b]
  {
    if b < |s| {
      assert s[b..][|s| - 1 - b] == s[|s| - 1];
      var s' := s[..|s| - 1];
      assert s'[b..] == s[b..|s| - 1];
      TrimEndOf(s', b);
    }
  }

  /** Strip is determined by its contract: a non-empty trimmed slice of `s`
      with only whitespace outside it is `Strip(s)`. */
  lemma StripUnique(s: string, a: nat, b: nat)
    requires a < b <= |s|
    requires Trimmed(s[a..b]) && AllSpace(s[..a]) && AllSpace(s[b..])
    ensures Strip(s) == s[a..b]
  {
    assert !IsSpace(s[a]) by { assert s[a..b][0] == s[a]; }
    TrimStartOf(s, a);
    TrimEndOfSuffix(s, a, b);
  }

  /** The end half of `StripUnique`, on the suffix from `a`. */
  lemma TrimEndOfSuffix(s: string, a: nat, b: nat)
    requires a < b <= |s|
    requires Trimmed(s[a..b]) && AllSpace(s[b..])
    ensures TrimEnd(s[a..]) == s[a..b]
  {
    var t := s[a..];
    assert t[b - a..] == s[b..];
    assert s[a..b][b - a - 1] == t[b - a - 1];
    TrimEndOf(t, b - a);
    assert t[..b - a] == s[a..b];
  }

  /** Text with no whitespace at either end is left as it is. */
  lemma StripTrimmed(s: string)
    requires Trimmed(s)
    ensures Strip(s) == s
  {
    if s != [] {
      assert s[0..|s|] == s;
      StripUnique(s, 0, |s|);
    } else {
      assert |Strip(s)| <= |s|;
    }
  }

  /** Stripping twice is stripping once. */
  lemma StripIdempotent(s: string)
    ensures Strip(Strip(s)) == Strip(s)
  {
    StripTrimmed(Strip(s));
  }

  // ----- substring search -----

  /** `pat` occurs in `s` at index `i`. */
  predicate OccursAt(s: string, pat: string, i: nat) {
    i + |pat| <= |s| && s[i..i + |pat|] == pat
  }

  /** `i` is the leftmost occurrence of `pat` in `s` at or after `from`. */
  predicate LeftmostFrom(s: string, pat: string, from: nat, i: nat) {
    from <= i && OccursAt(s, pat, i) && forall j: nat :: from <= j < i ==> !OccursAt(s, pat, j)
  }

  /** The index of the leftmost occurrence of `pat` in `s` at or after
      `from`, as `re.search` finds it for a literal pattern. */
  function IndexOf(s: string, pat: string, from: nat): (r: Option<nat>)
    decreases |s| - from
    ensures r.Some? ==> LeftmostFrom(s, pat, from, r.value)
    ensures r.None? ==> forall j: nat :: from <= j ==> !OccursAt(s, pat, j)
  {
    if from + |pat| > |s| then None
    else if OccursAt(s, pat, from) then Some(from)
    else IndexOf(s, pat, from + 1)
  }

  /** An occurrence that ends inside `a` is an occurrence in `a`. */
  lemma OccursInPrefix(a: string, b: string, pat: string, j: nat)
    requires j + |pat| <= |a|
    ensures OccursAt(a + b, pat, j) <==> OccursAt(a, pat, j)
  {
    assert (a + b)[j..j + |pat|] == a[j..j + |pat|];
  }

  /** An occurrence that ends inside `a` is no occurrence in `a + b + c`
      when it is none in `a`. */
  lemma MissedBefore(a: string, b: string, c: string, pat: string, j: nat)
    requires j + |pat| <= |a| && !OccursAt(a, pat, j)
    ensures !OccursAt(a + b + c, pat, j)
  {
    OccursInPrefix(a, b, pat, j);
    OccursInPrefix(a + b, c, pat, j);
  }

  /** An occurrence that starts inside `b` is an occurrence in `b`. */
  lemma OccursInSuffix(a: string, b: string, pat: string, j: nat)
    requires |a| <= j
    ensures OccursAt(a + b, pat, j) <==> OccursAt(b, pat, j - |a|)
  {
    if j + |pat| <= |a + b| {
      assert (a + b)[j..j + |pat|] == b[j - |a|..j - |a| + |pat|];
    }
  }

  /** A pattern cannot occur in text that lacks one of its characters. */
  lemma AbsentChar(s: string, pat: string, k: nat)
    requires k < |pat| && pat[k] !in s
    ensures forall j: nat :: !OccursAt(s, pat, j)
  {
    forall j: nat
      ensures !OccursAt(s, pat, j)
    {
      if j + |pat| <= |s| {
        assert s[j..j + |pat|][k] == s[j + k];
      }
    }
  }

  // ----- digit runs and int() -----

  /** The maximal run of digits in `s` starting at index `i` (what the greedy
      group `(\d+)` captures there). */
  function DigitRun(s: string, i: nat): (r: string)
    requires i <= |s|
    decreases |s| - i
    ensures i + |r| <= |s| && r == s[i..i + |r|]
    ensures AllDigits(r)
    ensures i + |r| == |s| || !IsDigit(s[i + |r|])
  {
    if i < |s| && IsDigit(s[i]) then [s[i]] + DigitRun(s, i + 1) else []
  }

  /** The run is determined by its contract: a digit string followed by the
      end or by a non-digit is the run found at its start. */
  lemma DigitRunOf(pre: string, ds: string, post: string)
    requires AllDigits(ds)
    requires post == [] || !IsDigit(post[0])
    ensures DigitRun(pre + ds + post, |pre|) == ds
  {
    var s := pre + ds + post;
    var i, j := |pre|, |pre| + |ds|;
    assert DigitRun(s, i) == s[i..j] by {
      forall k | i <= k < j
        ensures IsDigit(s[k])
      {
        assert s[k] == ds[k - i];
      }
      if post != [] {
        assert s[j] == post[0];
      }
      DigitRunAt(s, i, j);
    }
    assert s[i..j] == ds;
  }

  /** The run from `i` is `s[i..j]` when `j` is the first index at or after
      `i` that holds no digit, or the end. */
  lemma {:induction false} DigitRunAt(s: string, i: nat, j: nat)
    requires i <= j <= |s|
    requires forall k :: i <= k < j ==> IsDigit(s[k])
    requires j == |s| || !IsDigit(s[j])
    decreases j - i
    ensures DigitRun(s, i) == s[i..j]
  {
    if i < j {
      DigitRunAt(s, i + 1, j);
      assert s[i..j] == [s[i]] + s[i + 1..j];
    }
  }

  function DigitValue(c: char): (d: nat)
    requires IsDigit(c)
    ensures d < 10
  {
    c as int - '0' as int
  }

  function DigitChar(d: nat): (c: char)
    requires d < 10
    ensures IsDigit(c) && DigitValue(c) == d
  {
    ('0' as int + d) as char
  }

  /** `10` to the power `k`. */
  function Pow10(k: nat): (r: nat)
    ensures r >= 1
  {
    if k == 0 then 1 else 10 * Pow10(k - 1)
  }

  /** `int(ds)` for a string of ASCII digits: below `10^|ds|`, and its last
      decimal digit is the last character. */
  function ParseNat(ds: string): (n: nat)
    requires AllDigits(ds)
    ensures n < Pow10(|ds|)
    ensures ds != [] ==> n % 10 == DigitValue(ds[|ds| - 1])
  {
    if ds == [] then 0 else ParseNat(ds[..|ds| - 1]) * 10 + DigitValue(ds[|ds| - 1])
  }

  /** The shortest decimal spelling of `n`, as `str(n)` writes it. */
  function Digits(n: nat): (r: string)
    ensures |r| > 0 && AllDigits(r)
    ensures |r| > 1 ==> r[0] != '0'
  {
    if n < 10 then [DigitChar(n)] else Digits(n / 10) + [DigitChar(n % 10)]
  }

  /** `int(str(n)) == n`. */
  lemma {:induction false} ParseDigits(n: nat)
    ensures ParseNat(Digits(n)) == n
  {
    if n >= 10 {
      var d := Digits(n);
      assert d[..|d| - 1] == Digits(n / 10);
      ParseDigits(n / 10);
    }
  }

  /** `int()` ignores leading zeros: `int("0" + ds) == int(ds)`. */
  lemma {:induction false} ParseLeadingZero(ds: string)
    requires AllDigits(ds)
    ensures ParseNat("0" + ds) == ParseNat(ds)
  {
    if ds != [] {
      var s := "0" + ds;
      assert s[..|s| - 1] == "0" + ds[..|ds| - 1];
      ParseLeadingZero(ds[..|ds| - 1]);
    }
  }
}
