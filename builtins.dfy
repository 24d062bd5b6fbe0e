/** Models of the Python built-ins the matching pipeline relies on: optional values, Unicode
    whitespace, and the `str` operations it calls (`strip`, `rstrip`, `lstrip`, `split`, `join`,
    `replace`, `lower`, `in`, `startswith`, `endswith`, ordering), each stated as a pure function
    over `string` (a `seq<char>` of Unicode scalar values). */
module Builtins {

  datatype Option<+T> = None | Some(value: T)

  /** Python's truthiness of an `Optional[str]`: present and non-empty. */
  predicate Truthy(o: Option<string>)
  {
    o.Some? && o.value != ""
  }

  /** Unicode whitespace as CPython classifies it (`str.isspace`); `str.split()`, `str.strip()` and
      the regular-expression class `\s` use the same table for `str` patterns. */
  predicate IsSpace(c: char)
  {
    ('\t' <= c <= '\r') || ('\U{1C}' <= c <= '\U{1F}') || c == ' ' || c == '\U{85}'
    || c == '\U{A0}' || c == '\U{1680}' || ('\U{2000}' <= c <= '\U{200A}')
    || c == '\U{2028}' || c == '\U{2029}' || c == '\U{202F}' || c == '\U{205F}'
    || c == '\U{3000}'
  }

  predicate IsNotSpace(c: char)
  {
    !IsSpace(c)
  }

  /** Length of the longest prefix of `s` whose characters all satisfy `p`. */
  function PrefixLen(s: string, p: char -> bool): (n: nat)
    ensures n <= |s|
    ensures forall k :: 0 <= k < n ==> p(s[k])
    ensures n == |s| || !p(s[n])
    decreases |s|
  {
    if |s| == 0 || !p(s[0]) then 0 else 1 + PrefixLen(s[1..], p)
  }

  /** The prefix length is determined by its two defining properties. */
  lemma PrefixLenUnique(s: string, p: char -> bool, n: nat)
    requires n <= |s|
    requires forall k :: 0 <= k < n ==> p(s[k])
    requires n == |s| || !p(s[n])
    ensures PrefixLen(s, p) == n
  {
  }

  /** The prefix of `s[j..]` read in `s`: the characters from `j` on satisfy `p`, up to the first
      one that does not. */
  lemma PrefixLenFrom(s: string, p: char -> bool, j: nat)
    requires j <= |s|
    ensures var n := PrefixLen(s[j..], p);
      j + n <= |s| && (forall i :: j <= i < j + n ==> p(s[i])) && (j + n == |s| || !p(s[j + n]))
  {
    var n := PrefixLen(s[j..], p);
    assert forall i :: j <= i < j + n ==> s[j..][i - j] == s[i];
    assert j + n < |s| ==> s[j..][n] == s[j + n];
  }

  /** A prefix that stops inside `x` is not changed by what follows `x`. */
  lemma PrefixLenAppend(x: string, y: string, p: char -> bool)
    requires PrefixLen(x, p) < |x|
    ensures PrefixLen(x + y, p) == PrefixLen(x, p)
  {
    var n := PrefixLen(x, p);
    assert forall k :: 0 <= k <= n ==> (x + y)[k] == x[k];
    PrefixLenUnique(x + y, p, n);
  }

  /** From `j` on, a prefix of a text whose last character fails `p` stops inside that text,
      whatever follows it. */
  lemma PrefixLenFromAppend(a: string, b: string, p: char -> bool, j: nat)
    requires j < |a| && !p(a[|a| - 1])
    ensures (a + b)[j..] == a[j..] + b
    ensures PrefixLen((a + b)[j..], p) == PrefixLen(a[j..], p) < |a| - j
  {
    var x := a[j..];
    assert (a + b)[j..] == x + b;
    assert x[|x| - 1] == a[|a| - 1];
    PrefixLenStops(x, p);
    PrefixLenAppend(x, b, p);
  }

  /** A text whose last character fails `p` has a prefix shorter than itself. */
  lemma PrefixLenStops(x: string, p: char -> bool)
    requires |x| > 0 && !p(x[|x| - 1])
    ensures PrefixLen(x, p) < |x|
  {
  }

  /** `s.lstrip(chars)`: drop the leading characters that satisfy `p`. */
  function TrimStart(s: string, p: char -> bool): (r: string)
    ensures |r| <= |s| && r == s[|s| - |r|..]
    ensures forall k :: 0 <= k < |s| - |r| ==> p(s[k])
    ensures r == [] || !p(r[0])
  {
    s[PrefixLen(s, p)..]
  }

  /** `s.rstrip(chars)`: drop the trailing characters that satisfy `p`. */
  function TrimEnd(s: string, p: char -> bool): (r: string)
    ensures r <= s
    ensures forall k :: |r| <= k < |s| ==> p(s[k])
    ensures r == [] || !p(r[|r| - 1])
    decreases |s|
  {
    if |s| > 0 && p(s[|s| - 1]) then TrimEnd(s[..|s| - 1], p) else s
  }

  /** The trimmed text is determined by its defining properties. */
  lemma {:induction false} TrimEndUnique(s: string, p: char -> bool, n: nat)
    requires n <= |s| && forall k :: n <= k < |s| ==> p(s[k])
    requires n == 0 || !p(s[n - 1])
    ensures TrimEnd(s, p) == s[..n]
    decreases |s|
  {
    if |s| > n {
      assert s[..|s| - 1][..n] == s[..n];
      TrimEndUnique(s[..|s| - 1], p, n);
    }
  }

  /** `s.strip()`: drop leading and trailing whitespace. */
  function Strip(s: string): (r: string)
    ensures r == [] || (!IsSpace(r[0]) && !IsSpace(r[|r| - 1]))
    ensures IsSubstring(r, s)
  {
    var t := TrimStart(s, IsSpace);
    var r := TrimEnd(t, IsSpace);
    SubstringAt(r, t, 0);
    SubstringAt(t, s, |s| - |t|);
    SubstringTransitive(r, t, s);
    r
  }

  /** Text without surrounding whitespace is its own strip. */
  lemma StripIdentity(s: string)
    requires s == [] || (!IsSpace(s[0]) && !IsSpace(s[|s| - 1]))
    ensures Strip(s) == s
  {
    PrefixLenUnique(s, IsSpace, 0);
    assert TrimStart(s, IsSpace) == s;
    TrimEndUnique(s, IsSpace, |s|);
  }

  /** Visible ASCII characters at both ends: stripping changes nothing. */
  lemma StripVisible(s: string)
    requires s == [] || ('!' <= s[0] <= '~' && '!' <= s[|s| - 1] <= '~')
    ensures Strip(s) == s
  {
    StripIdentity(s);
  }

  function LowerChar(c: char): char
  {
    if 'A' <= c <= 'Z' then (c as int + 32) as char else c
  }

  /** `s.lower()`, restricted to the ASCII letters (see README, "Left out"). */
  function Lower(s: string): (r: string)
    ensures |r| == |s|
    decreases |s|
  {
    if |s| == 0 then "" else [LowerChar(s[0])] + Lower(s[1..])
  }

  /** Lowering works character by character. */
  lemma {:induction false} LowerAt(s: string, k: nat)
    requires k < |s|
    ensures Lower(s)[k] == LowerChar(s[k])
    decreases k
  {
    if k > 0 {
      LowerAt(s[1..], k - 1);
    }
  }

  lemma {:induction false} LowerAppend(a: string, b: string)
    ensures Lower(a + b) == Lower(a) + Lower(b)
    decreases |a|
  {
    if |a| > 0 {
      assert (a + b)[1..] == a[1..] + b;
      LowerAppend(a[1..], b);
    } else {
      assert a + b == b;
    }
  }

  /** `s.find(c, from)`: the first position at or after `from` holding `c`. */
  function NextIndex(s: string, c: char, from: nat): (r: Option<nat>)
    requires from <= |s|
    ensures r.Some? ==> from <= r.value < |s| && s[r.value] == c
    ensures r.Some? ==> forall k :: from <= k < r.value ==> s[k] != c
    ensures r.None? ==> forall k :: from <= k < |s| ==> s[k] != c
    decreases |s| - from
  {
    if from == |s| then None else if s[from] == c then Some(from) else NextIndex(s, c, from + 1)
  }

  /** Python's `sub in s`. */
  predicate IsSubstring(sub: string, s: string)
    decreases |s|
  {
    sub <= s || (|s| > 0 && IsSubstring(sub, s[1..]))
  }

  lemma {:induction false} SubstringAt(sub: string, s: string, i: nat)
    requires i + |sub| <= |s| && s[i..i + |sub|] == sub
    ensures IsSubstring(sub, s)
  {
    if i > 0 {
      assert s[1..][i - 1..i - 1 + |sub|] == sub;
      SubstringAt(sub, s[1..], i - 1);
    }
  }

  lemma {:induction false} SubstringWitness(sub: string, s: string) returns (i: nat)
    requires IsSubstring(sub, s)
    ensures i + |sub| <= |s| && s[i..i + |sub|] == sub
    decreases |s|
  {
    if sub <= s {
      i := 0;
    } else {
      var j := SubstringWitness(sub, s[1..]);
      i := j + 1;
      assert s[i..i + |sub|] == s[1..][j..j + |sub|];
    }
  }

  lemma SubstringTransitive(a: string, b: string, c: string)
    requires IsSubstring(a, b) && IsSubstring(b, c)
    ensures IsSubstring(a, c)
  {
    var i := SubstringWitness(a, b);
    var j := SubstringWitness(b, c);
    assert forall k :: 0 <= k < |a| ==> c[j + i + k] == c[j..j + |b|][i + k] == a[k];
    assert c[j + i..j + i + |a|] == a;
    SubstringAt(a, c, j + i);
  }

  lemma SubstringOfConcat(a: string, b: string, c: string)
    ensures IsSubstring(b, a + b + c)
  {
    assert (a + b + c)[|a|..|a| + |b|] == b;
    SubstringAt(b, a + b + c, |a|);
  }

  /** `s.endswith(suffix)`. */
  predicate EndsWith(s: string, suffix: string)
  {
    |suffix| <= |s| && s[|s| - |suffix|..] == suffix
  }

  /** `s.replace(pat, rep)`: non-overlapping occurrences, scanned left to right. */
  function Replace(s: string, pat: string, rep: string): string
    requires |pat| > 0
    decreases |s|
  {
    if |s| == 0 then ""
    else if pat <= s then rep + Replace(s[|pat|..], pat, rep)
    else [s[0]] + Replace(s[1..], pat, rep)
  }

  /** Replacing a one-character pattern by text without that character leaves none of it. */
  lemma {:induction false} ReplaceRemovesChar(s: string, pat: string, rep: string)
    requires |pat| == 1 && pat[0] !in rep
    ensures pat[0] !in Replace(s, pat, rep)
    decreases |s|
  {
    if |s| > 0 {
      if pat <= s {
        ReplaceRemovesChar(s[|pat|..], pat, rep);
      } else {
        ReplaceRemovesChar(s[1..], pat, rep);
      }
    }
  }

  /** Replacing never introduces a character found in neither the text nor the replacement. */
  lemma {:induction false} ReplaceKeepsOut(s: string, pat: string, rep: string, c: char)
    requires |pat| > 0 && c !in s && c !in rep
    ensures c !in Replace(s, pat, rep)
    decreases |s|
  {
    if |s| > 0 {
      if pat <= s {
        ReplaceKeepsOut(s[|pat|..], pat, rep, c);
      } else {
        ReplaceKeepsOut(s[1..], pat, rep, c);
      }
    }
  }

  /** A replacement whose pattern starts with a character absent from the text changes nothing. */
  lemma {:induction false} ReplaceAbsent(s: string, pat: string, rep: string)
    requires |pat| > 0 && pat[0] !in s
    ensures Replace(s, pat, rep) == s
    decreases |s|
  {
    if |s| > 0 {
      assert !(pat <= s);
      ReplaceAbsent(s[1..], pat, rep);
    }
  }

  /** `sep.join(parts)`. */
  function Join(sep: string, parts: seq<string>): string
    decreases |parts|
  {
    if |parts| == 0 then ""
    else if |parts| == 1 then parts[0]
    else parts[0] + sep + Join(sep, parts[1..])
  }

  /** `s.split(c)` for a one-character separator: the pieces between separators, empty ones
      included, so that there is always at least one. */
  function SplitOn(s: string, c: char): (parts: seq<string>)
    ensures |parts| >= 1
    ensures forall k :: 0 <= k < |parts| ==> c !in parts[k]
    decreases |s|
  {
    if |s| == 0 then [""]
    else if s[0] == c then [""] + SplitOn(s[1..], c)
    else
      var rest := SplitOn(s[1..], c);
      [[s[0]] + rest[0]] + rest[1..]
  }

  /** Joining the pieces of a split with the separator gives the text back. */
  lemma {:induction false} JoinSplit(s: string, c: char)
    ensures Join([c], SplitOn(s, c)) == s
    decreases |s|
  {
    if |s| > 0 {
      JoinSplit(s[1..], c);
      var rest := SplitOn(s[1..], c);
      if s[0] == c {
        assert SplitOn(s, c)[1..] == rest;
      } else {
        var parts := SplitOn(s, c);
        assert parts[1..] == rest[1..];
        if |rest| > 1 {
          assert Join([c], rest) == rest[0] + [c] + Join([c], rest[1..]);
        }
      }
    }
  }

  /** The non-empty maximal runs of characters outside `sep`, in order: Python's `s.split()` when
      `sep` is whitespace, and `[p for p in re.split("[...]+", s) if p]` for a separator class. */
  function Runs(s: string, sep: char -> bool): (rs: seq<string>)
    ensures forall k :: 0 <= k < |rs| ==> |rs[k]| > 0
    ensures forall k, c :: 0 <= k < |rs| && c in rs[k] ==> !sep(c)
    decreases |s|
  {
    if |s| == 0 then []
    else if sep(s[0]) then Runs(s[1..], sep)
    else
      var n := PrefixLen(s, c => !sep(c));
      [s[..n]] + Runs(s[n..], sep)
  }

  /** Leading separators do not change the runs. */
  lemma {:induction false} RunsSkipSeparators(s: string, sep: char -> bool, n: nat)
    requires n <= |s| && forall k :: 0 <= k < n ==> sep(s[k])
    ensures Runs(s, sep) == Runs(s[n..], sep)
    decreases n
  {
    if n > 0 {
      assert s[1..][n - 1..] == s[n..];
      RunsSkipSeparators(s[1..], sep, n - 1);
    }
  }

  /** A separator-free run followed by a separator (or nothing) is the first run. */
  lemma RunsConsRun(a: string, b: string, sep: char -> bool)
    requires |a| > 0 && forall k :: 0 <= k < |a| ==> !sep(a[k])
    requires b == [] || sep(b[0])
    ensures Runs(a + b, sep) == [a] + Runs(b, sep)
  {
    var s := a + b;
    assert s[0] == a[0];
    PrefixLenUnique(s, c => !sep(c), |a|);
    assert s[..|a|] == a && s[|a|..] == b;
  }

  /** Python's `len(s.split())`. */
  function CountWords(s: string): (n: nat)
    ensures n <= |s|
    ensures n == 0 <==> forall k :: 0 <= k < |s| ==> IsSpace(s[k])
  {
    RunsCount(s, IsSpace);
    |Runs(s, IsSpace)|
  }

  lemma {:induction false} RunsCount(s: string, sep: char -> bool)
    ensures |Runs(s, sep)| <= |s|
    ensures |Runs(s, sep)| == 0 <==> forall k :: 0 <= k < |s| ==> sep(s[k])
    decreases |s|
  {
    if |s| > 0 {
      if sep(s[0]) {
        RunsCount(s[1..], sep);
        assert forall k :: 1 <= k < |s| ==> s[k] == s[1..][k - 1];
      } else {
        var n := PrefixLen(s, c => !sep(c));
        RunsCount(s[n..], sep);
      }
    }
  }

  /** Python's ordering of `str` values: lexicographic by code point, a proper prefix first. */
  predicate LexLe(a: string, b: string)
    decreases |a|
  {
    |a| == 0 || (|b| > 0 && (a[0] < b[0] || (a[0] == b[0] && LexLe(a[1..], b[1..]))))
  }

  lemma {:induction false} LexLeTotal(a: string, b: string)
    ensures LexLe(a, b) || LexLe(b, a)
    decreases |a|
  {
    if |a| > 0 && |b| > 0 && a[0] == b[0] {
      LexLeTotal(a[1..], b[1..]);
    }
  }

  lemma {:induction false} LexLeTransitive(a: string, b: string, c: string)
    requires LexLe(a, b) && LexLe(b, c)
    ensures LexLe(a, c)
    decreases |a|
  {
    if |a| > 0 && a[0] == b[0] && b[0] == c[0] {
      LexLeTransitive(a[1..], b[1..], c[1..]);
    }
  }

  lemma {:induction false} LexLeAntisymmetric(a: string, b: string)
    requires LexLe(a, b) && LexLe(b, a)
    ensures a == b
    decreases |a|
  {
    if |a| > 0 {
      LexLeAntisymmetric(a[1..], b[1..]);
      assert a == [a[0]] + a[1..] && b == [b[0]] + b[1..];
    }
  }

  /** `sorted(paths)[0]`: the least string under Python's ordering. */
  function Smallest(ps: seq<string>): (m: string)
    requires |ps| > 0
    ensures m in ps
    ensures forall p :: p in ps ==> LexLe(m, p)
    decreases |ps|
  {
    if |ps| == 1 then
      LexLeTotal(ps[0], ps[0]);
      ps[0]
    else
      var rest := Smallest(ps[1..]);
      LexLeTotal(ps[0], rest);
      if LexLe(ps[0], rest) then
        LexLeBelowAll(ps[0], rest, ps[1..]);
        LexLeTotal(ps[0], ps[0]);
        assert forall p :: p in ps ==> p == ps[0] || p in ps[1..];
        ps[0]
      else
        rest
  }

  lemma LexLeBelowAll(a: string, m: string, ps: seq<string>)
    requires LexLe(a, m) && forall p :: p in ps ==> LexLe(m, p)
    ensures forall p :: p in ps ==> LexLe(a, p)
  {
    forall p | p in ps ensures LexLe(a, p) {
      LexLeTransitive(a, m, p);
    }
  }
}
