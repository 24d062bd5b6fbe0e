/** The text normaliser (worker/normalization.py): a strict canonical form, used to decide exact
    matches and therefore auto-pass, and a soft form, used only for similarity scoring. */
module Normalization {
  import opened Builtins

  /** The Unicode tables the normaliser consults, kept abstract: canonical composition (NFC) and
      full case folding. Python's `str.casefold` folds each code point on its own, so folding is
      given per character and applied character by character. */
  datatype UnicodeTables = UnicodeTables(nfc: string -> string, fold: char -> string)

  /** Tables under which composition and folding change nothing. */
  function IdentityTables(): UnicodeTables
  {
    UnicodeTables(s => s, c => [c])
  }

  predicate IsAsciiSpace(c: char)
  {
    c == ' '
  }

  predicate IsLineFeed(c: char)
  {
    c == '\n'
  }

  /** Case folding never maps a character other than CR or LF to text containing CR or LF (true
      of the Unicode case-folding table). */
  ghost predicate FoldKeepsLineBreaksOut(u: UnicodeTables)
  {
    forall c :: c != '\n' && c != '\r' ==> '\n' !in u.fold(c) && '\r' !in u.fold(c)
  }

  /** The single quotation marks U+2018, U+2019, U+201A, U+201B. */
  predicate IsCurlySingleQuote(c: char)
  {
    c == '\U{2018}' || c == '\U{2019}' || c == '\U{201A}' || c == '\U{201B}'
  }

  /** The double quotation marks U+201C, U+201D, U+201E, U+201F. */
  predicate IsCurlyDoubleQuote(c: char)
  {
    c == '\U{201C}' || c == '\U{201D}' || c == '\U{201E}' || c == '\U{201F}'
  }

  predicate IsCurlyQuote(c: char)
  {
    IsCurlySingleQuote(c) || IsCurlyDoubleQuote(c)
  }

  function QuoteToAscii(c: char): char
  {
    if IsCurlySingleQuote(c) then '\'' else if IsCurlyDoubleQuote(c) then '"' else c
  }

  /** `map_quotes_to_ascii`: the eight curly quotation marks become `'` or `"`; every other
      character is kept in place. */
  function MapQuotesToAscii(s: string): (r: string)
    ensures |r| == |s|
    ensures forall k :: 0 <= k < |r| ==> !IsCurlyQuote(r[k])
    ensures forall k :: 0 <= k < |s| && IsCurlySingleQuote(s[k]) ==> r[k] == '\''
    ensures forall k :: 0 <= k < |s| && IsCurlyDoubleQuote(s[k]) ==> r[k] == '"'
    ensures forall k :: 0 <= k < |s| && !IsCurlyQuote(s[k]) ==> r[k] == s[k]
  {
    if |s| == 0 then s else seq(|s|, k requires 0 <= k < |s| => QuoteToAscii(s[k]))
  }

  /** Text without curly quotes is left as it is. */
  lemma MapQuotesIdentity(s: string)
    requires forall k :: 0 <= k < |s| ==> !IsCurlyQuote(s[k])
    ensures MapQuotesToAscii(s) == s
  {
  }

  /** `_rstrip_ascii_space_only`: the longest prefix of `text` that does not end in U+0020; what
      is cut off is spaces only, so tabs, NBSP and other whitespace stay. */
  method RstripAsciiSpaceOnly(text: string) returns (r: string)
    ensures r <= text
    ensures forall k :: |r| <= k < |text| ==> text[k] == ' '
    ensures r == [] || r[|r| - 1] != ' '
    ensures r == TrimEnd(text, IsAsciiSpace)
  {
    var i := |text|;
    while i > 0 && text[i - 1] == ' '
      invariant 0 <= i <= |text|
      invariant forall k :: i <= k < |text| ==> text[k] == ' '
    {
      i := i - 1;
    }
    r := text[..i];
    TrimEndUnique(text, IsAsciiSpace, i);
  }

  /** Length of the match of `[ ]*\n+[ ]*` at the start of `s`, or 0 when the spaces at its
      start are not followed by a line feed. */
  function NewlineRunAt(s: string): (l: nat)
    ensures l <= |s|
    ensures l == 0 && |s| > 0 ==> s[0] != '\n'
  {
    var j := PrefixLen(s, IsAsciiSpace);
    if j < |s| && s[j] == '\n' then
      var k := j + PrefixLen(s[j..], IsLineFeed);
      k + PrefixLen(s[k..], IsAsciiSpace)
    else 0
  }

  /** `s[..j]` is spaces, `s[j..k]` one or more line feeds and `s[k..l]` spaces, with neither of
      the last two parts extendable: the leftmost-longest match of `[ ]*\n+[ ]*` at the start. */
  predicate NewlineRunParts(s: string, j: nat, k: nat, l: nat)
  {
    && j < k <= l <= |s|
    && (forall i :: 0 <= i < j ==> IsAsciiSpace(s[i]))
    && (forall i :: j <= i < k ==> IsLineFeed(s[i]))
    && (forall i :: k <= i < l ==> IsAsciiSpace(s[i]))
    && (k == |s| || !IsLineFeed(s[k]))
    && (l == |s| || !IsAsciiSpace(s[l]))
  }

  /** The run found is that match; and there is none exactly when a character other than a space
      comes before every line feed. */
  lemma NewlineRunShape(s: string)
    ensures NewlineRunAt(s) > 0 ==> exists j, k :: NewlineRunParts(s, j, k, NewlineRunAt(s))
    ensures NewlineRunAt(s) == 0 ==>
      forall j :: 0 <= j < |s| && s[j] == '\n' ==> exists i :: 0 <= i < j && s[i] != ' '
  {
    var j := PrefixLen(s, IsAsciiSpace);
    if j < |s| && s[j] == '\n' {
      NewlineRunFound(s, j);
    } else {
      assert NewlineRunAt(s) == 0;
      forall j' | 0 <= j' < |s| && s[j'] == '\n'
        ensures exists i :: 0 <= i < j' && s[i] != ' '
      {
        assert j < j' && s[j] != ' ';
      }
    }
  }

  /** The run found holds a line feed and nothing but spaces and line feeds, and cannot be
      extended by a space. */
  lemma NewlineRunCovers(s: string)
    ensures var l := NewlineRunAt(s);
      l > 0 ==> && '\n' in s[..l]
                && (forall k :: 0 <= k < l ==> s[k] == ' ' || s[k] == '\n')
                && (l == |s| || s[l] != ' ')
  {
    var l := NewlineRunAt(s);
    var j := PrefixLen(s, IsAsciiSpace);
    if j < |s| && s[j] == '\n' {
      var k := j + PrefixLen(s[j..], IsLineFeed);
      NewlineRunFound(s, j);
      assert s[..l][j] == '\n';
      forall i | 0 <= i < l
        ensures s[i] == ' ' || s[i] == '\n'
      {
        if i < j {
          assert IsAsciiSpace(s[i]);
        } else if i < k {
          assert IsLineFeed(s[i]);
        } else {
          assert IsAsciiSpace(s[i]);
        }
      }
      assert l == |s| || !IsAsciiSpace(s[l]);
    }
  }

  /** When the leading spaces end at a line feed, the run found splits into its three parts. */
  lemma NewlineRunFound(s: string, j: nat)
    requires j == PrefixLen(s, IsAsciiSpace) && j < |s| && s[j] == '\n'
    ensures NewlineRunParts(s, j, j + PrefixLen(s[j..], IsLineFeed), NewlineRunAt(s))
  {
    var k := j + PrefixLen(s[j..], IsLineFeed);
    NewlineRunAtFound(s, j, k);
    NewlineRunSplits(s, j, k, NewlineRunAt(s));
  }

  /** The length found when the leading spaces end at a line feed. */
  lemma NewlineRunAtFound(s: string, j: nat, k: nat)
    requires j == PrefixLen(s, IsAsciiSpace) && j < |s| && s[j] == '\n'
    requires k == j + PrefixLen(s[j..], IsLineFeed)
    ensures NewlineRunAt(s) == k + PrefixLen(s[k..], IsAsciiSpace)
  { }

  /** No run when the leading spaces do not end at a line feed. */
  lemma NewlineRunAtNone(s: string, j: nat)
    requires j == PrefixLen(s, IsAsciiSpace) && !(j < |s| && s[j] == '\n')
    ensures NewlineRunAt(s) == 0
  { }

  /** Spaces up to `j`, line feeds from `j` on, then spaces: the three parts of a run. */
  lemma NewlineRunSplits(s: string, j: nat, k: nat, l: nat)
    requires j == PrefixLen(s, IsAsciiSpace) && j < |s| && s[j] == '\n'
    requires k == j + PrefixLen(s[j..], IsLineFeed) && k <= |s|
    requires l == k + PrefixLen(s[k..], IsAsciiSpace)
    ensures NewlineRunParts(s, j, k, l)
  {
    PrefixLenFrom(s, IsLineFeed, j);
    PrefixLenFrom(s, IsAsciiSpace, k);
  }

  /** `re.sub("[ ]*\n+[ ]*", " ", s)`: each run of line feeds, together with the ASCII spaces
      directly before and after it, becomes one space; everything else is copied. */
  function CollapseNewlines(s: string): (r: string)
    ensures '\n' !in r
    ensures |r| <= |s|
    decreases |s|
  {
    if |s| == 0 then ""
    else
      var l := NewlineRunAt(s);
      if l > 0 then " " + CollapseNewlines(s[l..]) else [s[0]] + CollapseNewlines(s[1..])
  }

  /** A run that starts in a text ending in neither a space nor a line feed ends inside it, so
      what follows the text does not change it. */
  lemma NewlineRunAppend(a: string, b: string)
    requires |a| > 0 && a[|a| - 1] != ' ' && a[|a| - 1] != '\n'
    ensures NewlineRunAt(a + b) == NewlineRunAt(a) < |a|
  {
    var s := a + b;
    PrefixLenStops(a, IsAsciiSpace);
    PrefixLenAppend(a, b, IsAsciiSpace);
    var j := PrefixLen(a, IsAsciiSpace);
    assert s[j] == a[j];
    if a[j] == '\n' {
      PrefixLenFromAppend(a, b, IsLineFeed, j);
      var k := j + PrefixLen(a[j..], IsLineFeed);
      PrefixLenFromAppend(a, b, IsAsciiSpace, k);
      NewlineRunAtFound(a, j, k);
      NewlineRunAtFound(s, j, k);
    } else {
      NewlineRunAtNone(a, j);
      NewlineRunAtNone(s, j);
    }
  }

  /** Collapsing distributes over a cut after a character that is neither a space nor a line
      feed: no run of spaces and line feeds spans the cut. */
  lemma {:induction false} CollapseNewlinesAppend(a: string, b: string)
    requires |a| > 0 && a[|a| - 1] != ' ' && a[|a| - 1] != '\n'
    ensures CollapseNewlines(a + b) == CollapseNewlines(a) + CollapseNewlines(b)
    decreases |a|
  {
    var h, rest := CollapseNewlinesFirstAppend(a, b);
    if |rest| > 0 {
      CollapseNewlinesAppend(rest, b);
      JoinSteps([h], CollapseNewlines(a + b), CollapseNewlines(a), CollapseNewlines(rest + b),
        CollapseNewlines(rest), CollapseNewlines(b));
    }
  }

  /** Putting one step and the rest together: if both texts start with `h` and their rests
      differ by `z` at the end, so do the texts. */
  lemma JoinSteps(h: string, xz: string, x: string, yz: string, y: string, z: string)
    requires xz == h + yz && x == h + y && yz == y + z
    ensures xz == x + z
  {
    StringAssoc(h, y, z);
  }

  /** The first step of collapsing `a + b` is the one of `a`, under the same condition on `a`;
      what is left of `a` keeps its last character. */
  lemma CollapseNewlinesFirstAppend(a: string, b: string) returns (h: char, rest: string)
    requires |a| > 0 && a[|a| - 1] != ' ' && a[|a| - 1] != '\n'
    ensures |rest| < |a|
    ensures CollapseNewlines(a + b) == [h] + CollapseNewlines(rest + b)
    ensures CollapseNewlines(a) == [h] + CollapseNewlines(rest)
    ensures |rest| > 0 ==> rest[|rest| - 1] == a[|a| - 1]
    ensures |rest| == 0 ==> CollapseNewlines(a + b) == CollapseNewlines(a) + CollapseNewlines(b)
  {
    NewlineRunAppend(a, b);
    var l := NewlineRunAt(a);
    var i := if l > 0 then l else 1;
    h := if l > 0 then ' ' else a[0];
    rest := a[i..];
    SliceAppend(a, b, i);
    assert (a + b)[0] == a[0];
    CollapseNewlinesAt(a + b, rest + b);
    CollapseNewlinesAt(a, rest);
    if i == |a| {
      CollapseNewlinesLastStep(a, b, i, h);
    }
  }

  /** When the first step takes all of `a`, what is left of `a + b` is `b`. */
  lemma CollapseNewlinesLastStep(a: string, b: string, i: nat, h: char)
    requires i == |a|
    requires CollapseNewlines(a + b) == [h] + CollapseNewlines(a[i..] + b)
    requires CollapseNewlines(a) == [h] + CollapseNewlines(a[i..])
    ensures CollapseNewlines(a + b) == CollapseNewlines(a) + CollapseNewlines(b)
  {
    assert a[i..] == [] && a[i..] + b == b;
  }

  /** One step of collapsing: a run becomes a space, any other character is copied. */
  lemma CollapseNewlinesStep(s: string)
    requires |s| > 0
    ensures CollapseNewlines(s) ==
      if NewlineRunAt(s) > 0 then " " + CollapseNewlines(s[NewlineRunAt(s)..])
      else [s[0]] + CollapseNewlines(s[1..])
  {
  }

  /** Cutting `a + b` at `i <= |a|` leaves the rest of `a`, with its last character, before `b`. */
  lemma SliceAppend(a: string, b: string, i: nat)
    requires 0 < i <= |a|
    ensures (a + b)[i..] == a[i..] + b
    ensures i < |a| ==> |a[i..]| > 0 && a[i..][|a[i..]| - 1] == a[|a| - 1]
  {
  }

  /** Concatenation of texts is associative. */
  lemma StringAssoc(x: string, y: string, z: string)
    ensures x + (y + z) == (x + y) + z
  {
  }

  /** Each run is replaced on its own: a line feed, a space and a line feed between two other
      characters give two spaces, because the first run cannot take the second line feed after
      its spaces. */
  lemma CollapseNewlinesTwoRuns(x: char, y: char)
    requires x != ' ' && x != '\n' && y != ' ' && y != '\n'
    ensures CollapseNewlines([x, '\n', ' ', '\n', y]) == [x, ' ', ' ', y]
  {
    var s, t, u, v := [x, '\n', ' ', '\n', y], ['\n', ' ', '\n', y], ['\n', y], [y];
    TwoRunsLengths(x, y);
    CollapseNewlinesAt(v, []);
    CollapseNewlinesAt(u, v);
    CollapseNewlinesAt(t, u);
    CollapseNewlinesAt(s, t);
    TwoRunsJoin(x, y, CollapseNewlines(s), CollapseNewlines(t), CollapseNewlines(u),
      CollapseNewlines(v), CollapseNewlines([]));
  }

  /** The pieces of the collapsed text put together. */
  lemma TwoRunsJoin(x: char, y: char, cs: string, ct: string, cu: string, cv: string, ce: string)
    requires cs == [x] + ct && ct == [' '] + cu && cu == [' '] + cv && cv == [y] + ce && ce == []
    ensures cs == [x, ' ', ' ', y]
  {
  }

  /** One step of collapsing, given where the rest starts. */
  lemma CollapseNewlinesAt(s: string, rest: string)
    requires |s| > 0
    requires NewlineRunAt(s) > 0 ==> s[NewlineRunAt(s)..] == rest
    requires NewlineRunAt(s) == 0 ==> s[1..] == rest
    ensures CollapseNewlines(s) == (if NewlineRunAt(s) > 0 then [' '] else [s[0]]) + CollapseNewlines(rest)
  {
  }

  /** The runs of that text: none at the first character, a line feed and a space, a line feed
      alone, none at the last character. */
  lemma TwoRunsLengths(x: char, y: char)
    requires x != ' ' && x != '\n' && y != ' ' && y != '\n'
    ensures var s := [x, '\n', ' ', '\n', y]; NewlineRunAt(s) == 0 && s[1..] == ['\n', ' ', '\n', y]
    ensures var t := ['\n', ' ', '\n', y]; NewlineRunAt(t) == 2 && t[2..] == ['\n', y]
    ensures var u := ['\n', y]; NewlineRunAt(u) == 1 && u[1..] == [y]
    ensures NewlineRunAt([y]) == 0
  {
    var s, t, u, v := [x, '\n', ' ', '\n', y], ['\n', ' ', '\n', y], ['\n', y], [y];
    assert PrefixLen(s, IsAsciiSpace) == 0;
    assert PrefixLen(t, IsAsciiSpace) == 0 && PrefixLen(t[0..], IsLineFeed) == 1;
    assert t[1..][0] == ' ' && t[1..][1] == '\n';
    assert PrefixLen(t[1..], IsAsciiSpace) == 1;
    assert PrefixLen(u, IsAsciiSpace) == 0 && PrefixLen(u[0..], IsLineFeed) == 1;
    assert PrefixLen(u[1..], IsAsciiSpace) == 0;
    assert PrefixLen(v, IsAsciiSpace) == 0;
  }

  /** `"a\n \nb"` collapses to `"a  b"`. */
  lemma CollapseNewlinesTwoRunsExample(s: string)
    requires s == "a\n \nb"
    ensures CollapseNewlines(s) == "a  b"
  {
    CollapseNewlinesTwoRuns('a', 'b');
    assert s == ['a', '\n', ' ', '\n', 'b'];
    assert "a  b" == ['a', ' ', ' ', 'b'];
  }

  /** Without line feeds there is nothing to collapse. */
  lemma {:induction false} CollapseNewlinesIdentity(s: string)
    requires '\n' !in s
    ensures CollapseNewlines(s) == s
    decreases |s|
  {
    if |s| > 0 {
      CollapseNewlinesIdentity(s[1..]);
    }
  }

  /** Collapsing introduces no character other than a space. */
  lemma {:induction false} CollapseNewlinesKeepsOut(s: string, c: char)
    requires c != ' ' && c !in s
    ensures c !in CollapseNewlines(s)
    decreases |s|
  {
    if |s| > 0 {
      var l := NewlineRunAt(s);
      if l > 0 {
        assert forall x :: x in s[l..] ==> x in s;
        CollapseNewlinesKeepsOut(s[l..], c);
      } else {
        assert forall x :: x in s[1..] ==> x in s;
        CollapseNewlinesKeepsOut(s[1..], c);
      }
    }
  }

  /** Text that ends in a line feed collapses to text that ends in a space. */
  lemma {:induction false} CollapseNewlinesEndsInSpace(s: string)
    requires |s| > 0 && s[|s| - 1] == '\n'
    ensures |CollapseNewlines(s)| > 0 && CollapseNewlines(s)[|CollapseNewlines(s)| - 1] == ' '
    decreases |s|
  {
    var i, h := CollapseNewlinesFirst(s);
    if i < |s| {
      var rest := s[i..];
      assert rest[|rest| - 1] == s[|s| - 1];
      CollapseNewlinesEndsInSpace(rest);
      LastOfAppend([h], CollapseNewlines(rest));
    } else {
      assert s[i..] == [];
    }
  }

  /** The first character of the collapsed text, and where the rest of the text starts; a run
      reaching the end of a text ending in a line feed gives a space. */
  lemma CollapseNewlinesFirst(s: string) returns (i: nat, h: char)
    requires |s| > 0
    ensures 0 < i <= |s| && CollapseNewlines(s) == [h] + CollapseNewlines(s[i..])
    ensures i == |s| && s[|s| - 1] == '\n' ==> h == ' '
  {
    CollapseNewlinesStep(s);
    if NewlineRunAt(s) > 0 {
      i, h := NewlineRunAt(s), ' ';
    } else {
      i, h := 1, s[0];
    }
  }

  /** Appending a non-empty text keeps its last character last. */
  lemma LastOfAppend(h: string, t: string)
    requires |t| > 0
    ensures |h + t| > 0 && (h + t)[|h + t| - 1] == t[|t| - 1]
  { }

  /** `str.casefold` as the per-character folding applied left to right. */
  function CaseFold(fold: char -> string, s: string): (r: string)
    ensures forall c :: c in r ==> exists k :: 0 <= k < |s| && c in fold(s[k])
    decreases |s|
  {
    if |s| == 0 then "" else CaseFold(fold, s[..|s| - 1]) + fold(s[|s| - 1])
  }

  lemma {:induction false} CaseFoldKeepsLineBreaksOut(u: UnicodeTables, s: string)
    requires FoldKeepsLineBreaksOut(u)
    requires '\n' !in s && '\r' !in s
    ensures '\n' !in CaseFold(u.fold, s) && '\r' !in CaseFold(u.fold, s)
    decreases |s|
  {
    if |s| > 0 {
      CaseFoldKeepsLineBreaksOut(u, s[..|s| - 1]);
      assert s[|s| - 1] in s;
    }
  }

  lemma {:induction false} CaseFoldIdentity(fold: char -> string, s: string)
    requires forall c :: c in s ==> fold(c) == [c]
    ensures CaseFold(fold, s) == s
    decreases |s|
  {
    if |s| > 0 {
      assert s[|s| - 1] in s;
      CaseFoldIdentity(fold, s[..|s| - 1]);
    }
  }

  /** `normalize_strict`: NFC, strip trailing ASCII spaces, CRLF and then CR to LF, collapse
      line-feed runs with their surrounding spaces to one space, case-fold, straighten quotes, in
      exactly that order. An absent text normalises to the empty string. */
  function NormalizeStrict(u: UnicodeTables, text: Option<string>): (r: string)
    ensures text.None? ==> r == ""
    ensures forall k :: 0 <= k < |r| ==> !IsCurlyQuote(r[k])
  {
    match text
    case None => ""
    case Some(t) =>
      var composed := u.nfc(t);
      var trimmed := TrimEnd(composed, IsAsciiSpace);
      var unixLines := Replace(Replace(trimmed, "\r\n", "\n"), "\r", "\n");
      var joined := CollapseNewlines(unixLines);
      MapQuotesToAscii(CaseFold(u.fold, joined))
  }

  /** The strict form holds neither carriage returns nor line feeds. */
  lemma StrictHasNoLineBreaks(u: UnicodeTables, text: Option<string>)
    requires FoldKeepsLineBreaksOut(u)
    ensures '\n' !in NormalizeStrict(u, text) && '\r' !in NormalizeStrict(u, text)
  {
    if text.Some? {
      var trimmed := TrimEnd(u.nfc(text.value), IsAsciiSpace);
      var crlf := Replace(trimmed, "\r\n", "\n");
      var unixLines := Replace(crlf, "\r", "\n");
      ReplaceRemovesChar(crlf, "\r", "\n");
      var joined := CollapseNewlines(unixLines);
      CollapseNewlinesKeepsOut(unixLines, '\r');
      CaseFoldKeepsLineBreaksOut(u, joined);
      var folded := CaseFold(u.fold, joined);
      var r := MapQuotesToAscii(folded);
      assert forall k :: 0 <= k < |r| ==> r[k] == folded[k] || r[k] == '\'' || r[k] == '"';
    }
  }

  /** Strict normalisation leaves alone text that composition and folding do not change and that
      has no CR, no LF, no curly quote and no trailing space: in particular it never touches a run
      of ASCII spaces away from line feeds and the end of the text. */
  lemma StrictIdentity(u: UnicodeTables, x: string)
    requires u.nfc(x) == x
    requires forall c :: c in x ==> u.fold(c) == [c]
    requires '\n' !in x && '\r' !in x
    requires forall k :: 0 <= k < |x| ==> !IsCurlyQuote(x[k])
    requires x == [] || x[|x| - 1] != ' '
    ensures NormalizeStrict(u, Some(x)) == x
  {
    TrimEndUnique(x, IsAsciiSpace, |x|);
    StrictFromTrimmed(u, x, x);
  }

  /** The last character of a replacement result is that of the replacement text when the original
      ended in it too. */
  lemma {:induction false} ReplaceKeepsLastChar(s: string, pat: string, rep: string)
    requires |pat| > 0 && |s| > 0 && |rep| > 0 && s[|s| - 1] == rep[|rep| - 1]
    ensures var r := Replace(s, pat, rep); |r| > 0 && r[|r| - 1] == s[|s| - 1]
    decreases |s|
  {
    if pat <= s {
      if |s[|pat|..]| > 0 {
        ReplaceKeepsLastChar(s[|pat|..], pat, rep);
      }
    } else if |s| > 1 {
      ReplaceKeepsLastChar(s[1..], pat, rep);
    }
  }

  /** Trailing spaces are stripped before line feeds are collapsed, so a text whose composed form
      ends in a line feed normalises to one that ends in a space. */
  lemma StrictEndsInSpace(u: UnicodeTables, x: string)
    requires |u.nfc(x)| > 0 && u.nfc(x)[|u.nfc(x)| - 1] == '\n'
    requires u.fold(' ') == " "
    ensures var r := NormalizeStrict(u, Some(x)); |r| > 0 && r[|r| - 1] == ' '
  {
    var composed := u.nfc(x);
    var trimmed := TrimEnd(composed, IsAsciiSpace);
    assert trimmed == composed;
    var crlf := Replace(trimmed, "\r\n", "\n");
    ReplaceKeepsLastChar(trimmed, "\r\n", "\n");
    var unixLines := Replace(crlf, "\r", "\n");
    ReplaceKeepsLastChar(crlf, "\r", "\n");
    CollapseNewlinesEndsInSpace(unixLines);
  }

  /** Splitting off the first character commutes with appending. */
  lemma ConsAppend(x: string, t: string)
    requires |x| > 0
    ensures [x[0]] + (x[1..] + t) == x + t
  {
    assert [x[0]] + x[1..] == x;
  }

  /** No line-feed run starts in front of a text without line feeds that does not end in a
      space, whatever follows it. */
  lemma NoNewlineRunBefore(x: string, tail: string)
    requires '\n' !in x && |x| > 0 && x[|x| - 1] != ' '
    ensures NewlineRunAt(x + tail) == 0
  {
    var s := x + tail;
    var j := PrefixLen(s, IsAsciiSpace);
    assert s[|x| - 1] == x[|x| - 1];
    assert j < |x|;
    assert s[j] == x[j];
  }

  /** A final line feed collapses to a space, and spaces before it go with it. */
  lemma {:induction false} CollapseFinalLineFeed(x: string)
    requires '\n' !in x && (x == [] || x[|x| - 1] != ' ')
    ensures CollapseNewlines(x + "\n") == x + " "
    decreases |x|
  {
    if |x| == 0 {
      var s := "\n";
      assert PrefixLen(s, IsAsciiSpace) == 0;
      assert PrefixLen(s[0..], IsLineFeed) == 1;
      assert NewlineRunAt(s) == 1;
    } else {
      NoNewlineRunBefore(x, "\n");
      var rest := x[1..] + "\n";
      assert (x + "\n")[1..] == rest;
      assert CollapseNewlines(x + "\n") == [x[0]] + CollapseNewlines(rest);
      CollapseFinalLineFeed(x[1..]);
      ConsAppend(x, " ");
    }
  }

  /** After the trailing spaces are gone, text without CR, LF or curly quotes that folding keeps
      is its own strict form. */
  lemma StrictFromTrimmed(u: UnicodeTables, t: string, x: string)
    requires TrimEnd(u.nfc(t), IsAsciiSpace) == x
    requires forall c :: c in x ==> u.fold(c) == [c]
    requires '\n' !in x && '\r' !in x
    requires forall k :: 0 <= k < |x| ==> !IsCurlyQuote(x[k])
    ensures NormalizeStrict(u, Some(t)) == x
  {
    ReplaceAbsent(x, "\r\n", "\n");
    ReplaceAbsent(x, "\r", "\n");
    CollapseNewlinesIdentity(x);
    CaseFoldIdentity(u.fold, x);
  }

  /** Trimming, line-ending conversion and collapsing turn a final line feed into a space. */
  lemma LineStepsFinalLineFeed(x: string)
    requires '\n' !in x && '\r' !in x
    requires x == [] || x[|x| - 1] != ' '
    ensures CollapseNewlines(Replace(Replace(TrimEnd(x + "\n", IsAsciiSpace), "\r\n", "\n"), "\r", "\n"))
            == x + " "
  {
    var lf := x + "\n";
    TrimEndUnique(lf, IsAsciiSpace, |lf|);
    assert lf[..|lf|] == lf;
    assert forall k :: 0 <= k < |x| ==> lf[k] == x[k];
    assert '\r' !in lf;
    ReplaceAbsent(lf, "\r\n", "\n");
    ReplaceAbsent(lf, "\r", "\n");
    CollapseFinalLineFeed(x);
  }

  /** Folding goes character by character, so appending one character appends its folding. */
  lemma CaseFoldAppendChar(fold: char -> string, x: string, c: char)
    ensures CaseFold(fold, x + [c]) == CaseFold(fold, x) + fold(c)
  {
    assert (x + [c])[..|x|] == x;
  }

  /** A space is not a curly quote, so appending one keeps text free of curly quotes. */
  lemma NoQuotesAppendSpace(x: string)
    requires forall k :: 0 <= k < |x| ==> !IsCurlyQuote(x[k])
    ensures forall k :: 0 <= k < |x + " "| ==> !IsCurlyQuote((x + " ")[k])
  {
    var sp := x + " ";
    forall k | 0 <= k < |sp|
      ensures !IsCurlyQuote(sp[k])
    {
      if k < |x| {
        assert sp[k] == x[k];
      } else {
        assert sp[k] == ' ';
      }
    }
  }

  /** Folding and quote mapping keep text they do not touch, with a space appended. */
  lemma FoldStepsAppendSpace(u: UnicodeTables, x: string)
    requires forall c :: c in x ==> u.fold(c) == [c]
    requires u.fold(' ') == " "
    requires forall k :: 0 <= k < |x| ==> !IsCurlyQuote(x[k])
    ensures MapQuotesToAscii(CaseFold(u.fold, x + " ")) == x + " "
  {
    CaseFoldIdentity(u.fold, x);
    CaseFoldAppendChar(u.fold, x, ' ');
    NoQuotesAppendSpace(x);
    MapQuotesIdentity(x + " ");
  }

  /** A text ending in a line feed normalises to one ending in a space in place of it. */
  lemma StrictFinalLineFeed(u: UnicodeTables, x: string)
    requires u.nfc(x + "\n") == x + "\n"
    requires forall c :: c in x ==> u.fold(c) == [c]
    requires u.fold(' ') == " "
    requires '\n' !in x && '\r' !in x
    requires forall k :: 0 <= k < |x| ==> !IsCurlyQuote(x[k])
    requires x == [] || x[|x| - 1] != ' '
    ensures NormalizeStrict(u, Some(x + "\n")) == x + " "
  {
    LineStepsFinalLineFeed(x);
    FoldStepsAppendSpace(u, x);
  }

  /** A trailing ASCII space is stripped. */
  lemma StrictTrailingSpace(u: UnicodeTables, x: string)
    requires u.nfc(x + " ") == x + " "
    requires forall c :: c in x ==> u.fold(c) == [c]
    requires '\n' !in x && '\r' !in x
    requires forall k :: 0 <= k < |x| ==> !IsCurlyQuote(x[k])
    requires x == [] || x[|x| - 1] != ' '
    ensures NormalizeStrict(u, Some(x + " ")) == x
  {
    var sp := x + " ";
    TrimEndUnique(sp, IsAsciiSpace, |x|);
    assert sp[..|x|] == x;
    StrictFromTrimmed(u, sp, x);
  }

  /** Strict normalisation is not idempotent: a text ending in a line feed normalises to one
      ending in a space, and normalising that again strips the space. */
  lemma StrictNotIdempotent(u: UnicodeTables, x: string)
    requires u.nfc(x + "\n") == x + "\n" && u.nfc(x + " ") == x + " "
    requires forall c :: c in x ==> u.fold(c) == [c]
    requires u.fold(' ') == " "
    requires '\n' !in x && '\r' !in x
    requires forall k :: 0 <= k < |x| ==> !IsCurlyQuote(x[k])
    requires x == [] || x[|x| - 1] != ' '
    ensures NormalizeStrict(u, Some(x + "\n")) == x + " "
    ensures NormalizeStrict(u, Some(x + " ")) == x
    ensures NormalizeStrict(u, Some(NormalizeStrict(u, Some(x + "\n")))) != NormalizeStrict(u, Some(x + "\n"))
  {
    StrictFinalLineFeed(u, x);
    StrictTrailingSpace(u, x);
    assert |x| < |x + " "|;
  }

  /** With composition and folding that change nothing, `"a\n"` normalises to `"a "` and that
      normalises to `"a"`. */
  lemma StrictNotIdempotentExample(x: string)
    requires x == "a"
    ensures NormalizeStrict(IdentityTables(), Some(x + "\n")) == x + " "
    ensures NormalizeStrict(IdentityTables(), Some(x + " ")) == x
  {
    StrictNotIdempotent(IdentityTables(), x);
  }

  /** `re.sub("\s+", " ", s)`: each maximal whitespace run becomes one space, the rest is copied. */
  function CollapseWhitespace(s: string): (r: string)
    ensures |r| <= |s|
    ensures |s| > 0 ==> |r| > 0 && (IsSpace(r[0]) <==> IsSpace(s[0]))
    ensures forall k :: 0 <= k < |r| - 1 ==> !(IsSpace(r[k]) && IsSpace(r[k + 1]))
    ensures forall k :: 0 <= k < |r| && IsSpace(r[k]) ==> r[k] == ' '
    ensures |s| > 0 ==> (IsSpace(r[|r| - 1]) <==> IsSpace(s[|s| - 1]))
    decreases |s|
  {
    if |s| == 0 then ""
    else if IsSpace(s[0]) then " " + CollapseWhitespace(s[PrefixLen(s, IsSpace)..])
    else
      var m := PrefixLen(s, IsNotSpace);
      s[..m] + CollapseWhitespace(s[m..])
  }

  /** Collapsing whitespace keeps the words: the whitespace-separated runs are those of the input. */
  lemma {:induction false} CollapseWhitespaceKeepsWords(s: string)
    ensures Runs(CollapseWhitespace(s), IsSpace) == Runs(s, IsSpace)
    decreases |s|
  {
    if |s| > 0 {
      if IsSpace(s[0]) {
        var n := PrefixLen(s, IsSpace);
        CollapseWhitespaceKeepsWords(s[n..]);
        RunsSkipSeparators(s, IsSpace, n);
        RunsAfterSpace(CollapseWhitespace(s[n..]));
      } else {
        var m := PrefixLen(s, IsNotSpace);
        CollapseWhitespaceKeepsWords(s[m..]);
        RunsAfterWord(s, m, CollapseWhitespace(s[m..]));
      }
    }
  }

  lemma RunsAfterSpace(t: string)
    ensures Runs(" " + t, IsSpace) == Runs(t, IsSpace)
  {
    assert (" " + t)[1..] == t;
  }

  lemma RunsAfterWord(s: string, m: nat, t: string)
    requires 0 < m <= |s| && forall k :: 0 <= k < m ==> !IsSpace(s[k])
    requires m == |s| || IsSpace(s[m])
    requires t == [] || IsSpace(t[0])
    requires Runs(t, IsSpace) == Runs(s[m..], IsSpace)
    ensures Runs(s[..m] + t, IsSpace) == Runs(s, IsSpace)
  {
    var a, b := s[..m], s[m..];
    assert forall k :: 0 <= k < m ==> a[k] == s[k];
    assert b != [] ==> b[0] == s[m];
    assert a + b == s;
    RunsReplaceTail(a, b, t);
  }

  /** A word followed by two tails with the same runs has the same runs either way. */
  lemma RunsReplaceTail(a: string, b: string, t: string)
    requires |a| > 0 && forall k :: 0 <= k < |a| ==> !IsSpace(a[k])
    requires b == [] || IsSpace(b[0])
    requires t == [] || IsSpace(t[0])
    requires Runs(t, IsSpace) == Runs(b, IsSpace)
    ensures Runs(a + t, IsSpace) == Runs(a + b, IsSpace)
  {
    RunsConsRun(a, t, IsSpace);
    RunsConsRun(a, b, IsSpace);
  }

  /** `normalize_soft`: the strict form with every whitespace run replaced by one ASCII space, so
      whitespace at either end stays as one space. */
  function NormalizeSoft(u: UnicodeTables, text: Option<string>): (r: string)
    ensures text.None? ==> r == ""
    ensures |r| <= |NormalizeStrict(u, text)|
    ensures forall k :: 0 <= k < |r| - 1 ==> !(IsSpace(r[k]) && IsSpace(r[k + 1]))
    ensures Runs(r, IsSpace) == Runs(NormalizeStrict(u, text), IsSpace)
    ensures forall k :: 0 <= k < |r| && IsSpace(r[k]) ==> r[k] == ' '
    ensures var t := NormalizeStrict(u, text);
      |t| > 0 ==> |r| > 0 && (IsSpace(r[0]) <==> IsSpace(t[0])) && (IsSpace(r[|r| - 1]) <==> IsSpace(t[|t| - 1]))
  {
    CollapseWhitespaceKeepsWords(NormalizeStrict(u, text));
    CollapseWhitespace(NormalizeStrict(u, text))
  }
}
