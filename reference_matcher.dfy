/** The reference matcher (shared/reference_matcher.py): scores every section candidate of a
    reference document against an OCR text, filters them by optional section hints, and decides
    which candidate is chosen and whether a person has to confirm the choice. */
module ReferenceMatcher {
  import opened Builtins
  import opened SectionExtractor

  /** A similarity ratio, as `difflib.SequenceMatcher.ratio` returns it. */
  type Ratio = r: real | 0.0 <= r <= 1.0

  /** Below this score difference the two best candidates count as too close to tell apart. */
  const MinDelta: real := 0.05

  /** What `select_best_section` returns. */
  datatype SelectionResult = SelectionResult(
    chosenSection: Option<SectionCandidate>,
    chosenText: string,
    scoreTop1: real,
    scoreTop2: real,
    delta: real,
    warnings: seq<string>,
    manualRequired: bool,
    chosenSectionName: Option<string>,
    chosenSectionNumber: Option<string>)

  // ---------------------------------------------------------------------------------------------
  // Call-to-action brackets and placeholders

  /** The characters of the class `[\[\]<>]`. */
  predicate IsCtaBracket(c: char)
  {
    c == '[' || c == ']' || c == '<' || c == '>'
  }

  /** `_remove_cta_brackets`: every `[`, `]`, `<` and `>` is deleted. */
  function RemoveCtaBrackets(s: string): (r: string)
    ensures |r| <= |s|
    ensures forall k :: 0 <= k < |r| ==> !IsCtaBracket(r[k])
    decreases |s|
  {
    if |s| == 0 then ""
    else (if IsCtaBracket(s[0]) then "" else [s[0]]) + RemoveCtaBrackets(s[1..])
  }

  /** Removal works piecewise, so the characters that stay keep their order. */
  lemma {:induction false} RemoveCtaBracketsAppend(a: string, b: string)
    ensures RemoveCtaBrackets(a + b) == RemoveCtaBrackets(a) + RemoveCtaBrackets(b)
    decreases |a|
  {
    if |a| == 0 {
      assert a + b == b;
    } else {
      assert (a + b)[1..] == a[1..] + b;
      RemoveCtaBracketsAppend(a[1..], b);
    }
  }

  /** Exactly the brackets go: every other character is kept as often as it occurs. */
  lemma {:induction false} RemoveCtaBracketsCounts(s: string)
    ensures forall c :: IsCtaBracket(c) ==> multiset(RemoveCtaBrackets(s))[c] == 0
    ensures forall c :: !IsCtaBracket(c) ==> multiset(RemoveCtaBrackets(s))[c] == multiset(s)[c]
    decreases |s|
  {
    if |s| > 0 {
      RemoveCtaBracketsCounts(s[1..]);
      assert s == [s[0]] + s[1..];
      assert multiset(s) == multiset([s[0]]) + multiset(s[1..]);
    }
  }

  /** Text without brackets is left as it is. */
  lemma {:induction false} RemoveCtaBracketsIdentity(s: string)
    requires forall k :: 0 <= k < |s| ==> !IsCtaBracket(s[k])
    ensures RemoveCtaBrackets(s) == s
    decreases |s|
  {
    if |s| > 0 {
      RemoveCtaBracketsIdentity(s[1..]);
    }
  }

  lemma RemoveCtaBracketsExample()
    ensures RemoveCtaBrackets("[BUY]") == "BUY"
    ensures RemoveCtaBrackets("<a>") == "a"
  {
    assert "[BUY]"[1..] == "BUY]" && "BUY]"[1..] == "UY]" && "UY]"[1..] == "Y]" && "Y]"[1..] == "]";
    assert "<a>"[1..] == "a>" && "a>"[1..] == ">";
  }

  /** The match of `open[^close]+close` from `i` to `j`: at least one character between the two
      delimiters, and none of them the closing one. */
  predicate DelimitedAt(s: string, open: char, close: char, i: nat, j: nat)
  {
    i + 1 < j < |s| && s[i] == open && s[j] == close && forall k :: i < k < j ==> s[k] != close
  }

  /** `re.search` for `open[^close]+close` from position `i` on: at each start position holding
      `open`, the greedy `[^close]+` runs up to the first `close`, which must not be the very next
      character. */
  function SearchDelimited(s: string, open: char, close: char, i: nat): bool
    requires i <= |s|
    decreases |s| - i
  {
    if i == |s| then false
    else
      var here := s[i] == open && match NextIndex(s, close, i + 1)
        case None => false
        case Some(j) => j > i + 1;
      here || SearchDelimited(s, open, close, i + 1)
  }

  /** The search succeeds exactly when some match starts at or after `i`. */
  lemma {:induction false} SearchDelimitedIff(s: string, open: char, close: char, i: nat)
    requires i <= |s|
    ensures SearchDelimited(s, open, close, i) <==>
      exists a: nat, b: nat :: i <= a && DelimitedAt(s, open, close, a, b)
    decreases |s| - i
  {
    if i < |s| {
      SearchDelimitedIff(s, open, close, i + 1);
      var next := NextIndex(s, close, i + 1);
      if s[i] == open && next.Some? && next.value > i + 1 {
        assert DelimitedAt(s, open, close, i, next.value);
      }
      if exists b: nat :: DelimitedAt(s, open, close, i, b) {
        var b: nat :| DelimitedAt(s, open, close, i, b);
        assert next.Some? && next.value == b;
      }
      forall a: nat, b: nat | i <= a && DelimitedAt(s, open, close, a, b)
        ensures a == i || (i + 1 <= a && DelimitedAt(s, open, close, a, b))
      {
      }
    }
  }

  /** Whether `%[^%]+%` or `\[[^\]]+\]` occurs somewhere in the text. */
  ghost predicate HasDelimited(s: string, open: char, close: char)
  {
    exists i: nat, j: nat :: DelimitedAt(s, open, close, i, j)
  }

  /** `_has_placeholder`: the percent pattern is searched first, then the bracket pattern. */
  predicate HasPlaceholder(text: string)
    ensures HasPlaceholder(text) ==> |text| >= 3 && ('%' in text || '[' in text)
  {
    SearchDelimitedIff(text, '%', '%', 0);
    SearchDelimitedIff(text, '[', ']', 0);
    SearchDelimited(text, '%', '%', 0) || SearchDelimited(text, '[', ']', 0)
  }

  /** A placeholder is a `%...%` or a `[...]` with at least one character inside that is not the
      closing delimiter. */
  lemma PlaceholderIff(text: string)
    ensures HasPlaceholder(text) <==> HasDelimited(text, '%', '%') || HasDelimited(text, '[', ']')
  {
    SearchDelimitedIff(text, '%', '%', 0);
    SearchDelimitedIff(text, '[', ']', 0);
  }

  /** Text without `%` and without `[` has no placeholder. */
  lemma NoOpenerNoPlaceholder(text: string)
    requires '%' !in text && '[' !in text
    ensures !HasPlaceholder(text)
  {
    PlaceholderIff(text);
    if HasDelimited(text, '%', '%') {
      assert false;
    }
    if HasDelimited(text, '[', ']') {
      assert false;
    }
  }

  /** A single `%` (as in a percentage) is not a placeholder, and neither is `%%`. */
  lemma PercentSignAlone(a: string, b: string)
    requires '%' !in a && '%' !in b && '[' !in a && '[' !in b
    ensures !HasPlaceholder(a + "%" + b)
    ensures !HasPlaceholder(a + "%%" + b)
  {
    var s := a + "%" + b;
    PlaceholderIff(s);
    assert forall k :: 0 <= k < |s| && s[k] == '%' ==> k == |a| by {
      forall k | 0 <= k < |s| && k != |a|
        ensures s[k] != '%'
      {
        if k < |a| {
          assert s[k] == a[k] && a[k] in a;
        } else {
          assert s[k] == b[k - |a| - 1] && b[k - |a| - 1] in b;
        }
      }
    }
    assert forall k :: 0 <= k < |s| ==> s[k] != '[' by {
      forall k | 0 <= k < |s|
        ensures s[k] != '['
      {
        if k < |a| {
          assert s[k] == a[k] && a[k] in a;
        } else if k > |a| {
          assert s[k] == b[k - |a| - 1] && b[k - |a| - 1] in b;
        }
      }
    }
    var t := a + "%%" + b;
    PlaceholderIff(t);
    assert forall k :: 0 <= k < |t| && t[k] == '%' ==> k == |a| || k == |a| + 1 by {
      forall k | 0 <= k < |t| && k != |a| && k != |a| + 1
        ensures t[k] != '%'
      {
        if k < |a| {
          assert t[k] == a[k] && a[k] in a;
        } else {
          assert t[k] == b[k - |a| - 2] && b[k - |a| - 2] in b;
        }
      }
    }
    assert forall k :: 0 <= k < |t| ==> t[k] != '[' by {
      forall k | 0 <= k < |t|
        ensures t[k] != '['
      {
        if k < |a| {
          assert t[k] == a[k] && a[k] in a;
        } else if k > |a| + 1 {
          assert t[k] == b[k - |a| - 2] && b[k - |a| - 2] in b;
        }
      }
    }
  }

  /** Any character between two percent signs makes a placeholder, whatever the script. */
  lemma PercentPlaceholder(a: string, inner: string, b: string)
    requires |inner| > 0 && '%' !in inner
    ensures HasPlaceholder(a + "%" + inner + "%" + b)
  {
    var s := a + "%" + inner + "%" + b;
    var j := |a| + 1 + |inner|;
    forall k | |a| < k < j
      ensures s[k] != '%'
    {
      assert s[k] == inner[k - |a| - 1] && inner[k - |a| - 1] in inner;
    }
    assert DelimitedAt(s, '%', '%', |a|, j);
    PlaceholderIff(s);
  }

  /** Bracket removal destroys every bracket placeholder, but not a percent one. */
  lemma CleanedHasNoBracketPlaceholder(text: string)
    ensures !HasDelimited(RemoveCtaBrackets(text), '[', ']')
  {
    var r := RemoveCtaBrackets(text);
    if HasDelimited(r, '[', ']') {
      assert false;
    }
  }

  // ---------------------------------------------------------------------------------------------
  // Word and character counts

  /** Python's `len(re.sub(r"\s+", "", s))`: the characters that are not whitespace. */
  function CountNonSpace(s: string): (n: nat)
    ensures n <= |s|
    ensures n == 0 <==> forall k :: 0 <= k < |s| ==> IsSpace(s[k])
    decreases |s|
  {
    if |s| == 0 then 0
    else
      var rest := CountNonSpace(s[1..]);
      assert forall k :: 1 <= k < |s| ==> s[k] == s[1..][k - 1];
      (if IsSpace(s[0]) then 0 else 1) + rest
  }

  /** `_count_chars_no_whitespace`: the characters that are neither whitespace nor a bracket. */
  function CountCharsNoWhitespace(text: string): (n: nat)
    ensures n <= |text|
  {
    CountNonSpace(RemoveCtaBrackets(text))
  }

  /** Only whitespace and brackets give a count of zero. */
  lemma {:induction false} CountCharsZero(text: string)
    ensures CountCharsNoWhitespace(text) == 0 <==>
      forall k :: 0 <= k < |text| ==> IsSpace(text[k]) || IsCtaBracket(text[k])
    decreases |text|
  {
    if |text| > 0 {
      CountCharsZero(text[1..]);
      var head := if IsCtaBracket(text[0]) then "" else [text[0]];
      var tail := RemoveCtaBrackets(text[1..]);
      CountNonSpaceAppend(head, tail);
      assert forall k :: 1 <= k < |text| ==> text[k] == text[1..][k - 1];
    }
  }

  lemma {:induction false} CountNonSpaceAppend(a: string, b: string)
    ensures CountNonSpace(a + b) == CountNonSpace(a) + CountNonSpace(b)
    decreases |a|
  {
    if |a| == 0 {
      assert a + b == b;
    } else {
      assert (a + b)[1..] == a[1..] + b;
      CountNonSpaceAppend(a[1..], b);
    }
  }

  // ---------------------------------------------------------------------------------------------
  // Multipliers

  /** Whether one of the keywords occurs in the text; `kws` lists them in any order. */
  predicate AnyKeywordIn(kws: seq<string>, s: string)
    decreases |kws|
  {
    |kws| > 0 && (IsSubstring(kws[0], s) || AnyKeywordIn(kws[1..], s))
  }

  lemma {:induction false} AnyKeywordInIff(kws: seq<string>, s: string)
    ensures AnyKeywordIn(kws, s) <==> exists k :: k in kws && IsSubstring(k, s)
    decreases |kws|
  {
    if |kws| > 0 {
      AnyKeywordInIff(kws[1..], s);
      assert kws[0] in kws;
      assert forall k :: k in kws[1..] ==> k in kws;
      assert forall k :: k in kws ==> k == kws[0] || k in kws[1..];
    }
  }

  /** The high and low keyword sets, listed in the order `for keyword in ...` happens to visit
      them; membership alone decides the multiplier, so the order does not matter. */
  const HighKeywordList: seq<string> := ["banner", "pic", "im", "popup"]
  const LowKeywordList: seq<string> := ["news", "email", "letter", "subject"]

  lemma KeywordListsAreTheSets()
    ensures forall k :: k in HighKeywordList <==> k in HighPriorityKeywords
    ensures forall k :: k in LowKeywordList <==> k in LowPriorityKeywords
  {
  }

  /** `_get_priority_multiplier`. */
  function PriorityMultiplier(c: SectionCandidate): (m: real)
    ensures m == 1.2 || m == 0.8 || m == 1.0
    ensures !Truthy(c.sectionName) ==> m == 1.0
    ensures m == 1.2 <==> Truthy(c.sectionName) && AnyKeywordIn(HighKeywordList, Lower(c.sectionName.value))
    ensures m == 0.8 <==> Truthy(c.sectionName) && !AnyKeywordIn(HighKeywordList, Lower(c.sectionName.value))
                          && AnyKeywordIn(LowKeywordList, Lower(c.sectionName.value))
  {
    if !Truthy(c.sectionName) then 1.0
    else
      var nameLower := Lower(c.sectionName.value);
      if AnyKeywordIn(HighKeywordList, nameLower) then 1.2
      else if AnyKeywordIn(LowKeywordList, nameLower) then 0.8
      else 1.0
  }

  /** The multiplier is 1.2 exactly when a high keyword occurs in the lower-cased name, 0.8 when
      only a low keyword does, and 1.0 otherwise. */
  lemma PriorityByKeywordSets(c: SectionCandidate)
    requires Truthy(c.sectionName)
    ensures var n := Lower(c.sectionName.value);
      && (PriorityMultiplier(c) == 1.2 <==> exists k :: k in HighPriorityKeywords && IsSubstring(k, n))
      && (PriorityMultiplier(c) == 0.8 <==>
            (forall k :: k in HighPriorityKeywords ==> !IsSubstring(k, n))
            && exists k :: k in LowPriorityKeywords && IsSubstring(k, n))
  {
    var n := Lower(c.sectionName.value);
    AnyKeywordInIff(HighKeywordList, n);
    AnyKeywordInIff(LowKeywordList, n);
  }

  /** A name that starts with "BANNER" or "Banner" gets the high multiplier, whatever follows,
      even when a low keyword follows. */
  lemma HighPriorityExample(c: SectionCandidate, rest: string)
    requires c.sectionName == Some("BANNER" + rest) || c.sectionName == Some("Banner" + rest)
    ensures PriorityMultiplier(c) == 1.2
  {
    var name := c.sectionName.value;
    if name == "BANNER" + rest {
      LowerAppend("BANNER", rest);
    } else {
      LowerAppend("Banner", rest);
    }
    SubstringAt("banner", Lower(name), 0);
  }

  /** A name with a low keyword and no high one gets 0.8. */
  lemma LowPriorityExample(c: SectionCandidate)
    requires c.sectionName == Some("EMAIL")
    ensures PriorityMultiplier(c) == 0.8
  {
    var n := Lower("EMAIL");
    assert n == "email";
    SubstringAt("email", n, 0);
    assert !IsSubstring("banner", n) by { AbsentCharNotSubstring("banner", n, 0); }
    assert !IsSubstring("popup", n) by { AbsentCharNotSubstring("popup", n, 0); }
    assert !IsSubstring("pic", n) by { AbsentCharNotSubstring("pic", n, 0); }
    ImNotInEmail();
  }

  /** `email` does not contain `im`: its only `i` is followed by `l`. */
  lemma ImNotInEmail()
    ensures !IsSubstring("im", "email")
  {
    assert !IsSubstring("im", "");
    assert !("im" <= "l") && "l"[1..] == "";
    assert !IsSubstring("im", "l");
    assert "il"[1] != "im"[1];
    assert !("im" <= "il") && "il"[1..] == "l";
    assert !IsSubstring("im", "il");
    assert "ail"[0] != "im"[0];
    assert !("im" <= "ail") && "ail"[1..] == "il";
    assert !IsSubstring("im", "ail");
    assert "mail"[0] != "im"[0];
    assert !("im" <= "mail") && "mail"[1..] == "ail";
    assert !IsSubstring("im", "mail");
    assert "email"[0] != "im"[0];
    assert !("im" <= "email") && "email"[1..] == "mail";
  }


  /** A text lacking one of a word's characters does not contain the word. */
  lemma AbsentCharNotSubstring(sub: string, s: string, k: nat)
    requires k < |sub| && sub[k] !in s
    ensures !IsSubstring(sub, s)
  {
    if IsSubstring(sub, s) {
      var i := SubstringWitness(sub, s);
      assert false;
    }
  }

  /** `_get_placeholder_multiplier`. */
  function PlaceholderMultiplier(text: string): (m: real)
    ensures m == 0.5 || m == 1.0
    ensures m == 0.5 <==> HasPlaceholder(text)
  {
    if HasPlaceholder(text) then 0.5 else 1.0
  }

  /** The languages whose length is counted in characters rather than words. */
  predicate IsCharCountedLanguage(language: string)
  {
    language == "ja" || language == "zh-Hans"
  }

  /** The length above which a candidate counts as long. */
  function LongThreshold(language: string): nat
  {
    if language == "ja" then 200 else if language == "zh-Hans" then 130 else 50
  }

  /** How long a text is for `language`: characters other than whitespace and brackets for
      Japanese and Simplified Chinese, whitespace-separated words otherwise. */
  function LengthFor(language: string, text: string): nat
  {
    if IsCharCountedLanguage(language) then CountCharsNoWhitespace(text) else CountWords(text)
  }

  /** `_get_length_penalty_multiplier`. */
  function LengthPenaltyMultiplier(c: SectionCandidate, language: string): (m: real)
    ensures m == 0.7 || m == 1.0
    ensures m == 0.7 <==> LengthFor(language, c.contentText) > LongThreshold(language)
  {
    if IsCharCountedLanguage(language) then
      var charCount := CountCharsNoWhitespace(c.contentText);
      var threshold := if language == "ja" then 200 else 130;
      if charCount > threshold then 0.7 else 1.0
    else
      var wordCount := CountWords(c.contentText);
      if wordCount > 50 then 0.7 else 1.0
  }

  /** A shorter text is never penalised more than a longer one. */
  lemma LengthPenaltyMonotone(a: SectionCandidate, b: SectionCandidate, language: string)
    requires LengthFor(language, a.contentText) <= LengthFor(language, b.contentText)
    ensures LengthPenaltyMultiplier(a, language) >= LengthPenaltyMultiplier(b, language)
  {
  }

  /** `_get_length_mismatch_penalty`: the ratio of the smaller to the larger length decides. */
  function LengthMismatchPenalty(ocrLen: nat, candidateLen: nat): (m: real)
    ensures m == 0.6 || m == 0.8 || m == 1.0
    ensures ocrLen == 0 || candidateLen == 0 ==> m == 0.6
  {
    if candidateLen == 0 then 0.6
    else
      var ratio := if candidateLen > ocrLen then ocrLen as real / candidateLen as real
                   else candidateLen as real / ocrLen as real;
      if ratio < 0.3 then 0.6 else if ratio < 0.5 then 0.8 else 1.0
  }

  /** The penalty in integer terms: 1.0 when the smaller length is at least half the larger, 0.6
      when it is below three tenths, 0.8 in between; hence it is symmetric. */
  lemma LengthMismatchByLengths(a: nat, b: nat)
    ensures var lo := if a < b then a else b;
      var hi := if a < b then b else a;
      && (LengthMismatchPenalty(a, b) == 1.0 <==> hi > 0 && 2 * lo >= hi)
      && (LengthMismatchPenalty(a, b) == 0.6 <==> hi == 0 || 10 * lo < 3 * hi)
      && LengthMismatchPenalty(a, b) == LengthMismatchPenalty(b, a)
  {
    var lo := if a < b then a else b;
    var hi := if a < b then b else a;
    if hi > 0 {
      DivLess(lo as real, hi as real, 0.3);
      DivLess(lo as real, hi as real, 0.5);
    }
  }

  /** A quotient by a positive number is below a bound exactly when the dividend is below the
      bound times the divisor. */
  lemma DivLess(a: real, b: real, t: real)
    requires b > 0.0
    ensures a / b < t <==> a < t * b
  {
    var q := a / b;
    assert q * b == a;
    if q < t {
      assert q * b < t * b;
    } else {
      assert q * b >= t * b;
    }
  }

  // ---------------------------------------------------------------------------------------------
  // Scoring

  /** `_compute_similarity`: the ratio `sim` assigns to the two texts. */
  function Similarity(sim: (string, string) -> Ratio, a: string, b: string): (r: real)
    ensures 0.0 <= r <= 1.0
  {
    sim(a, b)
  }

  /** The four multipliers of `_score_candidate` together: priority, placeholder, long-text
      penalty and length mismatch, the lengths measured on the soft forms. */
  function Multipliers(c: SectionCandidate, ocrSoft: string, candidateSoft: string): (m: real)
    ensures 0.0 < m <= 1.2
    ensures HasPlaceholder(c.contentText) ==> m <= 0.6
  {
    var priority := PriorityMultiplier(c);
    var placeholder := PlaceholderMultiplier(c.contentText);
    var lengthPenalty := LengthPenaltyMultiplier(c, c.language);
    var mismatch := LengthMismatchPenalty(LengthFor(c.language, ocrSoft), LengthFor(c.language, candidateSoft));
    MultiplierBounds(priority, placeholder, lengthPenalty, mismatch);
    priority * placeholder * lengthPenalty * mismatch
  }

  lemma MultiplierBounds(p: real, h: real, l: real, m: real)
    requires p == 1.2 || p == 0.8 || p == 1.0
    requires h == 0.5 || h == 1.0
    requires l == 0.7 || l == 1.0
    requires m == 0.6 || m == 0.8 || m == 1.0
    ensures 0.0 < p * h * l * m <= 1.2
    ensures h == 0.5 ==> p * h * l * m <= 0.6
  {
    var ph := p * h;
    assert 0.4 <= ph <= 1.2;
    assert h == 0.5 ==> ph <= 0.6;
    var lm := l * m;
    assert 0.0 < lm <= 1.0;
    assert ph * l * m == ph * lm;
  }

  /** `_score_candidate`: the similarity of the soft forms times the multipliers, capped at 1.0.
      `ocrText` is accepted and not used, as in the original. */
  function ScoreCandidate(sim: (string, string) -> Ratio, ocrText: string, c: SectionCandidate,
                          ocrSoft: string, candidateSoft: string): (score: real)
    ensures 0.0 <= score <= 1.0
    ensures score <= 1.2 * Similarity(sim, ocrSoft, candidateSoft)
    ensures HasPlaceholder(c.contentText) ==> score <= 0.6 * Similarity(sim, ocrSoft, candidateSoft)
  {
    CappedProduct(Similarity(sim, ocrSoft, candidateSoft), Multipliers(c, ocrSoft, candidateSoft))
  }

  /** The similarity times the multipliers, capped at 1.0. */
  function CappedProduct(similarity: real, m: real): (score: real)
    requires 0.0 <= similarity <= 1.0 && 0.0 < m <= 1.2
    ensures 0.0 <= score <= 1.0
    ensures score <= 1.2 * similarity
    ensures m <= 0.6 ==> score <= 0.6 * similarity
  {
    Cap(Scale(similarity, m))
  }

  /** The product of a ratio and a multiplier of at most 1.2. */
  function Scale(s: real, m: real): (p: real)
    requires 0.0 <= s && 0.0 < m <= 1.2
    ensures 0.0 <= p <= 1.2 * s
    ensures m <= 0.6 ==> p <= 0.6 * s
  {
    assert s * (1.2 - m) >= 0.0;
    assert m <= 0.6 ==> s * (0.6 - m) >= 0.0;
    s * m
  }

  /** `min(score, 1.0)`. */
  function Cap(x: real): (r: real)
    ensures r <= x && r <= 1.0
    ensures r == x || r == 1.0
  {
    if x <= 1.0 then x else 1.0
  }

  /** Without any similarity the score is zero. */
  lemma ScoreWithoutSimilarity(sim: (string, string) -> Ratio, ocrText: string, c: SectionCandidate,
                               ocrSoft: string, candidateSoft: string)
    requires Similarity(sim, ocrSoft, candidateSoft) == 0.0
    ensures ScoreCandidate(sim, ocrText, c, ocrSoft, candidateSoft) == 0.0
  {
    var m := Multipliers(c, ocrSoft, candidateSoft);
    assert Similarity(sim, ocrSoft, candidateSoft) * m == 0.0;
  }

  // ---------------------------------------------------------------------------------------------
  // Section hints

  predicate IsCloseParen(c: char) { c == ')' }
  predicate IsZeroDigit(c: char) { c == '0' }
  predicate IsLetterS(c: char) { c == 's' }

  /** `n.strip().rstrip(")").lstrip("0") or "0"`: a section number without surrounding
      whitespace, trailing parentheses or leading zeros. */
  function NormalizeNumber(n: string): (r: string)
    ensures r != []
    ensures r == "0" || r[0] != '0'
  {
    var stripped := TrimStart(TrimEnd(Strip(n), IsCloseParen), IsZeroDigit);
    if stripped == "" then "0" else stripped
  }

  /** "03)" is section "3". */
  lemma NormalizeNumberParenExample(n: string)
    requires n == "03)"
    ensures NormalizeNumber(n) == "3"
  {
    StripVisible(n);
    TrimEndUnique(n, IsCloseParen, 2);
    assert n[..2] == "03";
    PrefixLenUnique("03", IsZeroDigit, 1);
    assert "03"[1..] == "3";
  }

  /** "3" is left as it is. */
  lemma NormalizeNumberPlainExample(n: string)
    requires n == "3"
    ensures NormalizeNumber(n) == "3"
  {
    StripVisible(n);
    TrimEndUnique(n, IsCloseParen, 1);
    PrefixLenUnique(n, IsZeroDigit, 0);
  }

  /** "00" loses all its zeros and becomes section "0". */
  lemma NormalizeNumberZerosExample(n: string)
    requires n == "00"
    ensures NormalizeNumber(n) == "0"
  {
    StripVisible(n);
    TrimEndUnique(n, IsCloseParen, 2);
    PrefixLenUnique(n, IsZeroDigit, 2);
  }

  /** `s.lower().rstrip("s")`, where `lower` stands for `str.lower`. */
  function NormalizeName(lower: string -> string, s: string): (r: string)
    ensures r == [] || r[|r| - 1] != 's'
  {
    TrimEnd(lower(s), IsLetterS)
  }

  /** Whether a candidate satisfies the hints: a given number must equal the candidate's after
      normalisation, and a given name must contain, or be contained in, the candidate's after
      lower-casing and dropping trailing s's. An empty hint is no hint. */
  predicate MatchesHints(c: SectionCandidate, number: Option<string>, name: Option<string>,
                         lower: string -> string)
  {
    && (Truthy(number) ==>
          Truthy(c.sectionNumber) && NormalizeNumber(number.value) == NormalizeNumber(c.sectionNumber.value))
    && (Truthy(name) ==>
          Truthy(c.sectionName)
          && var hint := NormalizeName(lower, name.value);
             var own := NormalizeName(lower, c.sectionName.value);
             IsSubstring(hint, own) || IsSubstring(own, hint))
  }

  /** The candidates that satisfy the hints, in their original order. */
  function Matching(cs: seq<SectionCandidate>, number: Option<string>, name: Option<string>,
                    lower: string -> string): (r: seq<SectionCandidate>)
    ensures |r| <= |cs|
    ensures forall k :: 0 <= k < |r| ==> r[k] in cs && MatchesHints(r[k], number, name, lower)
    decreases |cs|
  {
    if |cs| == 0 then []
    else
      var init := Matching(cs[..|cs| - 1], number, name, lower);
      var last := cs[|cs| - 1];
      assert forall c :: c in cs[..|cs| - 1] ==> c in cs;
      init + (if MatchesHints(last, number, name, lower) then [last] else [])
  }

  /** Filtering works piecewise, so it keeps the order of the candidates. */
  lemma {:induction false} MatchingAppend(a: seq<SectionCandidate>, b: seq<SectionCandidate>,
                                         number: Option<string>, name: Option<string>,
                                         lower: string -> string)
    ensures Matching(a + b, number, name, lower) == Matching(a, number, name, lower) + Matching(b, number, name, lower)
    decreases |b|
  {
    if |b| == 0 {
      assert a + b == a;
    } else {
      assert (a + b)[..|a + b| - 1] == a + b[..|b| - 1];
      MatchingAppend(a, b[..|b| - 1], number, name, lower);
    }
  }

  /** No candidate satisfying the hints is dropped. */
  lemma {:induction false} MatchingComplete(cs: seq<SectionCandidate>, number: Option<string>,
                                           name: Option<string>, lower: string -> string)
    ensures forall c :: c in cs && MatchesHints(c, number, name, lower) ==> c in Matching(cs, number, name, lower)
    decreases |cs|
  {
    if |cs| > 0 {
      MatchingComplete(cs[..|cs| - 1], number, name, lower);
      assert cs == cs[..|cs| - 1] + [cs[|cs| - 1]];
    }
  }

  /** The hints that were given, as `number=…` and `name=…` separated by a space. */
  function HintList(number: Option<string>, name: Option<string>): string
  {
    var numberPart := if Truthy(number) then ["number=" + number.value] else [];
    var namePart := if Truthy(name) then ["name=" + name.value] else [];
    Join(" ", numberPart + namePart)
  }

  /** The warning for hints that match nothing. */
  function HintWarning(number: Option<string>, name: Option<string>): string
  {
    "Section hints (" + HintList(number, name) + ") " + "did not match" + " any candidates"
  }

  lemma HintWarningSaysNoMatch(number: Option<string>, name: Option<string>)
    ensures IsSubstring("did not match", HintWarning(number, name))
  {
    SubstringOfConcat("Section hints (" + HintList(number, name) + ") ", "did not match", " any candidates");
  }

  /** `_filter_by_hints`: the candidates and warnings it returns. */
  function HintFilter(cs: seq<SectionCandidate>, number: Option<string>, name: Option<string>,
                      lower: string -> string): (r: (seq<SectionCandidate>, seq<string>))
    ensures |r.1| <= 1
    ensures !Truthy(number) && !Truthy(name) ==> r == (cs, [])
    ensures |r.0| <= |cs|
    ensures |cs| > 0 ==> |r.0| > 0
  {
    if !Truthy(number) && !Truthy(name) then (cs, [])
    else
      var filtered := Matching(cs, number, name, lower);
      if filtered == [] then (cs, [HintWarning(number, name)]) else (filtered, [])
  }

  /** With a hint, the result is the order-preserving sublist of the candidates that satisfy it,
      unless that is empty: then it is the original list with one warning saying the hints did
      not match. */
  lemma HintFilterOutcome(cs: seq<SectionCandidate>, number: Option<string>, name: Option<string>,
                          lower: string -> string)
    requires Truthy(number) || Truthy(name)
    ensures var r := HintFilter(cs, number, name, lower);
      var m := Matching(cs, number, name, lower);
      && (m != [] ==> r == (m, []))
      && (m == [] ==> r.0 == cs && |r.1| == 1 && IsSubstring("did not match", r.1[0]))
      && (forall c :: c in cs && MatchesHints(c, number, name, lower) ==> c in r.0)
  {
    MatchingComplete(cs, number, name, lower);
    HintWarningSaysNoMatch(number, name);
  }

  /** `_filter_by_hints`. */
  method FilterByHints(candidates: seq<SectionCandidate>, number: Option<string>, name: Option<string>,
                       lower: string -> string)
    returns (filtered: seq<SectionCandidate>, warnings: seq<string>)
    ensures (filtered, warnings) == HintFilter(candidates, number, name, lower)
  {
    if !Truthy(number) && !Truthy(name) {
      return candidates, [];
    }
    var kept: seq<SectionCandidate> := [];
    var i := 0;
    while i < |candidates|
      invariant 0 <= i <= |candidates|
      invariant kept == Matching(candidates[..i], number, name, lower)
    {
      var candidate := candidates[i];
      var keep := MatchesHints(candidate, number, name, lower);
      assert candidates[..i + 1] == candidates[..i] + [candidate];
      if keep {
        kept := kept + [candidate];
      }
      i := i + 1;
    }
    assert candidates[..i] == candidates;
    if kept == [] {
      filtered, warnings := candidates, [HintWarning(number, name)];
    } else {
      filtered, warnings := kept, [];
    }
  }

  // ---------------------------------------------------------------------------------------------
  // Selection

  /** The functions `select_best_section` is given or calls out to: the similarity ratio, the
      strict and soft normalisers it is passed, and `str.lower` for hint names. */
  datatype Matcher = Matcher(
    sim: (string, string) -> Ratio,
    strict: string -> string,
    soft: string -> string,
    lower: string -> string)

  /** One entry of `scored`: the score, whether the strict forms agree, the candidate, its
      cleaned text and its strict form. */
  datatype Scored = Scored(score: real, strictEqual: bool, candidate: SectionCandidate,
                           cleaned: string, strictText: string)

  /** The OCR text after cleaning, in its strict and soft forms. */
  datatype OcrForms = OcrForms(cleaned: string, strict: string, soft: string)

  function OcrFormsOf(m: Matcher, ocrText: string): (o: OcrForms)
    ensures o.strict == m.strict(o.cleaned) && o.soft == m.soft(o.cleaned)
    ensures IsCtaBracketFree(o.cleaned)
  {
    var cleaned := RemoveCtaBrackets(ocrText);
    OcrForms(cleaned, m.strict(cleaned), m.soft(cleaned))
  }

  predicate IsCtaBracketFree(s: string)
  {
    forall k :: 0 <= k < |s| ==> !IsCtaBracket(s[k])
  }

  /** One round of the scoring loop. */
  function ScoreOne(m: Matcher, o: OcrForms, c: SectionCandidate): (e: Scored)
    ensures 0.0 <= e.score <= 1.0
    ensures e.candidate == c && e.cleaned == RemoveCtaBrackets(c.contentText)
    ensures e.strictText == m.strict(e.cleaned)
    ensures e.strictEqual <==> e.strictText == o.strict
  {
    var cleaned := RemoveCtaBrackets(c.contentText);
    var candidateStrict := m.strict(cleaned);
    var candidateSoft := m.soft(cleaned);
    Scored(ScoreCandidate(m.sim, o.cleaned, c, o.soft, candidateSoft), o.strict == candidateStrict,
           c, cleaned, candidateStrict)
  }

  /** The scored list, one entry per candidate in candidate order. */
  function ScoreAll(m: Matcher, o: OcrForms, cs: seq<SectionCandidate>): (r: seq<Scored>)
    ensures |r| == |cs|
    ensures forall k :: 0 <= k < |cs| ==> r[k] == ScoreOne(m, o, cs[k])
    decreases |cs|
  {
    if |cs| == 0 then [] else ScoreAll(m, o, cs[..|cs| - 1]) + [ScoreOne(m, o, cs[|cs| - 1])]
  }

  /** The sort key `(score, strict_equal)` of `a` is below that of `b` (False < True). */
  predicate KeyLess(a: Scored, b: Scored)
  {
    a.score < b.score || (a.score == b.score && !a.strictEqual && b.strictEqual)
  }

  /** The position of `scored[0]` after `scored.sort(key=…, reverse=True)`: the sort is stable,
      so it is the first entry whose key is maximal. */
  function TopIndex(s: seq<Scored>): (t: nat)
    requires |s| > 0
    ensures t < |s|
    ensures forall j :: 0 <= j < |s| ==> !KeyLess(s[t], s[j])
    ensures forall j :: 0 <= j < t ==> KeyLess(s[j], s[t])
    decreases |s|
  {
    if |s| == 1 then 0
    else
      var t := TopIndex(s[..|s| - 1]);
      assert forall j :: 0 <= j < |s| - 1 ==> s[..|s| - 1][j] == s[j];
      if KeyLess(s[t], s[|s| - 1]) then |s| - 1 else t
  }

  /** Only one position has the two properties of the first maximal key. */
  lemma TopIndexUnique(s: seq<Scored>, t: nat)
    requires |s| > 0 && t < |s|
    requires forall j :: 0 <= j < |s| ==> !KeyLess(s[t], s[j])
    requires forall j :: 0 <= j < t ==> KeyLess(s[j], s[t])
    ensures TopIndex(s) == t
  {
    var u := TopIndex(s);
    if u < t {
      assert false;
    } else if t < u {
      assert false;
    }
  }

  /** The first entry is strict exactly when some strict entry reaches the best score. */
  lemma TopStrictIff(s: seq<Scored>)
    requires |s| > 0
    ensures s[TopIndex(s)].strictEqual <==>
      exists j :: 0 <= j < |s| && s[j].strictEqual && s[j].score == s[TopIndex(s)].score
  {
    var t := TopIndex(s);
    if exists j :: 0 <= j < |s| && s[j].strictEqual && s[j].score == s[t].score {
      var j :| 0 <= j < |s| && s[j].strictEqual && s[j].score == s[t].score;
      assert !KeyLess(s[t], s[j]);
    }
  }

  /** The best score in a non-empty list. */
  function MaxScore(s: seq<Scored>): (r: real)
    requires |s| > 0
    ensures exists j :: 0 <= j < |s| && r == s[j].score
    ensures forall j :: 0 <= j < |s| ==> s[j].score <= r
    decreases |s|
  {
    if |s| == 1 then s[0].score
    else
      var r := MaxScore(s[..|s| - 1]);
      assert forall j :: 0 <= j < |s| - 1 ==> s[..|s| - 1][j] == s[j];
      if s[|s| - 1].score > r then s[|s| - 1].score else r
  }

  /** `scored[1][0]` after the sort: the best score among the entries other than the first. */
  function MaxScoreExcept(s: seq<Scored>, t: nat): (r: real)
    requires t < |s| && |s| > 1
    ensures exists j :: 0 <= j < |s| && j != t && r == s[j].score
    ensures forall j :: 0 <= j < |s| && j != t ==> s[j].score <= r
  {
    var rest := s[..t] + s[t + 1..];
    assert forall j :: 0 <= j < t ==> rest[j] == s[j];
    assert forall j :: t < j < |s| ==> rest[j - 1] == s[j];
    var r := MaxScore(rest);
    var k :| 0 <= k < |rest| && r == rest[k].score;
    assert k < t ==> rest[k] == s[k];
    assert k >= t ==> rest[k] == s[k + 1];
    r
  }

  /** The second score never exceeds the first. */
  lemma SecondBelowTop(s: seq<Scored>)
    requires |s| > 0
    ensures |s| > 1 ==> MaxScoreExcept(s, TopIndex(s)) <= s[TopIndex(s)].score
  {
    if |s| > 1 {
      var t := TopIndex(s);
      var j :| 0 <= j < |s| && j != t && MaxScoreExcept(s, t) == s[j].score;
      assert !KeyLess(s[t], s[j]);
    }
  }

  /** `sum(1 for _, se, _, _, _ in scored if se)`. */
  function CountStrict(s: seq<Scored>): (n: nat)
    ensures n <= |s|
    ensures n == 0 <==> forall j :: 0 <= j < |s| ==> !s[j].strictEqual
    decreases |s|
  {
    if |s| == 0 then 0
    else
      var init := s[..|s| - 1];
      assert forall j :: 0 <= j < |s| - 1 ==> init[j] == s[j];
      CountStrict(init) + (if s[|s| - 1].strictEqual then 1 else 0)
  }

  /** `all(_has_placeholder(c.content_text) for c in filtered_candidates)`. */
  predicate AllPlaceholders(cs: seq<SectionCandidate>)
  {
    forall k :: 0 <= k < |cs| ==> HasPlaceholder(cs[k].contentText)
  }

  const NoCandidatesWarning := "No candidates available after filtering"
  const PlaceholdersWarning := "All candidates contain placeholders"
  const TooShortWarning := "OCR too short / ambiguous"
  const AmbiguousWarning := "Ambiguous top candidates (delta < 0.05)"
  const MultipleStrictWarning := "Multiple strict matches with low delta"

  /** Whether the OCR text counts as too short: at most three words or at most fifteen
      characters in its strict form. */
  predicate TooShort(ocrStrict: string)
    ensures (forall k :: 0 <= k < |ocrStrict| ==> IsSpace(ocrStrict[k])) ==> TooShort(ocrStrict)
    ensures !TooShort(ocrStrict) ==> 4 <= CountWords(ocrStrict) <= |ocrStrict| && |ocrStrict| >= 16
  {
    CountWords(ocrStrict) <= 3 || |ocrStrict| <= 15
  }

  /** The confidence rules, in their order: whether a person has to confirm the choice, and the
      warning of the rule that fired, if any. */
  function Verdict(allPlaceholders: bool, tooShort: bool, topStrict: bool, strictCount: nat,
                   delta: real): (v: (bool, Option<string>))
    ensures v.1.Some? ==> v.0
    ensures v.1.None? ==> v.0 == !topStrict
    ensures !v.0 <==> !allPlaceholders && topStrict && !(strictCount > 1 && delta < MinDelta)
    ensures allPlaceholders ==> v == (true, Some(PlaceholdersWarning))
    ensures !allPlaceholders && tooShort && !topStrict ==> v == (true, Some(TooShortWarning))
    ensures !allPlaceholders && !tooShort && delta < MinDelta && !topStrict ==>
      v == (true, Some(AmbiguousWarning))
    ensures !allPlaceholders && topStrict && strictCount > 1 && delta < MinDelta ==>
      v == (true, Some(MultipleStrictWarning))
    ensures && !allPlaceholders && !(tooShort && !topStrict) && !(delta < MinDelta && !topStrict)
            && !(topStrict && strictCount > 1 && delta < MinDelta) ==>
      v == (!topStrict, None)
  {
    if allPlaceholders then (true, Some(PlaceholdersWarning))
    else if tooShort && !topStrict then (true, Some(TooShortWarning))
    else if delta < MinDelta && !topStrict then (true, Some(AmbiguousWarning))
    else if topStrict && strictCount > 1 && delta < MinDelta then (true, Some(MultipleStrictWarning))
    else (!topStrict, None)
  }

  function OptionToSeq(o: Option<string>): (r: seq<string>)
    ensures |r| <= 1
  {
    if o.Some? then [o.value] else []
  }

  /** The result for a non-empty filtered list, from the scored entries. */
  function Decide(o: OcrForms, filtered: seq<SectionCandidate>, scored: seq<Scored>,
                  hintWarnings: seq<string>): (r: SelectionResult)
    requires |scored| > 0
    requires forall k :: 0 <= k < |scored| ==> 0.0 <= scored[k].score <= 1.0
    ensures r.chosenSection == Some(scored[TopIndex(scored)].candidate)
    ensures r.chosenText == scored[TopIndex(scored)].cleaned
    ensures r.scoreTop1 == scored[TopIndex(scored)].score
    ensures forall k :: 0 <= k < |scored| ==> scored[k].score <= r.scoreTop1
    ensures 0.0 <= r.scoreTop2 <= r.scoreTop1 <= 1.0 && r.delta == r.scoreTop1 - r.scoreTop2
    ensures |hintWarnings| <= |r.warnings| <= |hintWarnings| + 1
    ensures r.warnings[..|hintWarnings|] == hintWarnings
    ensures |r.warnings| > |hintWarnings| ==> r.manualRequired
    ensures !r.manualRequired <==>
      && scored[TopIndex(scored)].strictEqual && !AllPlaceholders(filtered)
      && !(CountStrict(scored) > 1 && r.delta < MinDelta)
    ensures AllPlaceholders(filtered) ==>
      r.manualRequired && |r.warnings| == |hintWarnings| + 1 && r.warnings[|hintWarnings|] == PlaceholdersWarning
    ensures !AllPlaceholders(filtered) && TooShort(o.strict) && !scored[TopIndex(scored)].strictEqual ==>
      r.warnings == hintWarnings + [TooShortWarning]
    ensures !AllPlaceholders(filtered) && !TooShort(o.strict) && r.delta < MinDelta
            && !scored[TopIndex(scored)].strictEqual ==>
      r.warnings == hintWarnings + [AmbiguousWarning]
    ensures !AllPlaceholders(filtered) && scored[TopIndex(scored)].strictEqual
            && CountStrict(scored) > 1 && r.delta < MinDelta ==>
      r.warnings == hintWarnings + [MultipleStrictWarning]
    ensures var topStrict := scored[TopIndex(scored)].strictEqual;
      && !AllPlaceholders(filtered) && !(TooShort(o.strict) && !topStrict)
      && !(r.delta < MinDelta && !topStrict) && !(topStrict && CountStrict(scored) > 1 && r.delta < MinDelta) ==>
        r.warnings == hintWarnings && r.manualRequired == !topStrict
  {
    var t := TopIndex(scored);
    var top := scored[t];
    var top2 := if |scored| > 1 then MaxScoreExcept(scored, t) else 0.0;
    SecondBelowTop(scored);
    var delta := top.score - top2;
    var v := Verdict(AllPlaceholders(filtered), TooShort(o.strict), top.strictEqual,
                     CountStrict(scored), delta);
    SelectionResult(Some(top.candidate), top.cleaned, top.score, top2, delta,
                    hintWarnings + OptionToSeq(v.1), v.0,
                    top.candidate.sectionName, top.candidate.sectionNumber)
  }

  /** `select_best_section`. */
  function Select(m: Matcher, ocrText: string, candidates: seq<SectionCandidate>,
                  number: Option<string>, name: Option<string>): (r: SelectionResult)
    ensures r.chosenSection.Some? <==> candidates != []
    ensures r.chosenSection.None? ==> r.manualRequired && r.chosenText == ""
    ensures 0.0 <= r.scoreTop2 <= r.scoreTop1 <= 1.0
  {
    var o := OcrFormsOf(m, ocrText);
    var (filtered, hintWarnings) := HintFilter(candidates, number, name, m.lower);
    if filtered == [] then
      SelectionResult(None, "", 0.0, 0.0, 0.0, hintWarnings + [NoCandidatesWarning], true, None, None)
    else
      Decide(o, filtered, ScoreAll(m, o, filtered), hintWarnings)
  }

  /** The scoring loop of `select_best_section`. */
  method ScoreCandidates(m: Matcher, o: OcrForms, filtered: seq<SectionCandidate>)
    returns (scored: seq<Scored>)
    ensures scored == ScoreAll(m, o, filtered)
  {
    scored := [];
    var i := 0;
    while i < |filtered|
      invariant 0 <= i <= |filtered|
      invariant scored == ScoreAll(m, o, filtered[..i])
    {
      var cleaned := RemoveCtaBrackets(filtered[i].contentText);
      var candidateStrict := m.strict(cleaned);
      var candidateSoft := m.soft(cleaned);
      var score := ScoreCandidate(m.sim, o.cleaned, filtered[i], o.soft, candidateSoft);
      assert filtered[..i + 1][..i] == filtered[..i];
      scored := scored + [Scored(score, o.strict == candidateStrict, filtered[i], cleaned, candidateStrict)];
      i := i + 1;
    }
    assert filtered[..i] == filtered;
  }

  /** `select_best_section`: the hint filter, the scoring loop, then the rules. */
  method SelectBestSection(m: Matcher, ocrText: string, candidates: seq<SectionCandidate>,
                           number: Option<string>, name: Option<string>)
    returns (r: SelectionResult)
    ensures r == Select(m, ocrText, candidates, number, name)
  {
    var o := OcrFormsOf(m, ocrText);
    var filtered, hintWarnings := FilterByHints(candidates, number, name, m.lower);
    if filtered == [] {
      return SelectionResult(None, "", 0.0, 0.0, 0.0, hintWarnings + [NoCandidatesWarning], true, None, None);
    }
    var scored := ScoreCandidates(m, o, filtered);
    r := Decide(o, filtered, scored, hintWarnings);
  }

  /** The candidates that reach the scoring loop. */
  function Filtered(m: Matcher, candidates: seq<SectionCandidate>, number: Option<string>,
                    name: Option<string>): seq<SectionCandidate>
  {
    HintFilter(candidates, number, name, m.lower).0
  }

  /** Without candidates nothing is chosen and a person has to pick. */
  lemma SelectNoCandidates(m: Matcher, ocrText: string, candidates: seq<SectionCandidate>,
                           number: Option<string>, name: Option<string>)
    requires candidates == []
    ensures var r := Select(m, ocrText, candidates, number, name);
      && r.chosenSection.None? && r.chosenText == "" && r.manualRequired
      && r.scoreTop1 == 0.0 && r.scoreTop2 == 0.0 && r.delta == 0.0
      && |r.warnings| > 0 && r.warnings[|r.warnings| - 1] == NoCandidatesWarning
  {
  }

  /** With candidates, the result is the verdict on the scored filtered list. */
  lemma SelectDecides(m: Matcher, ocrText: string, candidates: seq<SectionCandidate>,
                      number: Option<string>, name: Option<string>)
    requires candidates != []
    ensures var filtered := Filtered(m, candidates, number, name);
      var o := OcrFormsOf(m, ocrText);
      && filtered != []
      && Select(m, ocrText, candidates, number, name)
         == Decide(o, filtered, ScoreAll(m, o, filtered), HintFilter(candidates, number, name, m.lower).1)
  {
  }

  /** With candidates, one of them is chosen: the first entry with the highest key among those
      the hints let through. Its cleaned text and its header fields are reported. */
  lemma SelectChosen(m: Matcher, ocrText: string, candidates: seq<SectionCandidate>,
                     number: Option<string>, name: Option<string>)
    requires candidates != []
    ensures var r := Select(m, ocrText, candidates, number, name);
      && r.chosenSection.Some? && r.chosenSection.value in Filtered(m, candidates, number, name)
      && r.chosenSection.value in candidates
      && r.chosenText == RemoveCtaBrackets(r.chosenSection.value.contentText)
      && r.chosenSectionName == r.chosenSection.value.sectionName
      && r.chosenSectionNumber == r.chosenSection.value.sectionNumber
  {
    SelectDecides(m, ocrText, candidates, number, name);
    var filtered := Filtered(m, candidates, number, name);
    var o := OcrFormsOf(m, ocrText);
    var scored := ScoreAll(m, o, filtered);
    var t := TopIndex(scored);
    ScoreAllFields(m, o, filtered, t);
    assert filtered[t] in filtered;
    FilteredWithin(m, candidates, number, name);
  }

  /** Each scored entry carries its candidate and the candidate's cleaned text. */
  lemma ScoreAllFields(m: Matcher, o: OcrForms, cs: seq<SectionCandidate>, k: nat)
    requires k < |cs|
    ensures ScoreAll(m, o, cs)[k].candidate == cs[k]
    ensures ScoreAll(m, o, cs)[k].cleaned == RemoveCtaBrackets(cs[k].contentText)
  {
    assert ScoreAll(m, o, cs)[k] == ScoreOne(m, o, cs[k]);
  }

  /** The hint filter only ever keeps candidates. */
  lemma FilteredWithin(m: Matcher, candidates: seq<SectionCandidate>, number: Option<string>,
                       name: Option<string>)
    ensures forall c :: c in Filtered(m, candidates, number, name) ==> c in candidates
  {
    var matching := Matching(candidates, number, name, m.lower);
    assert forall k :: 0 <= k < |matching| ==> matching[k] in candidates;
  }

  /** No candidate the hints let through scores above the chosen one, the second score lies
      between zero and the first, and the delta is their difference. */
  lemma SelectScores(m: Matcher, ocrText: string, candidates: seq<SectionCandidate>,
                     number: Option<string>, name: Option<string>)
    requires candidates != []
    ensures var r := Select(m, ocrText, candidates, number, name);
      var filtered := Filtered(m, candidates, number, name);
      var o := OcrFormsOf(m, ocrText);
      && r.chosenSection.Some?
      && r.scoreTop1 == ScoreOne(m, o, r.chosenSection.value).score
      && (forall k :: 0 <= k < |filtered| ==> ScoreOne(m, o, filtered[k]).score <= r.scoreTop1)
      && 0.0 <= r.scoreTop2 <= r.scoreTop1 <= 1.0
      && r.delta == r.scoreTop1 - r.scoreTop2 && r.delta >= 0.0
  {
    SelectDecides(m, ocrText, candidates, number, name);
    var filtered := Filtered(m, candidates, number, name);
    var o := OcrFormsOf(m, ocrText);
    var scored := ScoreAll(m, o, filtered);
    var t := TopIndex(scored);
    assert scored[t] == ScoreOne(m, o, filtered[t]);
  }

  /** When some candidate satisfies the hints, the chosen one does too. */
  lemma SelectHonoursHints(m: Matcher, ocrText: string, candidates: seq<SectionCandidate>,
                           number: Option<string>, name: Option<string>)
    requires Truthy(number) || Truthy(name)
    requires Matching(candidates, number, name, m.lower) != []
    ensures var r := Select(m, ocrText, candidates, number, name);
      r.chosenSection.Some? && MatchesHints(r.chosenSection.value, number, name, m.lower)
  {
    HintFilterOutcome(candidates, number, name, m.lower);
    SelectChosen(m, ocrText, candidates, number, name);
  }

  /** The warnings are those of the hint filter followed by at most one from the rules. */
  lemma SelectWarnings(m: Matcher, ocrText: string, candidates: seq<SectionCandidate>,
                       number: Option<string>, name: Option<string>)
    ensures var r := Select(m, ocrText, candidates, number, name);
      var hintWarnings := HintFilter(candidates, number, name, m.lower).1;
      && |hintWarnings| <= |r.warnings| <= |hintWarnings| + 1 <= 2
      && r.warnings[..|hintWarnings|] == hintWarnings
      && (r.manualRequired <== |r.warnings| > |hintWarnings|)
  {
    var hintWarnings := HintFilter(candidates, number, name, m.lower).1;
    if Filtered(m, candidates, number, name) == [] {
      assert (hintWarnings + [NoCandidatesWarning])[..|hintWarnings|] == hintWarnings;
    }
  }

  /** The choice is accepted without a person exactly when the chosen candidate's strict form
      equals the OCR text's, not every candidate carries a placeholder, and no second strict
      match lies within the minimum delta. Then no rule warning is added. */
  lemma SelectAutoPass(m: Matcher, ocrText: string, candidates: seq<SectionCandidate>,
                       number: Option<string>, name: Option<string>)
    ensures var r := Select(m, ocrText, candidates, number, name);
      var filtered := Filtered(m, candidates, number, name);
      var o := OcrFormsOf(m, ocrText);
      !r.manualRequired <==>
        && candidates != []
        && r.chosenSection.Some? && m.strict(r.chosenText) == o.strict
        && !AllPlaceholders(filtered)
        && !(CountStrict(ScoreAll(m, o, filtered)) > 1 && r.delta < MinDelta)
    ensures var r := Select(m, ocrText, candidates, number, name);
      !r.manualRequired ==> r.warnings == HintFilter(candidates, number, name, m.lower).1
  {
    var filtered := Filtered(m, candidates, number, name);
    if filtered != [] {
      var o := OcrFormsOf(m, ocrText);
      var scored := ScoreAll(m, o, filtered);
      var t := TopIndex(scored);
      assert scored[t] == ScoreOne(m, o, filtered[t]);
    }
  }

  /** Which rule warning follows the hint warnings when not every candidate carries a placeholder:
      a too-short OCR text or a delta below the minimum without a strict match of the chosen
      candidate, or a second strict match within the minimum delta of a strict match. */
  lemma SelectRuleWarnings(m: Matcher, ocrText: string, candidates: seq<SectionCandidate>,
                           number: Option<string>, name: Option<string>)
    requires !AllPlaceholders(Filtered(m, candidates, number, name))
    ensures var r := Select(m, ocrText, candidates, number, name);
      var o := OcrFormsOf(m, ocrText);
      var hintWarnings := HintFilter(candidates, number, name, m.lower).1;
      var topStrict := m.strict(r.chosenText) == o.strict;
      && (TooShort(o.strict) && !topStrict ==> r.warnings == hintWarnings + [TooShortWarning])
      && (!TooShort(o.strict) && r.delta < MinDelta && !topStrict ==>
            r.warnings == hintWarnings + [AmbiguousWarning])
    ensures var r := Select(m, ocrText, candidates, number, name);
      var o := OcrFormsOf(m, ocrText);
      var filtered := Filtered(m, candidates, number, name);
      var topStrict := m.strict(r.chosenText) == o.strict;
      topStrict && CountStrict(ScoreAll(m, o, filtered)) > 1 && r.delta < MinDelta ==>
        r.warnings == HintFilter(candidates, number, name, m.lower).1 + [MultipleStrictWarning]
    ensures var r := Select(m, ocrText, candidates, number, name);
      var o := OcrFormsOf(m, ocrText);
      var filtered := Filtered(m, candidates, number, name);
      var topStrict := m.strict(r.chosenText) == o.strict;
      && !(TooShort(o.strict) && !topStrict) && !(r.delta < MinDelta && !topStrict)
      && !(topStrict && CountStrict(ScoreAll(m, o, filtered)) > 1 && r.delta < MinDelta) ==>
        r.warnings == HintFilter(candidates, number, name, m.lower).1 && r.manualRequired == !topStrict
  {
    var filtered := Filtered(m, candidates, number, name);
    assert filtered != [];
    var o := OcrFormsOf(m, ocrText);
    var scored := ScoreAll(m, o, filtered);
    var t := TopIndex(scored);
    assert scored[t] == ScoreOne(m, o, filtered[t]);
  }

  /** Placeholders everywhere always need a person, whatever the scores. */
  lemma SelectAllPlaceholders(m: Matcher, ocrText: string, candidates: seq<SectionCandidate>,
                              number: Option<string>, name: Option<string>)
    requires candidates != [] && AllPlaceholders(Filtered(m, candidates, number, name))
    ensures var r := Select(m, ocrText, candidates, number, name);
      r.manualRequired && r.warnings[|r.warnings| - 1] == PlaceholdersWarning
  {
  }

  /** With a single candidate left, the second score is zero and the delta is the top score. */
  lemma SelectSingleCandidate(m: Matcher, ocrText: string, candidates: seq<SectionCandidate>,
                              number: Option<string>, name: Option<string>)
    requires |Filtered(m, candidates, number, name)| == 1
    ensures var r := Select(m, ocrText, candidates, number, name);
      r.scoreTop2 == 0.0 && r.delta == r.scoreTop1
  {
  }
}
