/** Language tags in file names and the choice of reference text for each image
    (zip_processor.py): a tag is read from a file-name stem, the reference texts are indexed by
    their tag, and every image gets a reference path and a language. */
module LanguageTags {
  import opened Builtins

  // ---------------------------------------------------------------------------------------------
  // The language-tag pattern `^[a-z]{2,3}(?:-[A-Za-z0-9]+)*$`, matched ignoring case

  /** A character matched by `[a-z]` or `[A-Z]` when case is ignored: the ASCII letters and the
      four characters whose simple case mapping reaches one of them (dotted capital I, dotless
      small i, long s and the Kelvin sign). */
  predicate IsLangLetter(c: char)
  {
    ('a' <= c <= 'z') || ('A' <= c <= 'Z')
    || c == 'İ' || c == 'ı' || c == 'ſ' || c == 'K'
  }

  /** A character of `[A-Za-z0-9]` when case is ignored. */
  predicate IsTagChar(c: char)
  {
    IsLangLetter(c) || ('0' <= c <= '9')
  }

  /** A non-empty run of `[A-Za-z0-9]`. */
  predicate IsSubtag(p: string)
  {
    |p| > 0 && forall k :: 0 <= k < |p| ==> IsTagChar(p[k])
  }

  /** `(?:-[A-Za-z0-9]+)*`: nothing, or a hyphen followed by hyphen-separated subtags. */
  predicate IsSubtagList(r: string)
  {
    r == [] || (r[0] == '-' && var ps := SplitOn(r[1..], '-'); forall k :: 0 <= k < |ps| ==> IsSubtag(ps[k]))
  }

  /** The whole pattern: two or three letters, then subtags. The letter run is taken whole,
      since a letter can only be followed by another letter, a hyphen or the end. */
  predicate TagShape(t: string)
  {
    var n := PrefixLen(t, IsLangLetter);
    2 <= n <= 3 && IsSubtagList(t[n..])
  }

  /** `_LANG_TOKEN_RE.match(t)`: `$` also matches in front of a final line feed. */
  predicate IsLangToken(t: string)
    ensures IsLangToken(t) ==> |t| >= 2 && IsLangLetter(t[0]) && IsLangLetter(t[1])
  {
    TagShape(t) || (|t| > 0 && t[|t| - 1] == '\n' && TagShape(t[..|t| - 1]))
  }

  /** Stripped text has no final line feed, so there the pattern is the tag shape alone. */
  lemma StrippedLangToken(t: string)
    requires t == [] || !IsSpace(t[|t| - 1])
    ensures IsLangToken(t) <==> TagShape(t)
  {
  }

  // ---------------------------------------------------------------------------------------------
  // The trailing parenthesised group `\(([^)]+)\)\s*$`

  /** A match of the pattern with the opening parenthesis at `p` and the closing one at `e`: at
      least one character between them, none of them a closing parenthesis, and only whitespace
      after `e`. */
  predicate ParensAt(s: string, p: nat, e: nat)
  {
    p + 1 < e < |s| && s[p] == '(' && s[e] == ')'
    && (forall k :: p < k < e ==> s[k] != ')')
    && (forall k :: e < k < |s| ==> IsSpace(s[k]))
  }

  /** `re.search` from position `i` on: the leftmost opening parenthesis whose first closing
      parenthesis ends the match. */
  function ParensFrom(s: string, i: nat): (r: Option<(nat, nat)>)
    requires i <= |s|
    ensures r.Some? ==> i <= r.value.0 && ParensAt(s, r.value.0, r.value.1)
    ensures r.Some? ==> forall q: nat, f: nat :: i <= q < r.value.0 ==> !ParensAt(s, q, f)
    ensures r.None? ==> forall q: nat, f: nat :: i <= q ==> !ParensAt(s, q, f)
    decreases |s| - i
  {
    if i == |s| then None
    else
      var close := NextIndex(s, ')', i + 1);
      assert forall f: nat :: ParensAt(s, i, f) ==> close == Some(f);
      if s[i] == '(' && close.Some? && close.value > i + 1
         && (forall k :: close.value < k < |s| ==> IsSpace(s[k]))
      then Some((i, close.value))
      else ParensFrom(s, i + 1)
  }

  /** `_LANG_PARENS_RE.search(s).group(1)`, when there is a match. */
  function ParensGroup(s: string): (g: Option<string>)
    ensures g.Some? <==> exists p: nat, e: nat :: ParensAt(s, p, e)
    ensures g.Some? ==> |g.value| > 0 && ')' !in g.value
  {
    match ParensFrom(s, 0)
    case None => None
    case Some((p, e)) => Some(s[p + 1..e])
  }

  // ---------------------------------------------------------------------------------------------
  // Tags in stems and file names

  /** The separators of `re.split(r"[_\-\s]+", s)`. */
  predicate IsStemSeparator(c: char)
  {
    c == '_' || c == '-' || IsSpace(c)
  }

  /** Rule 1: the stripped group in trailing parentheses, when it is a tag. */
  function TagInParens(s: string): (r: Option<string>)
    ensures r.Some? ==> TagShape(r.value)
    ensures r.Some? <==> ParensGroup(s).Some? && TagShape(Strip(ParensGroup(s).value))
  {
    var group := ParensGroup(s);
    if group.Some? then
      var token := Strip(group.value);
      StrippedLangToken(token);
      if IsLangToken(token) then Some(token) else None
    else None
  }

  /** Rule 3: the last part between separators, when it is a tag. */
  function TagAtEnd(s: string): (r: Option<string>)
    ensures r.Some? ==> TagShape(r.value)
    ensures var parts := Runs(s, IsStemSeparator);
      r.Some? <==> |parts| > 0 && TagShape(Strip(parts[|parts| - 1]))
  {
    var parts := Runs(s, IsStemSeparator);
    if |parts| > 0 then
      var token := Strip(parts[|parts| - 1]);
      StrippedLangToken(token);
      if IsLangToken(token) then Some(token) else None
    else None
  }

  /** `_extract_language_from_stem`: a tag in trailing parentheses, else the whole stripped stem
      when it is a tag, else its last separator-free part when that is a tag. */
  function LanguageFromStem(stem: string): (r: Option<string>)
    ensures r.Some? ==> TagShape(r.value)
    ensures r == if TagInParens(Strip(stem)).Some? then TagInParens(Strip(stem))
      else if TagShape(Strip(stem)) then Some(Strip(stem))
      else TagAtEnd(Strip(stem))
  {
    var s := Strip(stem);
    StrippedLangToken(s);
    var inParens := TagInParens(s);
    if inParens.Some? then inParens
    else if IsLangToken(s) then Some(s)
    else TagAtEnd(s)
  }

  /** The last component of a slash-separated path, as `pathlib` sees it: empty and `.`
      components do not count. */
  function LastComponent(parts: seq<string>): (r: string)
    ensures r == "" || r in parts
    ensures r != "."
    decreases |parts|
  {
    if |parts| == 0 then ""
    else
      var last := parts[|parts| - 1];
      if last == "" || last == "." then LastComponent(parts[..|parts| - 1]) else last
  }

  /** `s.rfind(c)`: the last position holding `c`. */
  function LastIndex(s: string, c: char): (r: Option<nat>)
    ensures r.Some? ==> r.value < |s| && s[r.value] == c
    ensures r.Some? ==> forall k :: r.value < k < |s| ==> s[k] != c
    ensures r.None? ==> c !in s
    decreases |s|
  {
    if |s| == 0 then None
    else if s[|s| - 1] == c then Some(|s| - 1)
    else LastIndex(s[..|s| - 1], c)
  }

  /** `Path(path).stem`: the last component without its final suffix; a leading dot and a final
      dot start no suffix. */
  function PathStem(path: string): (stem: string)
  {
    var name := LastComponent(SplitOn(path, '/'));
    var dot := LastIndex(name, '.');
    if dot.Some? && 0 < dot.value < |name| - 1 then name[..dot.value] else name
  }

  /** The stem is a prefix of the last component and holds no `/`; a last component without a
      dot is its own stem. */
  lemma PathStemInLastComponent(path: string)
    ensures PathStem(path) <= LastComponent(SplitOn(path, '/'))
    ensures '/' !in PathStem(path)
    ensures '.' !in LastComponent(SplitOn(path, '/')) ==> PathStem(path) == LastComponent(SplitOn(path, '/'))
  {
  }

  /** `_extract_language_from_filename`. */
  function LanguageFromFilename(path: string): (r: Option<string>)
    ensures r.Some? ==> TagShape(r.value)
  {
    LanguageFromStem(PathStem(path))
  }

  /** Without an opening parenthesis there is no parenthesised group. */
  lemma NoParens(s: string)
    requires '(' !in s
    ensures ParensGroup(s).None?
  {
    assert forall p: nat, e: nat :: ParensAt(s, p, e) ==> s[p] in s;
  }

  lemma TagShapeRu()
    ensures TagShape("ru")
  {
    PrefixLenUnique("ru", IsLangLetter, 2);
  }

  /** A language of two or three letters and one subtag, joined by a hyphen, has the tag shape. */
  lemma TagShapeWithSubtag(lang: string, sub: string)
    requires 2 <= |lang| <= 3 && forall k :: 0 <= k < |lang| ==> IsLangLetter(lang[k])
    requires IsSubtag(sub) && '-' !in sub
    ensures TagShape(lang + "-" + sub)
  {
    var t := lang + "-" + sub;
    assert t[|lang|] == '-';
    PrefixLenUnique(t, IsLangLetter, |lang|);
    assert t[|lang|..] == "-" + sub && ("-" + sub)[1..] == sub;
    SplitNoSeparator(sub, '-');
  }

  lemma TagShapeZhHans()
    ensures TagShape("zh-Hans")
  {
    TagShapeWithSubtag("zh", "Hans");
    assert "zh" + "-" + "Hans" == "zh-Hans";
  }

  /** Six letters are too many for a language. */
  lemma NotTagBannerRu()
    ensures !TagShape("Banner_ru")
  {
    PrefixLenUnique("Banner_ru", IsLangLetter, 6);
  }

  /** Text without the separator splits into itself. */
  lemma SplitNoSeparator(s: string, c: char)
    requires c !in s
    ensures SplitOn(s, c) == [s]
  {
    JoinSplit(s, c);
    var parts := SplitOn(s, c);
    if |parts| > 1 {
      assert false;
    }
  }

  /** A stem that is itself a tag: `ru` gives `ru`. */
  lemma WholeStemExample()
    ensures LanguageFromStem("ru") == Some("ru")
  {
    StripVisible("ru");
    NoParens("ru");
    TagShapeRu();
  }

  /** Two separator-free runs around one separator are the two runs. */
  lemma RunsPair(a: string, c: char, b: string, sep: char -> bool)
    requires |a| > 0 && forall k :: 0 <= k < |a| ==> !sep(a[k])
    requires |b| > 0 && forall k :: 0 <= k < |b| ==> !sep(b[k])
    requires sep(c)
    ensures Runs(a + [c] + b, sep) == [a, b]
  {
    assert a + [c] + b == a + ([c] + b);
    RunsConsRun(a, [c] + b, sep);
    RunsSkipSeparators([c] + b, sep, 1);
    assert ([c] + b)[1..] == b + [];
    RunsConsRun(b, [], sep);
  }

  /** Language letters are never stem separators. */
  lemma LettersNotSeparators(s: string)
    requires forall k :: 0 <= k < |s| ==> IsLangLetter(s[k])
    ensures forall k :: 0 <= k < |s| ==> !IsStemSeparator(s[k])
  {
  }

  /** The third rule in isolation: a plain stem that is not a tag, whose last part is one. */
  lemma LastPartRule(stem: string, last: string)
    requires Strip(stem) == stem && ParensGroup(stem).None? && !TagShape(stem)
    requires var parts := Runs(stem, IsStemSeparator); |parts| > 0 && parts[|parts| - 1] == last
    requires Strip(last) == last && TagShape(last)
    ensures LanguageFromStem(stem) == Some(last)
  {
  }

  /** `Banner_ru` splits into `Banner` and `ru`. */
  lemma RunsBannerRu()
    ensures Runs("Banner_ru", IsStemSeparator) == ["Banner", "ru"]
  {
    LettersNotSeparators("Banner");
    LettersNotSeparators("ru");
    RunsPair("Banner", '_', "ru", IsStemSeparator);
    assert "Banner" + ['_'] + "ru" == "Banner_ru";
  }

  /** A tag after a separator: `Banner_ru` gives `ru`. */
  lemma LastPartExample(stem: string)
    requires stem == "Banner_ru"
    ensures LanguageFromStem(stem) == Some("ru")
  {
    StripVisible(stem);
    NoParens(stem);
    NotTagBannerRu();
    RunsBannerRu();
    StripVisible("ru");
    TagShapeRu();
    LastPartRule(stem, "ru");
  }

  /** A name without `(` followed by a parenthesised non-empty group without `)` at the very end
      has that group. */
  lemma ParensGroupAtEnd(name: string, group: string)
    requires '(' !in name && |group| > 0 && ')' !in group
    ensures ParensGroup(name + "(" + group + ")") == Some(group)
  {
    var s := name + "(" + group + ")";
    var p := |name|;
    var e := |name| + 1 + |group|;
    assert forall k :: p < k < e ==> s[k] == group[k - p - 1];
    assert ParensAt(s, p, e);
    var r := ParensFrom(s, 0);
    assert forall q :: 0 <= q < p ==> s[q] == name[q];
    assert r.value.0 == p;
    assert r.value.1 == e;
    assert s[p + 1..e] == group;
  }

  /** The group of `file(zh-Hans)` is `zh-Hans`. */
  lemma ParensGroupExample(s: string)
    requires s == "file(zh-Hans)"
    ensures ParensGroup(s) == Some("zh-Hans")
  {
    assert '(' !in "file" && ')' !in "zh-Hans";
    ParensGroupAtEnd("file", "zh-Hans");
    assert "file" + "(" + "zh-Hans" + ")" == s;
  }

  /** The first rule in isolation: a plain stem whose parenthesised group is a tag. */
  lemma ParensRule(stem: string, group: string)
    requires Strip(stem) == stem && ParensGroup(stem) == Some(group)
    requires Strip(group) == group && TagShape(group)
    ensures LanguageFromStem(stem) == Some(group)
  {
  }

  /** A tag in trailing parentheses: `file(zh-Hans)` gives `zh-Hans`. */
  lemma ParensExample(stem: string)
    requires stem == "file(zh-Hans)"
    ensures LanguageFromStem(stem) == Some("zh-Hans")
  {
    StripVisible(stem);
    ParensGroupExample(stem);
    StripVisible("zh-Hans");
    TagShapeZhHans();
    ParensRule(stem, "zh-Hans");
  }

  // ---------------------------------------------------------------------------------------------
  // Choosing the reference text of an image
  //
  // The choice is stated for any way `tagOf` of reading a tag from a stem; the system reads them
  // with `LanguageFromStem`, which `ChooseReferences` uses.

  /** The tag of a file name. */
  function FileTag(tagOf: string -> Option<string>, path: string): Option<string>
  {
    tagOf(PathStem(path))
  }

  /** The text paths whose file name carries `lang`, in their order. */
  function PathsWithLanguage(tagOf: string -> Option<string>, texts: seq<string>, lang: string)
    : (r: seq<string>)
    ensures |r| <= |texts|
    decreases |texts|
  {
    if |texts| == 0 then []
    else
      var init := texts[..|texts| - 1];
      var last := texts[|texts| - 1];
      PathsWithLanguage(tagOf, init, lang) + (if FileTag(tagOf, last) == Some(lang) then [last] else [])
  }

  /** The list holds exactly the texts that carry the tag. */
  lemma {:induction false} PathsWithLanguageMembers(tagOf: string -> Option<string>, texts: seq<string>,
                                                   lang: string)
    ensures forall p :: p in PathsWithLanguage(tagOf, texts, lang) <==> p in texts && FileTag(tagOf, p) == Some(lang)
    decreases |texts|
  {
    if |texts| > 0 {
      var init := texts[..|texts| - 1];
      var last := texts[|texts| - 1];
      PathsWithLanguageMembers(tagOf, init, lang);
      assert texts == init + [last];
    }
  }

  /** No text carries the tag: the list is empty. */
  lemma {:induction false} PathsWithLanguageEmpty(tagOf: string -> Option<string>, texts: seq<string>,
                                                 lang: string)
    requires forall p :: p in texts ==> FileTag(tagOf, p) != Some(lang)
    ensures PathsWithLanguage(tagOf, texts, lang) == []
    decreases |texts|
  {
    if |texts| > 0 {
      var init := texts[..|texts| - 1];
      assert forall p :: p in init ==> p in texts;
      assert texts[|texts| - 1] in texts;
      PathsWithLanguageEmpty(tagOf, init, lang);
    }
  }

  /** `texts_by_lang` as built from `texts`: a key per tag that some file name carries, holding
      those files in order. */
  ghost predicate IsLanguageIndex(tagOf: string -> Option<string>, texts: seq<string>,
                                  index: map<string, seq<string>>)
  {
    && (forall lang :: lang in index <==> PathsWithLanguage(tagOf, texts, lang) != [])
    && (forall lang :: lang in index ==> index[lang] == PathsWithLanguage(tagOf, texts, lang))
  }

  /** `index.setdefault(lang, []).append(path)` for a tagged path; nothing for an untagged
      one. */
  function AddToIndex(index: map<string, seq<string>>, lang: Option<string>, path: string)
    : map<string, seq<string>>
  {
    if lang.Some? then index[lang.value := (if lang.value in index then index[lang.value] else []) + [path]]
    else index
  }

  /** `texts_by_lang` after the loop has seen `texts`. */
  function LanguageIndex(tagOf: string -> Option<string>, texts: seq<string>): (index: map<string, seq<string>>)
    ensures forall lang :: lang in index ==> |index[lang]| > 0
    decreases |texts|
  {
    if |texts| == 0 then map[]
    else
      var last := texts[|texts| - 1];
      AddToIndex(LanguageIndex(tagOf, texts[..|texts| - 1]), FileTag(tagOf, last), last)
  }

  /** The index has a key exactly for the tags some text carries, and under each key the texts
      carrying it, in order. */
  lemma {:induction false} LanguageIndexIsIndex(tagOf: string -> Option<string>, texts: seq<string>)
    ensures IsLanguageIndex(tagOf, texts, LanguageIndex(tagOf, texts))
    decreases |texts|
  {
    if |texts| > 0 {
      LanguageIndexIsIndex(tagOf, texts[..|texts| - 1]);
    }
  }

  /** One more text extends the index by that text alone. */
  lemma LanguageIndexStep(tagOf: string -> Option<string>, texts: seq<string>, i: nat)
    requires i < |texts|
    ensures LanguageIndex(tagOf, texts[..i + 1])
         == AddToIndex(LanguageIndex(tagOf, texts[..i]), FileTag(tagOf, texts[i]), texts[i])
  {
    assert texts[..i + 1][..i] == texts[..i];
  }

  /** The loop that builds `texts_by_lang` with `setdefault(lang, []).append(path)`. */
  method BuildLanguageIndex(texts: seq<string>) returns (index: map<string, seq<string>>)
    ensures index == LanguageIndex(LanguageFromStem, texts)
  {
    index := map[];
    var i := 0;
    while i < |texts|
      invariant 0 <= i <= |texts|
      invariant index == LanguageIndex(LanguageFromStem, texts[..i])
    {
      var path := texts[i];
      var lang := LanguageFromFilename(path);
      LanguageIndexStep(LanguageFromStem, texts, i);
      ghost var next := AddToIndex(index, lang, path);
      if lang.Some? {
        var entry := if lang.value in index then index[lang.value] else [];
        index := index[lang.value := entry + [path]];
      }
      assert index == next;
      i := i + 1;
    }
    assert texts[..i] == texts;
  }

  /** `p.lower().endswith(".docx")`. */
  predicate IsDocxPath(p: string)
    ensures IsDocxPath(p) ==> |p| >= 5 && p[|p| - 5] == '.'
  {
    if |p| >= 5 then LowerAt(p, |p| - 5); EndsWith(Lower(p), ".docx") else false
  }

  /** The `.docx` paths among `ps`, in order. */
  function DocxPaths(ps: seq<string>): (r: seq<string>)
    ensures forall p :: p in r <==> p in ps && IsDocxPath(p)
    decreases |ps|
  {
    if |ps| == 0 then []
    else (if IsDocxPath(ps[0]) then [ps[0]] else []) + DocxPaths(ps[1..])
  }

  /** The position of the first text path from `from` on whose stem contains `part`. */
  function FirstStemIndex(texts: seq<string>, part: string, from: nat): (r: Option<nat>)
    requires from <= |texts|
    ensures r.Some? ==> from <= r.value < |texts| && StemContains(texts[r.value], part)
    ensures r.Some? ==> forall j {:trigger StemContains(texts[j], part)} :: from <= j < r.value ==> !StemContains(texts[j], part)
    ensures r.None? ==> forall j {:trigger StemContains(texts[j], part)} :: from <= j < |texts| ==> !StemContains(texts[j], part)
    decreases |texts| - from
  {
    if from == |texts| then None
    else if StemContains(texts[from], part) then Some(from)
    else
      var r := FirstStemIndex(texts, part, from + 1);
      assert !StemContains(texts[from], part);
      r
  }

  /** The path's stem contains `part`. */
  predicate StemContains(path: string, part: string)
  {
    IsSubstring(part, PathStem(path))
  }

  /** The first text path whose stem contains `part`. */
  function FirstStemContaining(texts: seq<string>, part: string): (r: Option<string>)
    ensures r.Some? ==> r.value in texts && StemContains(r.value, part)
    ensures r.None? ==> forall p :: p in texts ==> !StemContains(p, part)
  {
    match FirstStemIndex(texts, part, 0)
    case None => None
    case Some(k) => Some(texts[k])
  }

  /** The prefix of the second rule: the stem's `_`-separated parts but the last, joined again
      with `_` and stripped. A stem without `_` has no prefix, so the rule is then skipped. */
  function StemPrefix(stem: string): (prefix: string)
    ensures '_' !in stem ==> prefix == ""
  {
    var parts := SplitOn(stem, '_');
    JoinSplit(stem, '_');
    Strip(Join("_", parts[..|parts| - 1]))
  }

  /** Rule 1: among the texts tagged with the image's language, the smallest `.docx` path, or
      the smallest path when none is a `.docx`. */
  function ByLanguage(tagOf: string -> Option<string>, texts: seq<string>, lang: string)
    : (r: Option<string>)
    ensures r.Some? <==> PathsWithLanguage(tagOf, texts, lang) != []
  {
    var tagged := PathsWithLanguage(tagOf, texts, lang);
    if tagged == [] then None
    else
      var docx := DocxPaths(tagged);
      Some(Smallest(if docx != [] then docx else tagged))
  }

  /** Rules 2 and 3: the first text whose stem contains the image stem's non-empty prefix, else
      the first one whose stem contains the non-empty image stem. */
  function ByName(texts: seq<string>, stem: string): (r: Option<string>)
    ensures r.Some? ==> r.value in texts
    ensures r.Some? ==>
      || (StemPrefix(stem) != "" && StemContains(r.value, StemPrefix(stem)))
      || (stem != "" && StemContains(r.value, stem))
    ensures r.None? <==>
      && (StemPrefix(stem) == "" || forall p :: p in texts ==> !StemContains(p, StemPrefix(stem)))
      && (stem == "" || forall p :: p in texts ==> !StemContains(p, stem))
  {
    var prefix := StemPrefix(stem);
    var byPrefix := if prefix != "" then FirstStemContaining(texts, prefix) else None;
    if byPrefix.Some? then byPrefix
    else if stem != "" then FirstStemContaining(texts, stem)
    else None
  }

  /** The reference path `parse_zip_streaming` chooses for an image: rule 1 when the image's
      stem carries a tag some text carries too, else rules 2 and 3. */
  function ReferenceFor(tagOf: string -> Option<string>, imagePath: string, texts: seq<string>)
    : (r: Option<string>)
    ensures r.Some? ==> r.value in texts
  {
    var stem := PathStem(imagePath);
    var lang := tagOf(stem);
    var byLanguage := if lang.Some? then ByLanguage(tagOf, texts, lang.value) else None;
    if byLanguage.Some? then
      PathsWithLanguageMembers(tagOf, texts, lang.value);
      byLanguage
    else ByName(texts, stem)
  }

  /** The language reported with the image: the chosen reference's tag, else the image's own,
      else `en`. */
  function LanguageFor(tagOf: string -> Option<string>, imagePath: string, texts: seq<string>): string
  {
    var own := tagOf(PathStem(imagePath));
    var chosen := ReferenceFor(tagOf, imagePath, texts);
    var fromReference := if chosen.Some? then FileTag(tagOf, chosen.value) else None;
    if fromReference.Some? then fromReference.value
    else if own.Some? then own.value
    else "en"
  }

  /** The reported language is a tag some text carries, the image's own tag, or `en`. */
  lemma LanguageForSource(tagOf: string -> Option<string>, imagePath: string, texts: seq<string>)
    ensures var r := LanguageFor(tagOf, imagePath, texts);
      || r == "en"
      || Some(r) == tagOf(PathStem(imagePath))
      || exists p :: p in texts && FileTag(tagOf, p) == Some(r)
  {
  }

  /** With tags read by `LanguageFromStem`, the reported language is always `en` or a tag. */
  lemma LanguageForShape(imagePath: string, texts: seq<string>)
    ensures LanguageFor(LanguageFromStem, imagePath, texts) == "en"
      || TagShape(LanguageFor(LanguageFromStem, imagePath, texts))
  {
  }

  /** When some text carries the image's tag, the choice is such a text: the smallest `.docx`
      one if there is a `.docx` among them, the smallest overall otherwise. The reported
      language is then that tag. */
  lemma ChoiceByLanguage(tagOf: string -> Option<string>, imagePath: string, texts: seq<string>,
                         lang: string)
    requires tagOf(PathStem(imagePath)) == Some(lang)
    requires exists p :: p in texts && FileTag(tagOf, p) == Some(lang)
    ensures var r := ReferenceFor(tagOf, imagePath, texts);
      && r.Some? && r.value in texts && FileTag(tagOf, r.value) == Some(lang)
      && ((exists p :: p in texts && FileTag(tagOf, p) == Some(lang) && IsDocxPath(p)) ==>
            IsDocxPath(r.value)
            && forall p :: p in texts && FileTag(tagOf, p) == Some(lang) && IsDocxPath(p) ==> LexLe(r.value, p))
      && ((forall p :: p in texts && FileTag(tagOf, p) == Some(lang) ==> !IsDocxPath(p)) ==>
            forall p :: p in texts && FileTag(tagOf, p) == Some(lang) ==> LexLe(r.value, p))
    ensures LanguageFor(tagOf, imagePath, texts) == lang
  {
    var tagged := PathsWithLanguage(tagOf, texts, lang);
    PathsWithLanguageMembers(tagOf, texts, lang);
    var p :| p in texts && FileTag(tagOf, p) == Some(lang);
    assert p in tagged;
    var docx := DocxPaths(tagged);
    if exists q :: q in texts && FileTag(tagOf, q) == Some(lang) && IsDocxPath(q) {
      var q :| q in texts && FileTag(tagOf, q) == Some(lang) && IsDocxPath(q);
      assert q in docx;
    }
  }

  /** Without a tagged text, a non-empty stem prefix contained in some text's stem picks the
      first such text. */
  lemma ChoiceByPrefix(tagOf: string -> Option<string>, imagePath: string, texts: seq<string>)
    requires var lang := tagOf(PathStem(imagePath));
      lang.None? || forall p :: p in texts ==> FileTag(tagOf, p) != Some(lang.value)
    requires StemPrefix(PathStem(imagePath)) != ""
    requires exists p :: p in texts && StemContains(p, StemPrefix(PathStem(imagePath)))
    ensures ReferenceFor(tagOf, imagePath, texts) == FirstStemContaining(texts, StemPrefix(PathStem(imagePath)))
  {
    var stem := PathStem(imagePath);
    var lang := tagOf(stem);
    if lang.Some? {
      PathsWithLanguageEmpty(tagOf, texts, lang.value);
    }
    var r := FirstStemContaining(texts, StemPrefix(stem));
    assert r.Some?;
  }

  /** Without a tagged text and without a usable prefix, a non-empty stem picks the first text
      whose stem contains it, or none. */
  lemma ChoiceByStem(tagOf: string -> Option<string>, imagePath: string, texts: seq<string>)
    requires var lang := tagOf(PathStem(imagePath));
      lang.None? || forall p :: p in texts ==> FileTag(tagOf, p) != Some(lang.value)
    requires var prefix := StemPrefix(PathStem(imagePath));
      prefix == "" || forall p :: p in texts ==> !StemContains(p, prefix)
    requires PathStem(imagePath) != ""
    ensures ReferenceFor(tagOf, imagePath, texts) == FirstStemContaining(texts, PathStem(imagePath))
  {
    var stem := PathStem(imagePath);
    var lang := tagOf(stem);
    if lang.Some? {
      PathsWithLanguageEmpty(tagOf, texts, lang.value);
    }
  }

  /** Nothing is chosen only when no rule finds a text; the language is then the image's own
      tag or `en`. */
  lemma NoChoice(tagOf: string -> Option<string>, imagePath: string, texts: seq<string>)
    requires ReferenceFor(tagOf, imagePath, texts).None?
    ensures var stem := PathStem(imagePath);
      && (stem != "" ==> forall p :: p in texts ==> !StemContains(p, stem))
      && LanguageFor(tagOf, imagePath, texts) == (if tagOf(stem).Some? then tagOf(stem).value else "en")
  {
  }

  /** The part of the loop over images in `parse_zip_streaming` that chooses the reference path
      and the language, given `texts_by_lang`. */
  method ChooseReference(imagePath: string, texts: seq<string>, textsByLang: map<string, seq<string>>)
    returns (chosen: Option<string>, language: string)
    requires textsByLang == LanguageIndex(LanguageFromStem, texts)
    ensures (chosen, language) == Choice(imagePath, texts)
  {
    LanguageIndexIsIndex(LanguageFromStem, texts);
    var stem := PathStem(imagePath);
    var imageLang := LanguageFromStem(stem);
    language := if imageLang.Some? then imageLang.value else "en";
    chosen := None;
    if imageLang.Some? && imageLang.value in textsByLang {
      var candidates := textsByLang[imageLang.value];
      var docx := DocxPaths(candidates);
      chosen := Some(Smallest(if docx != [] then docx else candidates));
    }
    if chosen.None? {
      var prefix := StemPrefix(stem);
      if prefix != "" {
        chosen := FirstStemContainingLoop(texts, prefix);
      }
    }
    if chosen.None? && stem != "" {
      chosen := FirstStemContainingLoop(texts, stem);
    }
    if chosen.Some? {
      var fromReference := LanguageFromFilename(chosen.value);
      if fromReference.Some? {
        language := fromReference.value;
      }
    }
  }

  /** The `for txt_path in texts: if part in Path(txt_path).stem: … break` loops. */
  method FirstStemContainingLoop(texts: seq<string>, part: string) returns (found: Option<string>)
    ensures found == FirstStemContaining(texts, part)
  {
    found := None;
    var i := 0;
    while i < |texts|
      invariant 0 <= i <= |texts|
      invariant FirstStemIndex(texts, part, 0) == FirstStemIndex(texts, part, i)
    {
      if StemContains(texts[i], part) {
        found := Some(texts[i]);
        return;
      }
      i := i + 1;
    }
  }

  /** The reference path and the language of one image, with the system's tags. */
  function Choice(imagePath: string, texts: seq<string>): (Option<string>, string)
  {
    (ReferenceFor(LanguageFromStem, imagePath, texts), LanguageFor(LanguageFromStem, imagePath, texts))
  }

  /** The choices for a list of images, in image order. */
  function Choices(images: seq<string>, texts: seq<string>): (r: seq<(Option<string>, string)>)
    ensures |r| == |images|
    ensures forall k :: 0 <= k < |images| ==> r[k] == Choice(images[k], texts)
    decreases |images|
  {
    if |images| == 0 then []
    else
      var init := images[..|images| - 1];
      assert forall k :: 0 <= k < |init| ==> init[k] == images[k];
      Choices(init, texts) + [Choice(images[|images| - 1], texts)]
  }

  /** One more image adds its own choice at the end. */
  lemma ChoicesStep(images: seq<string>, texts: seq<string>, i: nat)
    requires i < |images|
    ensures Choices(images[..i + 1], texts) == Choices(images[..i], texts) + [Choice(images[i], texts)]
  {
    assert images[..i + 1][..i] == images[..i];
  }

  /** The loop over the images of `parse_zip_streaming`, after `texts_by_lang` is built. */
  method ChooseReferences(images: seq<string>, texts: seq<string>)
    returns (choices: seq<(Option<string>, string)>)
    ensures choices == Choices(images, texts)
  {
    var textsByLang := BuildLanguageIndex(texts);
    choices := [];
    var i := 0;
    while i < |images|
      invariant 0 <= i <= |images|
      invariant choices == Choices(images[..i], texts)
    {
      var chosen, language := ChooseReference(images[i], texts, textsByLang);
      ChoicesStep(images, texts, i);
      choices := choices + [(chosen, language)];
      i := i + 1;
    }
    assert images[..i] == images;
  }
}
