/** Section candidates of a reference document (shared/docx_section_extractor.py): the document's
    lines are cut into sections at header lines or, when there are none, at runs of two or more
    blank lines, and each section becomes a candidate for the reference matcher. */
module SectionExtractor {
  import opened Builtins

  /** Section-name keywords that raise a candidate's priority. */
  const HighPriorityKeywords: set<string> := {"banner", "pic", "im", "popup"}

  /** Section-name keywords that lower a candidate's priority. */
  const LowPriorityKeywords: set<string> := {"news", "email", "letter", "subject"}

  /** A candidate section: its header line (if any), its text, where it came from and the parts of
      its header. */
  datatype SectionCandidate = SectionCandidate(
    headerText: Option<string>,
    contentText: string,
    sourcePath: string,
    language: string,
    sectionNumber: Option<string>,
    sectionName: Option<string>)

  /** A section as the segmenters produce it: an optional header line and its content lines. */
  datatype Section = Section(header: Option<string>, content: seq<string>)

  predicate IsDigit(c: char)
  {
    '0' <= c <= '9'
  }

  predicate IsUpper(c: char)
  {
    'A' <= c <= 'Z'
  }

  /** Where `$` can match at the latest: the end, or just before a final line feed. */
  function LineEnd(s: string): (n: nat)
    ensures n <= |s| && |s| - 1 <= n
  {
    if |s| > 0 && s[|s| - 1] == '\n' then |s| - 1 else |s|
  }

  /** `.+$` matches from position `p`: it is followed by at least one character and no line feed
      before `LineEnd(s)`. */
  predicate DotPlusEndsAt(s: string, p: nat)
  {
    p < LineEnd(s) && forall k :: p <= k < LineEnd(s) ==> s[k] != '\n'
  }

  /** The position at which `\s*` hands over to `.+$`: the greedy `\s*` ends at `p` at first and
      backs off one character at a time, down to `lo`, until `.+$` matches. */
  function GroupStart(s: string, lo: nat, p: nat): (r: Option<nat>)
    requires lo <= p <= |s|
    ensures r.Some? ==> lo <= r.value <= p && DotPlusEndsAt(s, r.value)
    ensures r.Some? ==> forall q :: r.value < q <= p ==> !DotPlusEndsAt(s, q)
    ensures r.None? ==> forall q :: lo <= q <= p ==> !DotPlusEndsAt(s, q)
    decreases p - lo
  {
    if DotPlusEndsAt(s, p) then Some(p) else if p == lo then None else GroupStart(s, lo, p - 1)
  }

  /** The match of `^(\d+)[.)]\s*(.+)$` against `s`, as its two groups. */
  function NumberedHeader(s: string): (r: Option<(string, string)>)
    ensures r.Some? ==> |r.value.0| > 0 && r.value.0 <= s
    ensures r.Some? ==> (forall k :: 0 <= k < |r.value.0| ==> IsDigit(r.value.0[k]))
    ensures r.Some? ==> |r.value.0| < |s| && (s[|r.value.0|] == '.' || s[|r.value.0|] == ')')
    ensures r.Some? ==> |r.value.1| > 0 && '\n' !in r.value.1
    ensures r.Some? ==> |r.value.0| < LineEnd(s) - |r.value.1|
    ensures r.Some? ==> r.value.1 == s[LineEnd(s) - |r.value.1|..LineEnd(s)]
    ensures r.Some? ==> forall k :: |r.value.0| < k < LineEnd(s) - |r.value.1| ==> IsSpace(s[k])
    ensures |s| == 0 || !IsDigit(s[0]) ==> r.None?
  {
    var d := PrefixLen(s, IsDigit);
    if d == 0 || d == |s| || (s[d] != '.' && s[d] != ')') then None
    else
      var e := d + 1 + PrefixLen(s[d + 1..], IsSpace);
      match GroupStart(s, d + 1, e)
      case None => None
      case Some(p) =>
        Some((s[..d], s[p..LineEnd(s)]))
  }

  /** `^([A-Z][A-Z\s]{2,})$` matches `s`; its group is then the whole of `s`, because the final
      line feed that `$` may stand before is itself in `\s`. */
  predicate CapsHeader(s: string)
  {
    |s| >= 3 && IsUpper(s[0]) && forall k :: 1 <= k < |s| ==> IsUpper(s[k]) || IsSpace(s[k])
  }

  /** `_parse_header`: (section number, section name) from the first header pattern that matches,
      or neither. */
  function ParseHeader(line: string): (r: (Option<string>, Option<string>))
    ensures r.1.None? ==> r.0.None?
    ensures r.1.Some? ==> |r.1.value| > 0
    ensures r.0.Some? ==> |r.0.value| > 0 && r.0.value <= line
    ensures r.0.Some? ==> forall k :: 0 <= k < |r.0.value| ==> IsDigit(r.0.value[k])
    ensures r.0.Some? ==> |r.0.value| < LineEnd(line) - |r.1.value|
    ensures r.0.Some? ==> r.1.value == line[LineEnd(line) - |r.1.value|..LineEnd(line)]
    ensures r.0.None? && r.1.Some? ==> r.1.value == line && CapsHeader(line)
    ensures r.1.Some? <==> NumberedHeader(line).Some? || CapsHeader(line)
  {
    match NumberedHeader(line)
    case Some(groups) => (Some(groups.0), Some(groups.1))
    case None => if CapsHeader(line) then (None, Some(line)) else (None, None)
  }

  /** The section name is part of the header line. */
  lemma HeaderNameInLine(line: string)
    requires ParseHeader(line).1.Some?
    ensures IsSubstring(ParseHeader(line).1.value, line)
  {
    var name := ParseHeader(line).1.value;
    if ParseHeader(line).0.Some? {
      var j := LineEnd(line) - |name|;
      assert line[j..j + |name|] == name;
      SubstringAt(name, line, j);
    } else {
      SubstringAt(line, line, 0);
    }
  }

  /** A line the segmenter treats as a header (`if name:`). */
  predicate IsHeaderLine(line: string)
  {
    Truthy(ParseHeader(line).1)
  }

  /** The numbered pattern on a line of that form: digits up to `d`, then `.` or `)`,
      whitespace up to `e`, then a one-line name that does not start with whitespace. */
  lemma NumberedHeaderMatch(s: string, d: nat, e: nat)
    requires 0 < d < e <= |s| - 1
    requires forall k :: 0 <= k < d ==> IsDigit(s[k])
    requires s[d] == '.' || s[d] == ')'
    requires forall k :: d < k < e ==> IsSpace(s[k])
    requires !IsSpace(s[e]) && forall k :: e <= k < |s| ==> s[k] != '\n'
    ensures NumberedHeader(s) == Some((s[..d], s[e..]))
  {
    PrefixLenUnique(s, IsDigit, d);
    SpacesEndAt(s, d + 1, e);
    NameStartsAt(s, d + 1, e);
    NumberedHeaderGroups(s, d, e);
  }

  /** The groups once the digit run, the whitespace run and the name's start are known. */
  lemma NumberedHeaderGroups(s: string, d: nat, e: nat)
    requires 0 < d < e <= |s| - 1 && (s[d] == '.' || s[d] == ')')
    requires PrefixLen(s, IsDigit) == d && d + 1 + PrefixLen(s[d + 1..], IsSpace) == e
    requires GroupStart(s, d + 1, e) == Some(e) && s[e..LineEnd(s)] == s[e..]
    ensures NumberedHeader(s) == Some((s[..d], s[e..]))
  {
  }

  /** Whitespace from `i` up to `e`, and none at `e`: `\s*` from `i` ends at `e`. */
  lemma SpacesEndAt(s: string, i: nat, e: nat)
    requires i <= e < |s|
    requires forall k :: i <= k < e ==> IsSpace(s[k])
    requires !IsSpace(s[e])
    ensures i + PrefixLen(s[i..], IsSpace) == e
  {
    var tail := s[i..];
    assert forall k :: 0 <= k < e - i ==> tail[k] == s[i + k];
    assert tail[e - i] == s[e];
    PrefixLenUnique(tail, IsSpace, e - i);
  }

  /** No line feed from `e` on: `.+$` matches at `e` at once, up to the end. */
  lemma NameStartsAt(s: string, lo: nat, e: nat)
    requires lo <= e < |s|
    requires forall k :: e <= k < |s| ==> s[k] != '\n'
    ensures GroupStart(s, lo, e) == Some(e)
    ensures s[e..LineEnd(s)] == s[e..]
  {
    assert LineEnd(s) == |s|;
    assert DotPlusEndsAt(s, e);
  }

  /** A numbered header line gives its digits as the number and the rest after the whitespace
      as the name. */
  lemma NumberedHeaderParts(s: string, d: nat, e: nat)
    requires 0 < d < e <= |s| - 1
    requires forall k :: 0 <= k < d ==> IsDigit(s[k])
    requires s[d] == '.' || s[d] == ')'
    requires forall k :: d < k < e ==> IsSpace(s[k])
    requires !IsSpace(s[e]) && forall k :: e <= k < |s| ==> s[k] != '\n'
    ensures ParseHeader(s) == (Some(s[..d]), Some(s[e..]))
  {
    NumberedHeaderMatch(s, d, e);
  }

  /** A capitals-only header: an upper-case letter and at least two upper-case letters or
      whitespace characters, not starting with a digit. */
  lemma CapsHeaderWhole(line: string)
    requires CapsHeader(line)
    ensures ParseHeader(line) == (None, Some(line))
  {
  }

  /** A numbered header example of the tests: the number keeps its leading zero and the name its
      inner space. */
  lemma NumberedHeaderExample()
    ensures ParseHeader("01. EMAIL TEXT") == (Some("01"), Some("EMAIL TEXT"))
  {
    var t := "01. EMAIL TEXT";
    assert IsDigit(t[0]) && IsDigit(t[1]) && t[2] == '.' && IsSpace(t[3]) && !IsSpace(t[4]);
    assert forall k :: 4 <= k < |t| ==> t[k] != '\n';
    NumberedHeaderParts(t, 2, 4);
    assert t[..2] == "01" && t[4..] == "EMAIL TEXT";
  }

  /** The unnumbered header examples of the tests: a capitals-only line is a header, ordinary
      text is not. */
  lemma UnnumberedHeaderExamples()
    ensures ParseHeader("BANNER") == (None, Some("BANNER"))
    ensures ParseHeader("normal text") == (None, None)
  {
    CapsHeaderWhole("BANNER");
    assert !IsDigit("normal text"[0]) && !IsUpper("normal text"[0]);
  }

  /** `_is_subject_line`: the lower-cased line starts with "subject:". */
  predicate IsSubjectLine(line: string)
    ensures IsSubjectLine(line) ==> |line| >= 8 && !IsSpace(line[0])
  {
    if |line| == 0 then false
    else LowerAt(line, 0); "subject:" <= Lower(line)
  }

  /** The subject check looks at the first eight characters, ignoring ASCII case. */
  lemma SubjectLineChars(line: string)
    ensures IsSubjectLine(line) <==> |line| >= 8 && forall k :: 0 <= k < 8 ==> LowerChar(line[k]) == "subject:"[k]
  {
    forall k | 0 <= k < |line| && k < 8 {
      LowerAt(line, k);
    }
  }

  /** The subject check does not depend on letter case. */
  lemma SubjectLineIgnoresCase(line: string)
    ensures IsSubjectLine(Lower(line)) == IsSubjectLine(line)
  {
    SubjectLineChars(line);
    SubjectLineChars(Lower(line));
    forall k | 0 <= k < |line| {
      LowerAt(line, k);
    }
  }

  /** The subject-line examples of the tests: "Subject:", "subject:" and "SUBJECT:" followed by
      anything, but not a line whose first letter is not an s. */
  lemma SubjectLineExamples(rest: string, other: string)
    requires |other| > 0 && LowerChar(other[0]) != 's'
    ensures IsSubjectLine("Subject:" + rest)
    ensures IsSubjectLine("subject:" + rest)
    ensures IsSubjectLine("SUBJECT:" + rest)
    ensures !IsSubjectLine(other)
  {
    SubjectPrefix("Subject:", rest);
    SubjectPrefix("subject:", rest);
    SubjectPrefix("SUBJECT:", rest);
    SubjectLineChars(other);
  }

  /** A line starting with any casing of "subject:" is a subject line. */
  lemma SubjectPrefix(head: string, rest: string)
    requires Lower(head) == "subject:"
    ensures IsSubjectLine(head + rest)
  {
    LowerAppend(head, rest);
  }

  /** A line that `strip()` empties. */
  predicate IsBlankLine(line: string)
  {
    forall k :: 0 <= k < |line| ==> IsSpace(line[k])
  }

  /** Close the section being built: it is kept only when it has content. */
  function Flush(header: Option<string>, content: seq<string>): (r: seq<Section>)
    ensures |r| <= 1
    ensures |r| == 1 <==> |content| > 0
    ensures |r| == 1 ==> r[0] == Section(header, content)
  {
    if |content| > 0 then [Section(header, content)] else []
  }

  /** The content lines of the sections, in order. */
  function AllContent(ss: seq<Section>): seq<string>
  {
    if |ss| == 0 then [] else ss[0].content + AllContent(ss[1..])
  }

  lemma {:induction false} AllContentAppend(a: seq<Section>, b: seq<Section>)
    ensures AllContent(a + b) == AllContent(a) + AllContent(b)
  {
    if |a| > 0 {
      assert (a + b)[0] == a[0];
      assert (a + b)[1..] == a[1..] + b;
      AllContentAppend(a[1..], b);
    } else {
      assert a + b == b;
    }
  }

  /** `_segment_by_headers` from the state (`header`, `content`) onwards: subject lines are
      dropped, a header line closes the current section and opens a new one, any other line is
      appended to the current section. */
  function HeaderSegments(lines: seq<string>, header: Option<string>, content: seq<string>)
    : (r: seq<Section>)
    ensures forall k :: 0 <= k < |r| ==> |r[k].content| > 0
    decreases |lines|
  {
    if |lines| == 0 then Flush(header, content)
    else
      var line := lines[0];
      if IsSubjectLine(line) then HeaderSegments(lines[1..], header, content)
      else if IsHeaderLine(line) then Flush(header, content) + HeaderSegments(lines[1..], Some(line), [])
      else HeaderSegments(lines[1..], header, content + [line])
  }

  /** The lines that header segmentation places in sections: neither subject nor header lines. */
  function BodyLines(lines: seq<string>): seq<string>
  {
    if |lines| == 0 then []
    else if IsSubjectLine(lines[0]) || IsHeaderLine(lines[0]) then BodyLines(lines[1..])
    else [lines[0]] + BodyLines(lines[1..])
  }

  /** The body lines are neither subject nor header lines. */
  lemma {:induction false} BodyLinesSkip(lines: seq<string>)
    ensures forall k :: 0 <= k < |BodyLines(lines)| ==> !IsSubjectLine(BodyLines(lines)[k]) && !IsHeaderLine(BodyLines(lines)[k])
  {
    if |lines| > 0 {
      BodyLinesSkip(lines[1..]);
    }
  }

  /** Header segmentation loses no body line and invents none: the sections' contents, read in
      order, are the pending content followed by the body lines. */
  lemma {:induction false} HeaderSegmentsContent(lines: seq<string>, header: Option<string>,
                                                 content: seq<string>)
    ensures AllContent(HeaderSegments(lines, header, content)) == content + BodyLines(lines)
    decreases |lines|, 1
  {
    if |lines| == 0 {
      assert AllContent(Flush(header, content)) == content;
    } else if IsSubjectLine(lines[0]) {
      HeaderSegmentsContent(lines[1..], header, content);
      assert HeaderSegments(lines, header, content) == HeaderSegments(lines[1..], header, content);
    } else if IsHeaderLine(lines[0]) {
      HeaderSegmentsContentAtHeader(lines, header, content);
    } else {
      HeaderSegmentsContentAtBody(lines, header, content);
    }
  }

  /** The step of `HeaderSegmentsContent` at a header line: the line closes the section. */
  lemma {:induction false} HeaderSegmentsContentAtHeader(lines: seq<string>, header: Option<string>,
                                                         content: seq<string>)
    requires |lines| > 0 && !IsSubjectLine(lines[0]) && IsHeaderLine(lines[0])
    ensures AllContent(HeaderSegments(lines, header, content)) == content + BodyLines(lines)
    decreases |lines|, 0
  {
    var line := lines[0];
    var rest := HeaderSegments(lines[1..], Some(line), []);
    assert HeaderSegments(lines, header, content) == Flush(header, content) + rest;
    assert BodyLines(lines) == BodyLines(lines[1..]);
    HeaderSegmentsContent(lines[1..], Some(line), []);
    assert AllContent(Flush(header, content)) == content;
    ConcatContent(HeaderSegments(lines, header, content), Flush(header, content), rest,
                  content, BodyLines(lines[1..]));
  }

  /** The content of two runs of sections put together is the content of the first followed by
      the content of the second. */
  lemma ConcatContent(x: seq<Section>, head: seq<Section>, tail: seq<Section>,
                      pending: seq<string>, after: seq<string>)
    requires x == head + tail && AllContent(head) == pending && AllContent(tail) == [] + after
    ensures AllContent(x) == pending + after
  {
    AllContentAppend(head, tail);
  }

  /** The step of `HeaderSegmentsContent` at a body line: the line joins the section. */
  lemma {:induction false} HeaderSegmentsContentAtBody(lines: seq<string>, header: Option<string>,
                                                       content: seq<string>)
    requires |lines| > 0 && !IsSubjectLine(lines[0]) && !IsHeaderLine(lines[0])
    ensures AllContent(HeaderSegments(lines, header, content)) == content + BodyLines(lines)
    decreases |lines|, 0
  {
    var line := lines[0];
    HeaderSegmentsContent(lines[1..], header, content + [line]);
    assert HeaderSegments(lines, header, content) == HeaderSegments(lines[1..], header, content + [line]);
    assert BodyLines(lines) == [line] + BodyLines(lines[1..]);
    JoinContent(HeaderSegments(lines, header, content), HeaderSegments(lines[1..], header, content + [line]),
                content, line, BodyLines(lines[1..]));
  }

  /** Concatenating sections is associative. */
  lemma SectionsAssoc(a: seq<Section>, b: seq<Section>, c: seq<Section>)
    ensures (a + b) + c == a + (b + c)
  {
  }

  /** `_segment_by_headers`. */
  method SegmentByHeaders(lines: seq<string>) returns (sections: seq<Section>)
    ensures sections == HeaderSegments(lines, None, [])
  {
    sections := [];
    var header: Option<string> := None;
    var content: seq<string> := [];
    var i := 0;
    while i < |lines|
      invariant 0 <= i <= |lines|
      invariant sections + HeaderSegments(lines[i..], header, content) == HeaderSegments(lines, None, [])
    {
      var line := lines[i];
      assert lines[i..][1..] == lines[i + 1..];
      if IsSubjectLine(line) {
        i := i + 1;
        continue;
      }
      var parsed := ParseHeader(line);
      if Truthy(parsed.1) {
        assert HeaderSegments(lines[i..], header, content)
          == Flush(header, content) + HeaderSegments(lines[i + 1..], Some(line), []);
        SectionsAssoc(sections, Flush(header, content), HeaderSegments(lines[i + 1..], Some(line), []));
        sections := sections + Flush(header, content);
        header := Some(line);
        content := [];
      } else {
        assert HeaderSegments(lines[i..], header, content) == HeaderSegments(lines[i + 1..], header, content + [line]);
        content := content + [line];
      }
      i := i + 1;
    }
    sections := sections + Flush(header, content);
  }

  /** `_segment_by_blank_lines` from the state (`block`, `blanks`) onwards: subject lines are
      dropped, blank lines are counted and dropped, and a non-blank line after two or more blank
      lines closes the current block and opens a new one. */
  function BlankSegments(lines: seq<string>, block: seq<string>, blanks: nat): (r: seq<Section>)
    ensures forall k :: 0 <= k < |r| ==> |r[k].content| > 0 && r[k].header.None?
    decreases |lines|
  {
    if |lines| == 0 then Flush(None, block)
    else
      var line := lines[0];
      if IsSubjectLine(line) then BlankSegments(lines[1..], block, blanks)
      else if IsBlankLine(line) then BlankSegments(lines[1..], block, blanks + 1)
      else if blanks >= 2 && |block| > 0 then [Section(None, block)] + BlankSegments(lines[1..], [line], 0)
      else BlankSegments(lines[1..], block + [line], 0)
  }

  /** The lines that blank-line segmentation places in blocks: neither subject nor blank lines. */
  function TextLines(lines: seq<string>): seq<string>
  {
    if |lines| == 0 then []
    else if IsSubjectLine(lines[0]) || IsBlankLine(lines[0]) then TextLines(lines[1..])
    else [lines[0]] + TextLines(lines[1..])
  }

  /** The text lines are neither subject nor blank lines. */
  lemma {:induction false} TextLinesSkip(lines: seq<string>)
    ensures forall k :: 0 <= k < |TextLines(lines)| ==> !IsSubjectLine(TextLines(lines)[k]) && !IsBlankLine(TextLines(lines)[k])
  {
    if |lines| > 0 {
      TextLinesSkip(lines[1..]);
    }
  }

  /** The blocks, read in order, are the pending block followed by the non-blank lines. */
  lemma {:induction false} BlankSegmentsContent(lines: seq<string>, block: seq<string>, blanks: nat)
    ensures AllContent(BlankSegments(lines, block, blanks)) == block + TextLines(lines)
    decreases |lines|, 1
  {
    if |lines| == 0 {
      assert AllContent(Flush(None, block)) == block;
    } else if IsSubjectLine(lines[0]) {
      BlankSegmentsContent(lines[1..], block, blanks);
      assert BlankSegments(lines, block, blanks) == BlankSegments(lines[1..], block, blanks);
    } else if IsBlankLine(lines[0]) {
      BlankSegmentsContent(lines[1..], block, blanks + 1);
      assert BlankSegments(lines, block, blanks) == BlankSegments(lines[1..], block, blanks + 1);
    } else {
      assert lines == [lines[0]] + lines[1..];
      if blanks >= 2 && |block| > 0 {
        BlankSegmentsContentAtSplit(lines[0], lines[1..], block, blanks);
      } else {
        BlankSegmentsContentAtJoin(lines[0], lines[1..], block, blanks);
      }
    }
  }

  /** A text line after at least two blank lines closes the open block and opens a new one;
      it comes next in the content. */
  lemma {:induction false} BlankSegmentsContentAtSplit(line: string, rest: seq<string>, block: seq<string>,
                                                       blanks: nat)
    requires !IsSubjectLine(line) && !IsBlankLine(line) && blanks >= 2 && |block| > 0
    ensures AllContent(BlankSegments([line] + rest, block, blanks)) == block + TextLines([line] + rest)
    decreases |rest| + 1, 0
  {
    TextLinesCons(line, rest);
    BlankSegmentsCons(line, rest, block, blanks);
    BlankSegmentsContent(rest, [line], 0);
    SplitContent(block, BlankSegments(rest, [line], 0), [line] + TextLines(rest));
  }

  /** Any other text line joins the open block; it comes next in the content. */
  lemma {:induction false} BlankSegmentsContentAtJoin(line: string, rest: seq<string>, block: seq<string>,
                                                      blanks: nat)
    requires !IsSubjectLine(line) && !IsBlankLine(line) && !(blanks >= 2 && |block| > 0)
    ensures AllContent(BlankSegments([line] + rest, block, blanks)) == block + TextLines([line] + rest)
    decreases |rest| + 1, 0
  {
    TextLinesCons(line, rest);
    BlankSegmentsCons(line, rest, block, blanks);
    BlankSegmentsContent(rest, block + [line], 0);
    JoinContent(BlankSegments([line] + rest, block, blanks), BlankSegments(rest, block + [line], 0),
                block, line, TextLines(rest));
  }

  /** Appending a line to the pending lines and then the later lines gives the pending lines
      followed by the line and the later lines. */
  lemma JoinContent(x: seq<Section>, y: seq<Section>, block: seq<string>, line: string, text: seq<string>)
    requires x == y && AllContent(y) == (block + [line]) + text
    ensures AllContent(x) == block + ([line] + text)
  {
  }

  /** A text line is the first of the text lines. */
  lemma TextLinesCons(line: string, rest: seq<string>)
    requires !IsSubjectLine(line) && !IsBlankLine(line)
    ensures TextLines([line] + rest) == [line] + TextLines(rest)
  {
    assert ([line] + rest)[0] == line && ([line] + rest)[1..] == rest;
  }

  /** Closing a block puts its lines before the content of the blocks after it. */
  lemma SplitContent(block: seq<string>, rest: seq<Section>, after: seq<string>)
    requires AllContent(rest) == after
    ensures AllContent([Section(None, block)] + rest) == block + after
  {
    assert ([Section(None, block)] + rest)[1..] == rest;
  }

  /** The lines blank-line segmentation looks at: all but the subject lines. */
  function NonSubjectLines(lines: seq<string>): (r: seq<string>)
    ensures |r| <= |lines|
    ensures forall k :: 0 <= k < |r| ==> !IsSubjectLine(r[k]) && r[k] in lines
  {
    if |lines| == 0 then []
    else if IsSubjectLine(lines[0]) then NonSubjectLines(lines[1..])
    else [lines[0]] + NonSubjectLines(lines[1..])
  }

  /** Subject lines are invisible to blank-line segmentation: they neither end a run of blank
      lines nor count in it. */
  lemma {:induction false} BlankSegmentsIgnoreSubjects(lines: seq<string>, block: seq<string>, blanks: nat)
    ensures BlankSegments(lines, block, blanks) == BlankSegments(NonSubjectLines(lines), block, blanks)
    decreases |lines|
  {
    if |lines| > 0 {
      var line := lines[0];
      var rest := lines[1..];
      if IsSubjectLine(line) {
        BlankSegmentsIgnoreSubjects(rest, block, blanks);
      } else {
        assert lines == [line] + rest;
        assert NonSubjectLines(lines) == [line] + NonSubjectLines(rest);
        BlankSegmentsCons(line, rest, block, blanks);
        BlankSegmentsCons(line, NonSubjectLines(rest), block, blanks);
        if IsBlankLine(line) {
          BlankSegmentsIgnoreSubjects(rest, block, blanks + 1);
        } else if blanks >= 2 && |block| > 0 {
          BlankSegmentsIgnoreSubjects(rest, [line], 0);
        } else {
          BlankSegmentsIgnoreSubjects(rest, block + [line], 0);
        }
      }
    }
  }

  /** The lines from a gap on start with the gap's first line, or with the line after it. */
  lemma GapSplit(gap: seq<string>, line: string, rest: seq<string>)
    ensures |gap| == 0 ==> gap + [line] + rest == [line] + rest
    ensures |gap| > 0 ==> gap + [line] + rest == [gap[0]] + (gap[1..] + [line] + rest)
  {
    if |gap| > 0 {
      assert gap == [gap[0]] + gap[1..];
    }
  }

  /** Blank-line segmentation drops a subject line. */
  lemma BlankSegmentsSkipSubject(line: string, rest: seq<string>, block: seq<string>, blanks: nat)
    requires IsSubjectLine(line)
    ensures BlankSegments([line] + rest, block, blanks) == BlankSegments(rest, block, blanks)
  {
    assert ([line] + rest)[0] == line && ([line] + rest)[1..] == rest;
  }

  /** One step of blank-line segmentation at a line that is not a subject line. */
  lemma BlankSegmentsCons(line: string, rest: seq<string>, block: seq<string>, blanks: nat)
    requires !IsSubjectLine(line)
    ensures BlankSegments([line] + rest, block, blanks) ==
      if IsBlankLine(line) then BlankSegments(rest, block, blanks + 1)
      else if blanks >= 2 && |block| > 0 then [Section(None, block)] + BlankSegments(rest, [line], 0)
      else BlankSegments(rest, block + [line], 0)
  {
    assert ([line] + rest)[0] == line && ([line] + rest)[1..] == rest;
  }

  /** Single blank lines do not split: when, subject lines set aside, no two blank lines are
      adjacent (counting the blank lines already seen), everything lands in at most one block. */
  lemma {:induction false} BlankSegmentsSingleBlock(lines: seq<string>, block: seq<string>, blanks: nat)
    requires var t := NonSubjectLines(lines);
      forall k :: 0 <= k < |t| - 1 ==> !(IsBlankLine(t[k]) && IsBlankLine(t[k + 1]))
    requires var t := NonSubjectLines(lines);
      blanks <= 1 && (blanks == 1 && |t| > 0 ==> !IsBlankLine(t[0]))
    ensures |BlankSegments(lines, block, blanks)| <= 1
    decreases |lines|
  {
    if |lines| > 0 {
      var rest := lines[1..];
      if IsSubjectLine(lines[0]) {
        BlankSegmentsSingleBlock(rest, block, blanks);
      } else {
        var t := NonSubjectLines(lines);
        assert t[0] == lines[0] && t[1..] == NonSubjectLines(rest);
        if IsBlankLine(lines[0]) {
          BlankSegmentsSingleBlock(rest, block, blanks + 1);
        } else {
          BlankSegmentsSingleBlock(rest, block + [lines[0]], 0);
        }
      }
    }
  }

  /** A text line starts a new block exactly when at least two blank lines, subject lines not
      counted, lie between it and the previous text line (`blanks` counts those already seen) and
      a block is open; otherwise it joins the open block. */
  lemma {:induction false} BlankSegmentsAfterGap(gap: seq<string>, line: string, rest: seq<string>,
                                                block: seq<string>, blanks: nat)
    requires forall k :: 0 <= k < |NonSubjectLines(gap)| ==> IsBlankLine(NonSubjectLines(gap)[k])
    requires !IsSubjectLine(line) && !IsBlankLine(line)
    ensures BlankSegments(gap + [line] + rest, block, blanks) ==
      if blanks + |NonSubjectLines(gap)| >= 2 && |block| > 0
      then [Section(None, block)] + BlankSegments(rest, [line], 0)
      else BlankSegments(rest, block + [line], 0)
    decreases |gap|
  {
    GapSplit(gap, line, rest);
    if |gap| == 0 {
      BlankSegmentsCons(line, rest, block, blanks);
    } else {
      var later := gap[1..] + [line] + rest;
      if IsSubjectLine(gap[0]) {
        assert NonSubjectLines(gap) == NonSubjectLines(gap[1..]);
        BlankSegmentsSkipSubject(gap[0], later, block, blanks);
        BlankSegmentsAfterGap(gap[1..], line, rest, block, blanks);
      } else {
        assert NonSubjectLines(gap)[0] == gap[0] && NonSubjectLines(gap)[1..] == NonSubjectLines(gap[1..]);
        BlankSegmentsCons(gap[0], later, block, blanks);
        BlankSegmentsAfterGap(gap[1..], line, rest, block, blanks + 1);
      }
    }
  }

  /** A subject line between two blank lines does not stop them from splitting: the lines
      "A", "", "Subject: x", "", "B" give two blocks. */
  lemma BlankSegmentsSubjectBetween(a: string, subject: string, b: string)
    requires !IsSubjectLine(a) && !IsBlankLine(a) && !IsSubjectLine(b) && !IsBlankLine(b)
    requires IsSubjectLine(subject)
    ensures BlankSegments([a, "", subject, "", b], [], 0) == [Section(None, [a]), Section(None, [b])]
  {
    var tail := ["", subject, "", b];
    BlankSegmentsAfterSubjectGap(a, subject, b);
    BlankSegmentsCons(a, tail, [], 0);
    assert [a] + tail == [a, "", subject, "", b] && [] + [a] == [a];
  }

  /** After a text line, a blank line, a subject line and a blank line close its block. */
  lemma BlankSegmentsAfterSubjectGap(a: string, subject: string, b: string)
    requires !IsSubjectLine(b) && !IsBlankLine(b)
    requires IsSubjectLine(subject)
    ensures BlankSegments(["", subject, "", b], [a], 0) == [Section(None, [a]), Section(None, [b])]
  {
    var gap := ["", subject, ""];
    SubjectGapBlanks(subject);
    BlankSegmentsAfterGap(gap, b, [], [a], 0);
    assert gap + [b] + [] == ["", subject, "", b];
    assert BlankSegments([], [b], 0) == [Section(None, [b])];
  }

  /** A subject line between two blank lines leaves two blank lines. */
  lemma SubjectGapBlanks(subject: string)
    requires IsSubjectLine(subject)
    ensures NonSubjectLines(["", subject, ""]) == ["", ""]
    ensures IsBlankLine("") && !IsSubjectLine("")
  {
    var blank := "";
    var gap := [blank, subject, blank];
    var g1 := [subject, blank];
    var g2 := [blank];
    assert !IsSubjectLine(blank);
    assert gap[1..] == g1 && g1[1..] == g2 && g2[1..] == [];
    assert NonSubjectLines(g2) == [blank];
    assert NonSubjectLines(g1) == [blank];
  }

  /** The example of the tests: the subject line between the blank lines is set aside. */
  lemma BlankSegmentsSubjectExample(subject: string)
    requires subject == "Subject: x"
    ensures BlankSegments(["A", "", subject, "", "B"], [], 0) == [Section(None, ["A"]), Section(None, ["B"])]
  {
    SubjectPrefix("Subject:", " x");
    assert "Subject:" + " x" == subject;
    assert !IsSubjectLine("A") && !IsSubjectLine("B");
    assert !IsBlankLine("A") by { assert !IsSpace("A"[0]); }
    assert !IsBlankLine("B") by { assert !IsSpace("B"[0]); }
    BlankSegmentsSubjectBetween("A", subject, "B");
  }

  /** Two blank lines in a row do split. */
  lemma BlankSegmentsSplit()
    ensures BlankSegments(["A", "", "", "B"], [], 0) == [Section(None, ["A"]), Section(None, ["B"])]
    ensures BlankSegments(["A", "", "B"], [], 0) == [Section(None, ["A", "B"])]
  {
    assert !IsSubjectLine("A") && !IsSubjectLine("B") && !IsSubjectLine("");
    assert !IsBlankLine("A") by { assert !IsSpace("A"[0]); }
    assert !IsBlankLine("B") by { assert !IsSpace("B"[0]); }
    assert IsBlankLine("");
    var b: seq<string> := ["B"];
    var eb: seq<string> := ["", "B"];
    var eeb: seq<string> := ["", "", "B"];
    assert eb[1..] == b && eeb[1..] == eb && b[1..] == [];
    assert BlankSegments(b, ["A"], 2) == [Section(None, ["A"]), Section(None, ["B"])];
    assert BlankSegments(eb, ["A"], 1) == BlankSegments(b, ["A"], 2);
    assert BlankSegments(eeb, ["A"], 0) == BlankSegments(eb, ["A"], 1);
    var l4: seq<string> := ["A", "", "", "B"];
    assert l4[1..] == eeb && [] + ["A"] == ["A"];
    assert BlankSegments(l4, [], 0) == BlankSegments(eeb, ["A"], 0);
    assert ["A"] + ["B"] == ["A", "B"];
    assert BlankSegments(b, ["A"], 1) == BlankSegments([], ["A", "B"], 0);
    assert BlankSegments(eb, ["A"], 0) == BlankSegments(b, ["A"], 1);
    var l3: seq<string> := ["A", "", "B"];
    assert l3[1..] == eb;
    assert BlankSegments(l3, [], 0) == BlankSegments(eb, ["A"], 0);
  }

  /** `_segment_by_blank_lines`. */
  method SegmentByBlankLines(lines: seq<string>) returns (sections: seq<Section>)
    ensures sections == BlankSegments(lines, [], 0)
  {
    sections := [];
    var block: seq<string> := [];
    var blanks: nat := 0;
    var i := 0;
    while i < |lines|
      invariant 0 <= i <= |lines|
      invariant sections + BlankSegments(lines[i..], block, blanks) == BlankSegments(lines, [], 0)
    {
      var line := lines[i];
      assert lines[i..][1..] == lines[i + 1..];
      if IsSubjectLine(line) {
        i := i + 1;
        continue;
      }
      if IsBlankLine(line) {
        assert BlankSegments(lines[i..], block, blanks) == BlankSegments(lines[i + 1..], block, blanks + 1);
        blanks := blanks + 1;
      } else {
        if blanks >= 2 && |block| > 0 {
          assert BlankSegments(lines[i..], block, blanks)
            == [Section(None, block)] + BlankSegments(lines[i + 1..], [line], 0);
          sections := sections + [Section(None, block)];
          block := [line];
        } else {
          assert BlankSegments(lines[i..], block, blanks) == BlankSegments(lines[i + 1..], block + [line], 0);
          block := block + [line];
        }
        blanks := 0;
      }
      i := i + 1;
    }
    sections := sections + Flush(None, block);
  }

  /** `line.strip()` is empty exactly for blank lines. */
  lemma StripEmpty(line: string)
    ensures Strip(line) == "" <==> IsBlankLine(line)
  {
    var t := TrimStart(line, IsSpace);
    if IsBlankLine(line) {
      assert t == [];
    } else {
      var k :| 0 <= k < |line| && !IsSpace(line[k]);
      assert |t| > 0;
      assert TrimEnd(t, IsSpace) != [];
    }
  }

  /** The segmentation `extract_section_candidates` uses: header segmentation, unless it finds no
      section or only header-less ones, in which case blank-line segmentation. */
  function ChosenSections(lines: seq<string>): (r: seq<Section>)
    ensures forall k :: 0 <= k < |r| ==> |r[k].content| > 0
  {
    var byHeaders := HeaderSegments(lines, None, []);
    if Headerless(byHeaders) then BlankSegments(lines, [], 0) else byHeaders
  }

  /** No section at all, or none with a header. */
  predicate Headerless(ss: seq<Section>)
  {
    |ss| == 0 || forall k :: 0 <= k < |ss| ==> ss[k].header.None?
  }

  /** Without any header line the sections are the blank-line blocks: header-less, holding
      exactly the non-blank, non-subject lines. */
  lemma NoHeadersFallBack(lines: seq<string>)
    requires forall k :: 0 <= k < |lines| ==> IsSubjectLine(lines[k]) || !IsHeaderLine(lines[k])
    ensures ChosenSections(lines) == BlankSegments(lines, [], 0)
    ensures AllContent(ChosenSections(lines)) == TextLines(lines)
  {
    var byHeaders := HeaderSegments(lines, None, []);
    NoHeadersNoneHeader(lines, None, []);
    BlankSegmentsContent(lines, [], 0);
  }

  lemma {:induction false} NoHeadersNoneHeader(lines: seq<string>, header: Option<string>,
                                               content: seq<string>)
    requires forall k :: 0 <= k < |lines| ==> IsSubjectLine(lines[k]) || !IsHeaderLine(lines[k])
    ensures forall k :: 0 <= k < |HeaderSegments(lines, header, content)| ==>
      HeaderSegments(lines, header, content)[k].header == header
    decreases |lines|
  {
    if |lines| > 0 {
      if IsSubjectLine(lines[0]) {
        NoHeadersNoneHeader(lines[1..], header, content);
      } else {
        NoHeadersNoneHeader(lines[1..], header, content + [lines[0]]);
      }
    }
  }

  /** With a header line that has a body line somewhere after it, the sections are the header
      sections, holding exactly the lines that are neither subject nor header lines. */
  lemma HeadersUsed(lines: seq<string>, i: nat)
    requires i < |lines| && !IsSubjectLine(lines[i]) && IsHeaderLine(lines[i])
    requires BodyLines(lines[i + 1..]) != []
    ensures ChosenSections(lines) == HeaderSegments(lines, None, [])
    ensures AllContent(ChosenSections(lines)) == BodyLines(lines)
  {
    HeaderedSectionExists(lines, i);
    HeaderSegmentsContent(lines, None, []);
  }

  /** A header line with a body line after it yields a section with a header. */
  lemma HeaderedSectionExists(lines: seq<string>, i: nat)
    requires i < |lines| && !IsSubjectLine(lines[i]) && IsHeaderLine(lines[i])
    requires BodyLines(lines[i + 1..]) != []
    ensures !Headerless(HeaderSegments(lines, None, []))
  {
    var pre := HeaderSegmentsFrom(lines, None, [], i);
    var rest := lines[i + 1..];
    var tail := HeaderSegments(rest, Some(lines[i]), []);
    HeaderSegmentsContent(rest, Some(lines[i]), []);
    assert |tail| > 0;
    HeaderKeptSome(rest, Some(lines[i]), []);
    var all := HeaderSegments(lines, None, []);
    assert all[|pre|] == tail[0];
  }

  /** From a header line at `i` on, header segmentation continues afresh under that header. */
  lemma {:induction false} HeaderSegmentsFrom(lines: seq<string>, header: Option<string>,
                                              content: seq<string>, i: nat)
    returns (pre: seq<Section>)
    requires i < |lines| && !IsSubjectLine(lines[i]) && IsHeaderLine(lines[i])
    ensures HeaderSegments(lines, header, content) == pre + HeaderSegments(lines[i + 1..], Some(lines[i]), [])
    decreases i
  {
    var line := lines[0];
    var rest := lines[1..];
    if i == 0 {
      pre := Flush(header, content);
      assert HeaderSegments(lines, header, content) == pre + HeaderSegments(rest, Some(line), []);
    } else {
      assert rest[i - 1] == lines[i] && rest[i..] == lines[i + 1..];
      var tail := HeaderSegments(lines[i + 1..], Some(lines[i]), []);
      if IsSubjectLine(line) {
        pre := HeaderSegmentsFrom(rest, header, content, i - 1);
        assert HeaderSegments(lines, header, content) == HeaderSegments(rest, header, content);
      } else if IsHeaderLine(line) {
        var p := HeaderSegmentsFrom(rest, Some(line), [], i - 1);
        pre := Flush(header, content) + p;
        SectionsAssoc(Flush(header, content), p, tail);
        calc {
          HeaderSegments(lines, header, content);
          Flush(header, content) + HeaderSegments(rest, Some(line), []);
          Flush(header, content) + (p + tail);
          pre + tail;
        }
      } else {
        pre := HeaderSegmentsFrom(rest, header, content + [line], i - 1);
        assert HeaderSegments(lines, header, content) == HeaderSegments(rest, header, content + [line]);
      }
    }
  }

  /** Under a header, every section has a header. */
  lemma {:induction false} HeaderKeptSome(lines: seq<string>, header: Option<string>, content: seq<string>)
    requires header.Some?
    ensures forall k :: 0 <= k < |HeaderSegments(lines, header, content)| ==>
      HeaderSegments(lines, header, content)[k].header.Some?
    decreases |lines|
  {
    if |lines| > 0 {
      var line := lines[0];
      if IsSubjectLine(line) {
        HeaderKeptSome(lines[1..], header, content);
      } else if IsHeaderLine(line) {
        HeaderKeptSome(lines[1..], Some(line), []);
      } else {
        HeaderKeptSome(lines[1..], header, content + [line]);
      }
    }
  }

  /** Every line of a section is in the sections' joint content. */
  lemma {:induction false} AllContentHas(ss: seq<Section>, k: nat, j: nat)
    requires k < |ss| && j < |ss[k].content|
    ensures ss[k].content[j] in AllContent(ss)
  {
    if k > 0 {
      AllContentHas(ss[1..], k - 1, j);
    }
  }

  /** Subject lines never reach a section, and with header segmentation neither do header
      lines. */
  lemma ChosenSectionsSkipSubjects(lines: seq<string>, k: nat, j: nat)
    requires k < |ChosenSections(lines)| && j < |ChosenSections(lines)[k].content|
    ensures !IsSubjectLine(ChosenSections(lines)[k].content[j])
    ensures !Headerless(HeaderSegments(lines, None, [])) ==> !IsHeaderLine(ChosenSections(lines)[k].content[j])
  {
    var ss := ChosenSections(lines);
    AllContentHas(ss, k, j);
    if Headerless(HeaderSegments(lines, None, [])) {
      BlankSegmentsContent(lines, [], 0);
      TextLinesSkip(lines);
      assert AllContent(ss) == TextLines(lines);
    } else {
      HeaderSegmentsContent(lines, None, []);
      BodyLinesSkip(lines);
      assert AllContent(ss) == BodyLines(lines);
    }
  }

  /** Header segmentation labels a section only with a header line, the one that opened it. */
  lemma {:induction false} HeaderSegmentsLabels(lines: seq<string>, header: Option<string>,
                                               content: seq<string>)
    requires header.Some? ==> IsHeaderLine(header.value) && !IsSubjectLine(header.value)
    ensures forall k :: 0 <= k < |HeaderSegments(lines, header, content)| ==>
      var h := HeaderSegments(lines, header, content)[k].header;
      h.Some? ==> IsHeaderLine(h.value) && !IsSubjectLine(h.value) && h.value in lines + (if header.Some? then [header.value] else [])
    decreases |lines|
  {
    if |lines| > 0 {
      var line := lines[0];
      var rest := lines[1..];
      if IsSubjectLine(line) {
        HeaderSegmentsLabels(rest, header, content);
      } else if IsHeaderLine(line) {
        HeaderSegmentsLabels(rest, Some(line), []);
      } else {
        HeaderSegmentsLabels(rest, header, content + [line]);
      }
      assert forall x :: x in rest ==> x in lines;
    }
  }

  /** One candidate per section: the content lines joined with line feeds, and the header's parts
      when there is a non-empty header. */
  function ToCandidate(s: Section, sourcePath: string, language: string): (c: SectionCandidate)
    ensures c.headerText == s.header && c.sourcePath == sourcePath && c.language == language
    ensures c.sectionName.None? ==> c.sectionNumber.None?
    ensures s.header.None? ==> c.sectionName.None?
  {
    var parts := if Truthy(s.header) then ParseHeader(s.header.value) else (None, None);
    SectionCandidate(s.header, Join("\n", s.content), sourcePath, language, parts.0, parts.1)
  }

  /** The candidates of a list of sections, skipping any without content. */
  function CandidatesFrom(ss: seq<Section>, sourcePath: string, language: string)
    : (r: seq<SectionCandidate>)
    ensures |r| <= |ss|
  {
    if |ss| == 0 then []
    else
      (if |ss[0].content| == 0 then [] else [ToCandidate(ss[0], sourcePath, language)])
      + CandidatesFrom(ss[1..], sourcePath, language)
  }

  /** What `extract_section_candidates` returns for the document's lines. */
  function SectionCandidates(lines: seq<string>, sourcePath: string, language: string)
    : (r: seq<SectionCandidate>)
    ensures |r| == |ChosenSections(lines)|
    ensures forall k :: 0 <= k < |r| ==> r[k].sourcePath == sourcePath && r[k].language == language
  {
    CandidatesFromSections(ChosenSections(lines), sourcePath, language);
    CandidatesFrom(ChosenSections(lines), sourcePath, language)
  }

  /** Sections that all have content give one candidate each, in order. */
  lemma {:induction false} CandidatesFromSections(ss: seq<Section>, sourcePath: string, language: string)
    requires forall i :: 0 <= i < |ss| ==> |ss[i].content| > 0
    ensures |CandidatesFrom(ss, sourcePath, language)| == |ss|
    ensures forall k :: 0 <= k < |ss| ==>
      CandidatesFrom(ss, sourcePath, language)[k] == ToCandidate(ss[k], sourcePath, language)
  {
    if |ss| > 0 {
      CandidatesFromSections(ss[1..], sourcePath, language);
    }
  }

  /** The candidates correspond one to one to the chosen sections: each carries its section's
      header and joined content, the given path and language, and a section name taken from its
      header line (only when it has a non-empty header, and then a number only with a name). */
  lemma CandidatesShape(lines: seq<string>, sourcePath: string, language: string)
    ensures |SectionCandidates(lines, sourcePath, language)| == |ChosenSections(lines)|
    ensures |lines| == 0 ==> SectionCandidates(lines, sourcePath, language) == []
    ensures forall k :: 0 <= k < |ChosenSections(lines)| ==>
      var c := SectionCandidates(lines, sourcePath, language)[k];
      var s := ChosenSections(lines)[k];
      && c.headerText == s.header && c.contentText == Join("\n", s.content)
      && c.sourcePath == sourcePath && c.language == language
      && (c.sectionName.None? ==> c.sectionNumber.None?)
      && (c.sectionName.Some? ==> Truthy(s.header) && IsSubstring(c.sectionName.value, s.header.value))
      && (c.headerText.Some? ==> c.sectionName.Some?)
  {
    var ss := ChosenSections(lines);
    CandidatesFromSections(ss, sourcePath, language);
    ChosenHeaders(lines);
    forall k | 0 <= k < |ss| && ss[k].header.Some? {
      HeaderNameInLine(ss[k].header.value);
    }
  }

  /** Every header a chosen section carries is a line of the document that is a header line and
      not a subject line; in particular it is not empty. When header segmentation is used, only
      the first section can lack a header. */
  lemma ChosenHeaders(lines: seq<string>)
    ensures forall k :: 0 <= k < |ChosenSections(lines)| && ChosenSections(lines)[k].header.Some? ==>
      var h := ChosenSections(lines)[k].header.value;
      IsHeaderLine(h) && !IsSubjectLine(h) && h != "" && h in lines
    ensures !Headerless(HeaderSegments(lines, None, [])) ==>
      forall k :: 0 < k < |ChosenSections(lines)| ==> ChosenSections(lines)[k].header.Some?
  {
    if !Headerless(HeaderSegments(lines, None, [])) {
      HeaderSegmentsLaterHeadered(lines, None, []);
      HeaderSegmentsLabels(lines, None, []);
      assert lines + [] == lines;
    }
  }

  /** Only the first section of header segmentation can lack a header: every later one was
      opened by a header line. */
  lemma {:induction false} HeaderSegmentsLaterHeadered(lines: seq<string>, header: Option<string>,
                                                      content: seq<string>)
    ensures forall k :: 0 < k < |HeaderSegments(lines, header, content)| ==>
      HeaderSegments(lines, header, content)[k].header.Some?
    decreases |lines|
  {
    if |lines| > 0 {
      var line := lines[0];
      if IsSubjectLine(line) {
        HeaderSegmentsLaterHeadered(lines[1..], header, content);
      } else if IsHeaderLine(line) {
        HeaderLineLaterHeadered(lines, header, content);
      } else {
        HeaderSegmentsLaterHeadered(lines[1..], header, content + [line]);
      }
    }
  }

  /** At a header line the pending section is closed; every section from there on has a header. */
  lemma HeaderLineLaterHeadered(lines: seq<string>, header: Option<string>, content: seq<string>)
    requires |lines| > 0 && !IsSubjectLine(lines[0]) && IsHeaderLine(lines[0])
    ensures forall k :: 0 < k < |HeaderSegments(lines, header, content)| ==>
      HeaderSegments(lines, header, content)[k].header.Some?
  {
    var line := lines[0];
    HeaderKeptSome(lines[1..], Some(line), []);
    var head := Flush(header, content);
    var tail := HeaderSegments(lines[1..], Some(line), []);
    assert HeaderSegments(lines, header, content) == head + tail;
    assert |head| <= 1;
    assert forall k :: |head| <= k < |head + tail| ==> (head + tail)[k] == tail[k - |head|];
  }

  /** A header followed only by a blank line gives a candidate with empty content text. */
  lemma EmptyContentCandidate()
    ensures SectionCandidates(["BANNER", ""], "a.docx", "en")
      == [SectionCandidate(Some("BANNER"), "", "a.docx", "en", None, Some("BANNER"))]
  {
    var lines: seq<string> := ["BANNER", ""];
    var blank: seq<string> := [""];
    assert !IsSubjectLine("BANNER") && !IsSubjectLine("");
    CapsHeaderWhole("BANNER");
    assert IsHeaderLine("BANNER");
    assert !IsHeaderLine("") by {
      assert ParseHeader("") == (None, None);
    }
    assert lines[1..] == blank && blank[1..] == [];
    var sections := [Section(Some("BANNER"), [""])];
    assert [] + [""] == blank;
    assert HeaderSegments(blank, Some("BANNER"), []) == HeaderSegments([], Some("BANNER"), blank);
    assert HeaderSegments(blank, Some("BANNER"), []) == sections;
    assert HeaderSegments(lines, None, []) == Flush(None, []) + HeaderSegments(blank, Some("BANNER"), []);
    assert HeaderSegments(lines, None, []) == sections;
    assert !Headerless(sections);
    assert ChosenSections(lines) == sections;
    assert sections[1..] == [];
    assert Join("\n", [""]) == "";
  }

  /** `extract_section_candidates` on the document's lines (reading the DOCX is left out). */
  method ExtractSectionCandidates(lines: seq<string>, sourcePath: string, language: string)
    returns (candidates: seq<SectionCandidate>)
    ensures candidates == SectionCandidates(lines, sourcePath, language)
  {
    if |lines| == 0 {
      return [];
    }
    var sections := SegmentByHeaders(lines);
    if Headerless(sections) {
      sections := SegmentByBlankLines(lines);
    }
    candidates := CandidatesOf(sections, sourcePath, language);
  }

  /** The conversion loop of `extract_section_candidates`: one candidate per section with
      content. */
  method CandidatesOf(sections: seq<Section>, sourcePath: string, language: string)
    returns (candidates: seq<SectionCandidate>)
    ensures candidates == CandidatesFrom(sections, sourcePath, language)
  {
    candidates := [];
    var i := 0;
    while i < |sections|
      invariant 0 <= i <= |sections|
      invariant candidates + CandidatesFrom(sections[i..], sourcePath, language)
        == CandidatesFrom(sections, sourcePath, language)
    {
      assert sections[i..][1..] == sections[i + 1..];
      var section := sections[i];
      if |section.content| == 0 {
        assert CandidatesFrom(sections[i..], sourcePath, language)
          == CandidatesFrom(sections[i + 1..], sourcePath, language);
        i := i + 1;
        continue;
      }
      var number: Option<string> := None;
      var name: Option<string> := None;
      if Truthy(section.header) {
        var parts := ParseHeader(section.header.value);
        number, name := parts.0, parts.1;
      }
      var contentText := Join("\n", section.content);
      var candidate := SectionCandidate(section.header, contentText, sourcePath, language, number, name);
      assert candidate == ToCandidate(section, sourcePath, language);
      assert CandidatesFrom(sections[i..], sourcePath, language)
        == [candidate] + CandidatesFrom(sections[i + 1..], sourcePath, language);
      var done := candidates + [candidate];
      assert done + CandidatesFrom(sections[i + 1..], sourcePath, language)
        == candidates + CandidatesFrom(sections[i..], sourcePath, language);
      candidates := done;
      i := i + 1;
    }
  }
}
