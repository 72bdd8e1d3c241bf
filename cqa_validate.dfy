/** The CQA 2.1 and JTBD validator: classifies each AsciiDoc file by its
    content-type attribute and reports the rules the file breaks. */
module CqaValidate {
  import opened Text
  import opened AsciiDoc
  import opened JtbdMapping

  const ShortdescMinChars: nat := 50
  const ShortdescMaxChars: nat := 300
  const MaxProcedureSteps: nat := 10

  /** The content types the validator knows. */
  predicate IsContentType(t: string) {
    t == "CONCEPT" || t == "PROCEDURE" || t == "REFERENCE" || t == "ASSEMBLY" || t == "SNIPPET"
  }

  /** The module types and `ASSEMBLY`: the ones that need a short description. */
  predicate NeedsShortdesc(t: string) {
    t == "CONCEPT" || t == "PROCEDURE" || t == "REFERENCE" || t == "ASSEMBLY"
  }

  /** A reported problem: the name of the check and its message. */
  datatype Violation = Violation(check: string, message: string)

  // ------------------------------------------------------------------
  // Content type

  /** The length of a `:_content-type:` or `:_mod-docs-content-type:` prefix
      at `p`, in any letter case, or 0 when there is none. */
  function ContentTypePrefix(s: string, p: nat): (n: nat)
    ensures n == 0 || p + n <= |s|
  {
    if p + 24 <= |s| && Lower(s[p..p + 24]) == ":_mod-docs-content-type:" then 24
    else if p + 15 <= |s| && Lower(s[p..p + 15]) == ":_content-type:" then 15
    else 0
  }

  /** The content-type pattern at `p`: the span of its captured value.  The
      whitespace after the prefix may run over line breaks; when nothing but
      whitespace follows, it gives back characters until the value can take
      one that is not a newline. */
  function ContentTypeValueAt(s: string, p: nat): (r: Option<(nat, nat)>)
    ensures r.Some? ==> ContentTypePrefix(s, p) > 0
    ensures r.Some? ==> p < r.value.0 <= r.value.1 <= |s|
  {
    var n := ContentTypePrefix(s, p);
    if n == 0 then None
    else
      var a := p + n;
      var b := SkipSpaces(s, a);
      if b < |s| then Some((b, LineEnd(s, b)))
      else match LastWhere(s, a, |s|, NotNewline)
        case None => None
        case Some(k) => Some((k, LineEnd(s, k)))
  }

  /** `get_content_type`: the value of the first content-type attribute line,
      stripped and upper-cased, or `None` when no line carries one. */
  function GetContentType(content: string): (r: Option<string>)
    ensures r.Some? ==> forall i :: 0 <= i < |r.value| ==> !IsLower(r.value[i])
    ensures r.Some? && r.value != [] ==> !IsSpace(r.value[0]) && !IsSpace(r.value[|r.value| - 1])
  {
    match FirstMatch(content, 0, ContentTypeValueAt, true)
    case None => None
    case Some((_, span)) => Some(Upper(Strip(content[span.0..span.1])))
  }

  /** Without a content-type line there is no content type. */
  lemma NoContentTypeLine(content: string)
    requires forall q :: 0 <= q <= |content| && IsLineStart(content, q) ==> ContentTypePrefix(content, q) == 0
    ensures GetContentType(content).None?
  {
    var m := FirstMatch(content, 0, ContentTypeValueAt, true);
    if m.Some? {
      assert false;
    }
  }

  /** Where the search for the content type stops when the first
      content-type line has a value on that same line. */
  lemma ContentTypeMatch(content: string, q: nat, a: nat, e: nat) returns (b: nat)
    requires IsLineStart(content, q) && ContentTypePrefix(content, q) > 0
    requires forall q' :: 0 <= q' < q && IsLineStart(content, q') ==> ContentTypePrefix(content, q') == 0
    requires a == q + ContentTypePrefix(content, q) && e == LineEnd(content, a)
    requires exists w :: a <= w < e && !IsSpace(content[w])
    ensures a <= b <= e && forall k :: a <= k < b ==> IsSpace(content[k])
    ensures FirstMatch(content, 0, ContentTypeValueAt, true) == Some((q, (b, e)))
  {
    b := SkipSpaces(content, a);
    var w :| a <= w < e && !IsSpace(content[w]);
    LineEndSame(content, a, b);
    assert ContentTypeValueAt(content, q) == Some((b, e));
    FirstMatchAt(content, 0, ContentTypeValueAt, true, q);
  }

  /** When the first content-type line has a value on that same line, the
      content type is that value, stripped and upper-cased: `a` is where the
      value starts and `e` where its line ends. */
  lemma ContentTypeOfFirstLine(content: string, q: nat, a: nat, e: nat)
    requires IsLineStart(content, q) && ContentTypePrefix(content, q) > 0
    requires forall q' :: 0 <= q' < q && IsLineStart(content, q') ==> ContentTypePrefix(content, q') == 0
    requires a == q + ContentTypePrefix(content, q) && e == LineEnd(content, a)
    requires exists w :: a <= w < e && !IsSpace(content[w])
    ensures GetContentType(content) == Some(Upper(Strip(content[a..e])))
  {
    var b := ContentTypeMatch(content, q, a, e);
    StripFromSpaces(content, a, b, e);
    assert GetContentType(content) == Some(Upper(Strip(content[b..e])));
  }

  // ------------------------------------------------------------------
  // Short description

  /** The `[role="_abstract"]` pattern at `p` (a line that starts with it). */
  function RoleAbstractAt(s: string, p: nat): (r: Option<nat>)
    ensures r.Some? ==> r.value == p + |RoleAbstract| <= |s|
  {
    if p + |RoleAbstract| <= |s| && s[p..p + |RoleAbstract|] == RoleAbstract then Some(p + |RoleAbstract|)
    else None
  }

  /** The first line that starts with the marker: where it starts and ends. */
  function FindRoleAbstract(content: string): (r: Option<(nat, nat)>)
    ensures r.Some? ==> r.value.0 + |RoleAbstract| == r.value.1 <= |content|
  {
    FirstMatch(content, 0, RoleAbstractAt, true)
  }

  predicate IsLineBreakChar(c: char) { c == '\n' || c == '\r' }

  /** Whether the line that starts at `i` of `rest` closes the paragraph:
      the end of the text, or a line of whitespace only. */
  predicate ParagraphStops(rest: string, i: nat)
    requires i <= |rest| + 1
  {
    i >= |rest| || AllSpace(rest[i..LineEnd(rest, i)])
  }

  /** The lines of the paragraph that starts at offset `i` of `rest`, up to
      the first blank line. */
  function ParagraphLines(rest: string, i: nat): (r: seq<string>)
    requires i <= |rest| + 1
    decreases |rest| + 1 - i
  {
    if ParagraphStops(rest, i) then []
    else
      var e := LineEnd(rest, i);
      [rest[i..e]] + ParagraphLines(rest, e + 1)
  }

  /** No collected line holds a line break. */
  lemma {:induction false} ParagraphLinesNoNewline(rest: string, i: nat)
    requires i <= |rest| + 1
    ensures forall k :: 0 <= k < |ParagraphLines(rest, i)| ==> '\n' !in ParagraphLines(rest, i)[k]
    decreases |rest| + 1 - i
  {
    if !ParagraphStops(rest, i) {
      var e := LineEnd(rest, i);
      ParagraphLinesStep(rest, i);
      ParagraphLinesNoNewline(rest, e + 1);
      LineNoNewline(rest, i, e);
    }
  }

  /** Where that paragraph ends: just past the newline of its last line
      (one past the end of the text when the last line has none). */
  function ParagraphEnd(rest: string, i: nat): (j: nat)
    requires i <= |rest| + 1
    ensures i <= j <= |rest| + 1
    decreases |rest| + 1 - i
  {
    if ParagraphStops(rest, i) then i
    else ParagraphEnd(rest, LineEnd(rest, i) + 1)
  }

  /** A slice that stops at or before the end of its line holds no line break. */
  lemma LineNoNewline(rest: string, i: nat, e: nat)
    requires i <= e <= |rest| && forall k :: i <= k < e ==> rest[k] != '\n'
    ensures '\n' !in rest[i..e]
  {
    forall k | 0 <= k < e - i ensures rest[i..e][k] != '\n' {
      assert rest[i..e][k] == rest[i + k];
    }
  }

  /** The collected lines, joined by line breaks, are exactly the text
      between the paragraph's start and end. */
  lemma {:induction false} ParagraphLinesSpan(rest: string, i: nat)
    requires i <= |rest| + 1
    ensures ParagraphLines(rest, i) != [] ==>
      i < ParagraphEnd(rest, i) && Join(ParagraphLines(rest, i), "\n") == rest[i..ParagraphEnd(rest, i) - 1]
    decreases |rest| + 1 - i
  {
    if !ParagraphStops(rest, i) {
      var e := LineEnd(rest, i);
      var j, tail := ParagraphEnd(rest, e + 1), ParagraphLines(rest, e + 1);
      ParagraphLinesStep(rest, i);
      ParagraphLinesEmpty(rest, e + 1);
      ParagraphLinesSpan(rest, e + 1);
      JoinLineThen(rest, i, e, j, tail, ParagraphLines(rest, i), ParagraphEnd(rest, i));
    }
  }

  /** The paragraph is empty exactly when it ends where it starts. */
  lemma ParagraphLinesEmpty(rest: string, i: nat)
    requires i <= |rest| + 1
    ensures ParagraphLines(rest, i) == [] <==> ParagraphEnd(rest, i) == i
  {
    if !ParagraphStops(rest, i) {
      ParagraphLinesStep(rest, i);
    }
  }

  /** So the collected lines are the lines `str.split` finds in that text. */
  lemma ParagraphLinesSplit(rest: string, i: nat)
    requires i <= |rest| + 1 && ParagraphLines(rest, i) != []
    ensures i < ParagraphEnd(rest, i)
    ensures Split(rest[i..ParagraphEnd(rest, i) - 1], '\n') == ParagraphLines(rest, i)
  {
    ParagraphLinesSpan(rest, i);
    ParagraphLinesNoNewline(rest, i);
    SplitJoin(ParagraphLines(rest, i), '\n');
  }

  /** A paragraph that goes on past the line at `i` is that line followed by
      the paragraph from the next line. */
  lemma ParagraphLinesStep(rest: string, i: nat)
    requires i <= |rest| + 1 && !ParagraphStops(rest, i)
    ensures var e := LineEnd(rest, i);
            ParagraphLines(rest, i) == [rest[i..e]] + ParagraphLines(rest, e + 1)
            && ParagraphEnd(rest, i) == ParagraphEnd(rest, e + 1)
  {
  }

  /** Joining a line that ends at `e` with the lines of the rest of a span
      gives the whole span. */
  lemma JoinLineThen(rest: string, i: nat, e: nat, j: nat, tail: seq<string>, lines: seq<string>, end: nat)
    requires i <= e <= |rest| && e < j <= |rest| + 1 && (e < |rest| ==> rest[e] == '\n')
    requires tail == [] ==> j == e + 1
    requires tail != [] ==> e + 1 < j && Join(tail, "\n") == rest[e + 1..j - 1]
    requires lines == [rest[i..e]] + tail && end == j
    ensures lines != [] && i < end && Join(lines, "\n") == rest[i..end - 1]
  {
    var parts := [rest[i..e]] + tail;
    if tail != [] {
      assert parts[1..] == tail;
      assert rest[i..j - 1] == rest[i..e] + "\n" + rest[e + 1..j - 1];
    }
  }

  /** The non-blank lines, each stripped. */
  function StrippedNonBlank(lines: seq<string>): (r: seq<string>)
    ensures |r| <= |lines|
    ensures (forall k :: 0 <= k < |lines| ==> '\n' !in lines[k]) ==> forall k :: 0 <= k < |r| ==> '\n' !in r[k]
    decreases |lines|
  {
    if lines == [] then []
    else
      var head := Strip(lines[0]);
      StripNoNewline(lines[0]);
      (if head != [] then [head] else []) + StrippedNonBlank(lines[1..])
  }

  /** The paragraph's text: its stripped non-blank lines joined by single
      spaces and stripped again, `None` when that is empty. */
  function ParagraphText(lines: seq<string>): (r: Option<string>)
    requires forall k :: 0 <= k < |lines| ==> '\n' !in lines[k]
    ensures r.Some? ==> r.value != [] && '\n' !in r.value
    ensures r.Some? ==> !IsSpace(r.value[0]) && !IsSpace(r.value[|r.value| - 1])
  {
    var parts := StrippedNonBlank(lines);
    JoinFree(parts, " ", '\n');
    var joined := Join(parts, " ");
    StripNoNewline(joined);
    var text := Strip(joined);
    if text == [] then None else Some(text)
  }

  /** `get_shortdesc_paragraph`: the text of the first paragraph after the
      first `[role="_abstract"]` line, with where that paragraph starts and
      ends, or `(None, -1, -1)` without the marker.  `None` as the text
      stands for an empty text. */
  function ShortdescParagraph(content: string): (r: (Option<string>, int, int))
    ensures FindRoleAbstract(content).None? <==> r == (None, -1, -1)
    ensures FindRoleAbstract(content).Some? ==>
      FindRoleAbstract(content).value.1 <= r.1 <= r.2 <= |content| + 1
    ensures r.0.Some? ==> r.0.value != [] && '\n' !in r.0.value
    ensures r.0.Some? ==> !IsSpace(r.0.value[0]) && !IsSpace(r.0.value[|r.0.value| - 1])
  {
    match FindRoleAbstract(content)
    case None => (None, -1, -1)
    case Some(m) =>
      var start := m.1;
      var rest := content[start..];
      var blockStart := SkipWhile(rest, 0, IsLineBreakChar);
      ParagraphLinesNoNewline(rest, blockStart);
      (ParagraphText(ParagraphLines(rest, blockStart)), start + blockStart, start + ParagraphEnd(rest, blockStart))
  }

  /** The first loop of `get_shortdesc_paragraph`: skip the line breaks
      that follow the marker. */
  method SkipLineBreaks(rest: string) returns (i: nat)
    ensures i == SkipWhile(rest, 0, IsLineBreakChar)
  {
    i := 0;
    while i < |rest| && IsLineBreakChar(rest[i])
      invariant i <= |rest|
      invariant SkipWhile(rest, i, IsLineBreakChar) == SkipWhile(rest, 0, IsLineBreakChar)
    {
      i := i + 1;
    }
  }

  /** `line.strip() == ""`. */
  method IsBlankLine(line: string) returns (blank: bool)
    ensures blank <==> AllSpace(line)
  {
    StripEmpty(line);
    blank := Strip(line) == [];
  }

  /** The lines collected so far, followed by the paragraph from `i`, are
      the paragraph from `from`, which ends where the one from `i` does. */
  predicate Collected(rest: string, from: nat, lines: seq<string>, i: nat) {
    from <= i <= |rest| + 1
    && ParagraphLines(rest, from) == lines + ParagraphLines(rest, i)
    && ParagraphEnd(rest, from) == ParagraphEnd(rest, i)
  }

  /** One more line of the paragraph: the lines collected so far plus the
      paragraph from the next line are still the paragraph from `from`. */
  lemma ParagraphStep(rest: string, from: nat, lines: seq<string>, i: nat, e: nat)
    requires Collected(rest, from, lines, i) && !ParagraphStops(rest, i) && e == LineEnd(rest, i)
    ensures Collected(rest, from, lines + [rest[i..e]], e + 1)
  {
    ParagraphLinesStep(rest, i);
    Associative(lines, [rest[i..e]], ParagraphLines(rest, e + 1));
  }

  /** The line at `i` is blank exactly when the paragraph stops there. */
  lemma BlankLineStops(rest: string, i: nat, e: nat, blank: bool)
    requires i < |rest| && e == LineEnd(rest, i) && (blank <==> AllSpace(rest[i..e]))
    ensures blank <==> ParagraphStops(rest, i)
  {
  }

  /** The second loop of `get_shortdesc_paragraph`: collect lines from `from`
      until a blank line or the end of the text. */
  method CollectParagraph(rest: string, from: nat) returns (lines: seq<string>, i: nat)
    requires from <= |rest|
    ensures lines == ParagraphLines(rest, from) && i == ParagraphEnd(rest, from)
  {
    i := from;
    lines := [];
    assert lines + ParagraphLines(rest, i) == ParagraphLines(rest, i);
    while i < |rest|
      invariant Collected(rest, from, lines, i)
      decreases |rest| + 1 - i
    {
      var lineEnd := LineEnd(rest, i);
      var line := rest[i..lineEnd];
      var blank := IsBlankLine(line);
      BlankLineStops(rest, i, lineEnd, blank);
      if blank {
        break;
      }
      ParagraphStep(rest, from, lines, i, lineEnd);
      lines := lines + [line];
      i := lineEnd + 1;
    }
    ParagraphDone(rest, from, lines, i);
  }

  /** Where the paragraph stops, the lines collected so far are all of it. */
  lemma ParagraphDone(rest: string, from: nat, lines: seq<string>, i: nat)
    requires Collected(rest, from, lines, i) && (i < |rest| ==> ParagraphStops(rest, i))
    ensures lines == ParagraphLines(rest, from) && i == ParagraphEnd(rest, from)
  {
    assert ParagraphLines(rest, i) == [];
    assert lines + [] == lines;
  }

  /** `get_shortdesc_paragraph`, as the source computes it: skip line breaks
      after the marker, then collect lines until a blank one. */
  method GetShortdescParagraph(content: string) returns (text: Option<string>, start: int, end: int)
    ensures text == ShortdescParagraph(content).0
    ensures start == ShortdescParagraph(content).1 && end == ShortdescParagraph(content).2
  {
    var m := FindRoleAbstract(content);
    if m.None? {
      return None, -1, -1;
    }
    var s0 := m.value.1;
    var rest := content[s0..];
    var blockStart := SkipLineBreaks(rest);
    var lines, i := CollectParagraph(rest, blockStart);
    ParagraphLinesNoNewline(rest, blockStart);
    text := ParagraphText(lines);
    start, end := s0 + blockStart, s0 + i;
    assert ShortdescParagraph(content).0 == text;
    assert ShortdescParagraph(content).1 == start;
    assert ShortdescParagraph(content).2 == end;
  }

  /** The text between the end of the first level-0 title and the first
      marker (empty when the marker comes first), or `None` when either is
      missing. */
  function TitleMarkerGap(content: string): (r: Option<string>)
  {
    var title := FirstMatch(content, 0, TitleAt, true);
    var marker := FindRoleAbstract(content);
    if title.None? || marker.None? then None
    else
      var te := title.value.1;
      var ms := marker.value.0;
      Some(if te <= ms then content[te..ms] else [])
  }

  /** The search for `^\s*\n\s*\n` in the gap: its leading whitespace holds
      two newlines, that is, a blank line opens it. */
  predicate OpensWithBlankLine(gap: string) {
    exists i, j :: 0 <= i < j < SkipSpaces(gap, 0) && gap[i] == '\n' && gap[j] == '\n'
  }

  const MissingBlankLine: string := "Missing blank line between level-0 title and [role=\"_abstract\"]"

  /** `check_blank_line_after_title`: fails exactly when the gap between the
      title and the marker holds text and does not open with a blank line. */
  function CheckBlankLineAfterTitle(content: string): (r: (bool, string))
    ensures r.0 <==> TitleMarkerGap(content).None? || AllSpace(TitleMarkerGap(content).value)
                     || OpensWithBlankLine(TitleMarkerGap(content).value)
    ensures r.1 == if r.0 then [] else MissingBlankLine
  {
    match TitleMarkerGap(content)
    case None => (true, [])
    case Some(between) =>
      StripEmpty(between);
      if Strip(between) != [] && !OpensWithBlankLine(between) then (false, MissingBlankLine)
      else (true, [])
  }

  /** A gap that opens with an empty line after the title passes. */
  lemma BlankLineOpensGap(gap: string, k: nat)
    requires 2 <= k < |gap| && gap[0] == '\n' && gap[k] == '\n'
    requires forall i :: 0 < i < k ==> IsSpace(gap[i])
    ensures OpensWithBlankLine(gap)
  {
    var b := SkipSpaces(gap, 0);
    assert k < b;
  }

  /** Text on the line right after the title fails the check. */
  lemma TextRightAfterTitle(gap: string)
    requires |gap| >= 2 && gap[0] == '\n' && !IsSpace(gap[1])
    ensures !OpensWithBlankLine(gap) && !AllSpace(gap)
  {
    assert SkipSpaces(gap, 0) == 1;
  }

  /** `check_shortdesc_length`: passes exactly for 50 to 300 characters,
      with the source's messages otherwise. */
  function CheckShortdescLength(text: string): (r: (bool, string))
    ensures r.0 <==> ShortdescMinChars <= |text| <= ShortdescMaxChars
    ensures text == [] ==> r.1 == "Short description is missing"
    ensures 0 < |text| < ShortdescMinChars ==>
      r.1 == "Short description too short (" + NatToString(|text|) + " < 50 chars)"
    ensures |text| > ShortdescMaxChars ==>
      r.1 == "Short description too long (" + NatToString(|text|) + " > 300 chars)"
    ensures r.0 ==> r.1 == []
  {
    if text == [] then (false, "Short description is missing")
    else if |text| < ShortdescMinChars then
      (false, "Short description too short (" + NatToString(|text|) + " < 50 chars)")
    else if |text| > ShortdescMaxChars then
      (false, "Short description too long (" + NatToString(|text|) + " > 300 chars)")
    else (true, [])
  }

  // ------------------------------------------------------------------
  // Self-referential language

  /** The first of `words` that occurs at `i`, and where it ends. */
  function WordAt(t: string, i: nat, words: seq<string>): (r: Option<nat>)
    ensures r.Some? ==> i <= r.value <= |t|
    ensures r.Some? && |words| == 1 ==> t[i..r.value] == words[0]
    decreases |words|
  {
    if words == [] then None
    else if i + |words[0]| <= |t| && t[i..i + |words[0]|] == words[0] then Some(i + |words[0]|)
    else WordAt(t, i, words[1..])
  }

  /** `\s+` at `i`: where a non-empty whitespace run ends. */
  function SpacesAt(t: string, i: nat): (r: Option<nat>)
    ensures r.Some? ==> i < r.value <= |t|
  {
    if i <= |t| && SkipSpaces(t, i) > i then Some(SkipSpaces(t, i)) else None
  }

  /** `this\s+(document|section|module|topic|guide)\s+(describes|explains|contains)` at `i`. */
  function ThisPhraseAt(t: string, i: nat): (r: Option<nat>)
    ensures r.Some? ==> i + 4 <= |t| && t[i..i + 4] == "this" && i < r.value <= |t|
  {
    match WordAt(t, i, ["this"])
    case None => None
    case Some(a) =>
      match SpacesAt(t, a)
      case None => None
      case Some(b) =>
        match WordAt(t, b, ["document", "section", "module", "topic", "guide"])
        case None => None
        case Some(c) =>
          match SpacesAt(t, c)
          case None => None
          case Some(d) => WordAt(t, d, ["describes", "explains", "contains"])
  }

  /** `in\s+this\s+(document|section)` at `i`; also says where `this` starts. */
  function InThisPhraseAt(t: string, i: nat): (r: Option<nat>)
    ensures r.Some? ==> exists b :: i < b <= |t| && OccursAt(t, "this", b)
    ensures r.Some? ==> i < r.value <= |t|
  {
    match WordAt(t, i, ["in"])
    case None => None
    case Some(a) =>
      match SpacesAt(t, a)
      case None => None
      case Some(b) =>
        match WordAt(t, b, ["this"])
        case None => None
        case Some(c) =>
          assert OccursAt(t, "this", b);
          match SpacesAt(t, c)
          case None => None
          case Some(d) => WordAt(t, d, ["document", "section"])
  }

  /** `\b` at `k`: a word character on exactly one side. */
  predicate WordBoundary(t: string, k: nat) {
    k <= |t| && ((k > 0 && IsWordChar(t[k - 1])) != (k < |t| && IsWordChar(t[k])))
  }

  /** The self-reference pattern at `p` of lower-cased text: either phrase,
      with a word boundary on both sides. */
  function SelfRefAt(t: string, p: nat): (r: Option<nat>)
    ensures r.Some? ==> p < r.value <= |t|
  {
    var e1 := ThisPhraseAt(t, p);
    var e2 := InThisPhraseAt(t, p);
    if WordBoundary(t, p) && e1.Some? && WordBoundary(t, e1.value) then e1
    else if WordBoundary(t, p) && e2.Some? && WordBoundary(t, e2.value) then e2
    else None
  }

  /** The case-insensitive search for self-referential language. */
  predicate HasSelfRef(text: string) {
    FirstMatch(Lower(text), 0, SelfRefAt, false).Some?
  }

  const SelfReferential: string := "Short description contains self-referential language"

  /** `check_self_referential`: fails exactly for text with self-referential language. */
  function CheckSelfReferential(text: string): (r: (bool, string))
    ensures r.0 <==> !HasSelfRef(text)
    ensures r.1 == if r.0 then [] else SelfReferential
  {
    if text == [] then
      assert FirstMatch(Lower(text), 0, SelfRefAt, false).None?;
      (true, [])
    else if HasSelfRef(text) then (false, SelfReferential)
    else (true, [])
  }

  /** Every self-referential phrase contains the word `this`, so a short
      description without it (in any case) always passes. */
  lemma SelfRefMentionsThis(text: string)
    ensures HasSelfRef(text) ==> Contains(Lower(text), "this")
  {
    var t := Lower(text);
    var m := FirstMatch(t, 0, SelfRefAt, false);
    if m.Some? {
      SelfRefAtThis(t, m.value.0);
    }
  }

  /** Where the self-reference pattern matches, the text contains `this`. */
  lemma SelfRefAtThis(t: string, p: nat)
    requires SelfRefAt(t, p).Some?
    ensures Contains(t, "this")
  {
    if ThisPhraseAt(t, p).Some? && SelfRefAt(t, p) == ThisPhraseAt(t, p) {
      ContainsAt(t, "this", p);
    } else {
      var b :| p < b <= |t| && OccursAt(t, "this", b);
      ContainsAt(t, "this", b);
    }
  }

  /** A word list's first word, written at `i`, is the one matched. */
  lemma WordAtHead(t: string, i: nat, words: seq<string>)
    requires words != [] && OccursAt(t, words[0], i)
    ensures WordAt(t, i, words) == Some(i + |words[0]|)
  {
  }

  /** A single space is a `\s+` run when a non-space follows it. */
  lemma OneSpaceAt(t: string, i: nat)
    requires i + 1 < |t| && t[i] == ' ' && !IsSpace(t[i + 1])
    ensures SpacesAt(t, i) == Some(i + 1)
  {
    assert SkipSpaces(t, i + 1) == i + 1;
  }

  /** The words of "this document describes", one by one. */
  lemma ThisDocumentDescribesWords(t: string, p: nat)
    requires OccursAt(t, "this document describes", p)
    ensures OccursAt(t, "this", p) && OccursAt(t, "document", p + 5) && OccursAt(t, "describes", p + 14)
    ensures t[p + 4] == ' ' && t[p + 5] == 'd' && t[p + 13] == ' ' && t[p + 14] == 'd'
  {
    var phrase := "this document describes";
    assert t[p..p + 23] == phrase;
    assert t[p..p + 4] == phrase[..4];
    assert t[p + 5..p + 13] == phrase[5..13];
    assert t[p + 14..p + 23] == phrase[14..];
    assert t[p + 4] == phrase[4] && t[p + 13] == phrase[13];
    assert t[p + 5] == phrase[5] && t[p + 14] == phrase[14];
  }

  /** "this document describes" is matched by the first alternative. */
  lemma ThisDocumentDescribesMatched(t: string, p: nat)
    requires OccursAt(t, "this document describes", p)
    ensures ThisPhraseAt(t, p) == Some(p + 23)
  {
    ThisDocumentDescribesWords(t, p);
    WordAtHead(t, p, ["this"]);
    OneSpaceAt(t, p + 4);
    WordAtHead(t, p + 5, ["document", "section", "module", "topic", "guide"]);
    OneSpaceAt(t, p + 13);
    WordAtHead(t, p + 14, ["describes", "explains", "contains"]);
  }

  /** "This document describes ..." is reported wherever it stands as
      whole words, in any letter case. */
  lemma ThisDocumentDescribesReported(text: string, p: nat)
    requires OccursAt(Lower(text), "this document describes", p)
    requires WordBoundary(Lower(text), p) && WordBoundary(Lower(text), p + 23)
    ensures !CheckSelfReferential(text).0
  {
    var t := Lower(text);
    ThisDocumentDescribesMatched(t, p);
    assert SelfRefAt(t, p).Some?;
  }

  // ------------------------------------------------------------------
  // Text between includes (assemblies)

  predicate IsAttrNameChar(c: char) { IsLower(c) || IsDigit(c) || c == '_' || c == '-' }

  /** `:\![a-z0-9_-]+:?\s*$` on the line without its leading whitespace. */
  predicate IsAttributeToggle(t: string) {
    2 <= |t| && t[0] == ':' && t[1] == '!' &&
    var j := SkipWhile(t, 2, IsAttrNameChar);
    j > 2 && AllSpace(t[if j < |t| && t[j] == ':' then j + 1 else j..])
  }

  /** `:[a-z0-9_-]+:.*$`: the rest may be anything up to a final newline. */
  predicate IsAttributeSetting(t: string) {
    1 <= |t| && t[0] == ':' &&
    var j := SkipWhile(t, 1, IsAttrNameChar);
    j > 1 && j < |t| && t[j] == ':' && LineEnd(t, j + 1) >= |t| - 1
  }

  /** `={2,}\s+`. */
  predicate IsSectionHeading(t: string) {
    var j := SkipWhile(t, 0, IsEquals);
    j >= 2 && j < |t| && IsSpace(t[j])
  }

  /** `\[role=.*\]\s*$`: the last non-space character is the closing bracket
      and no newline comes before it. */
  predicate IsRoleLine(t: string) {
    var r := RStrip(t);
    StartsWith(t, "[role=") && |r| >= 7 && r[|r| - 1] == ']' && LineEnd(t, 6) >= |r|
  }

  /** `\*\s+link:`. */
  predicate IsLinkItem(t: string) {
    1 <= |t| && t[0] == '*' &&
    var j := SkipSpaces(t, 1);
    j > 1 && StartsWith(t[j..], "link:")
  }

  /** The lines allowed between include statements: after leading whitespace,
      a comment, a conditional, an attribute toggle or setting, a section
      heading, a role attribute or a list item with a link. */
  predicate AllowedBetweenIncludes(line: string) {
    var t := LStrip(line);
    StartsWith(t, "//") || StartsWith(t, "ifdef::") || StartsWith(t, "ifndef::") || StartsWith(t, "endif::")
    || IsAttributeToggle(t) || IsAttributeSetting(t) || IsSectionHeading(t) || IsRoleLine(t) || IsLinkItem(t)
  }

  predicate IsIncludeLine(line: string) { StartsWith(Strip(line), "include::") }

  /** A line after the first include that the check does not report. */
  predicate Tolerated(line: string) {
    var s := Strip(line);
    s == [] || StartsWith(s, "//") || Contains(s, "include::") || AllowedBetweenIncludes(line)
  }

  function IncludeIssueMessage(lineNumber: nat, stripped: string): string {
    "Line " + NatToString(lineNumber) + ": Text between include statements: " + Take(stripped, 60) + "..."
  }

  // The scan below is stated for any pair of line tests; the check itself
  // uses `IsIncludeLine` and `Tolerated`.

  /** Whether an include line is among the first `k` lines: the flag the
      check sets on the first include line and never clears. */
  predicate SeenInclude(lines: seq<string>, k: nat, isInclude: string -> bool)
    requires k <= |lines|
  {
    k > 0 && (SeenInclude(lines, k - 1, isInclude) || isInclude(lines[k - 1]))
  }

  /** Line `j` (counting from 0) is reported: it follows an include line, is
      not one itself, and is not tolerated. */
  predicate Offending(lines: seq<string>, j: nat, isInclude: string -> bool, tolerated: string -> bool)
    requires j < |lines|
  {
    SeenInclude(lines, j, isInclude) && !isInclude(lines[j]) && !tolerated(lines[j])
  }

  /** The issues found in the first `k` lines, in line order. */
  function IncludeIssues(lines: seq<string>, k: nat, isInclude: string -> bool, tolerated: string -> bool): (r: seq<string>)
    requires k <= |lines|
    ensures |r| <= k
  {
    if k == 0 then []
    else
      IncludeIssues(lines, k - 1, isInclude, tolerated) +
        (if Offending(lines, k - 1, isInclude, tolerated) then [IncludeIssueMessage(k, Strip(lines[k - 1]))] else [])
  }

  /** The issue list of `check_assembly_no_text_between_includes`. */
  function BetweenIncludesIssues(content: string): seq<string> {
    IncludeIssues(SplitLines(content), |SplitLines(content)|, IsIncludeLine, Tolerated)
  }

  /** The tests the check applies to one line: whether it is an include
      line, and otherwise whether it would be reported after an include. */
  method ClassifyLine(line: string) returns (isInclude: bool, reported: bool, stripped: string)
    ensures isInclude == IsIncludeLine(line) && stripped == Strip(line)
    ensures !isInclude ==> (reported <==> !Tolerated(line))
  {
    stripped := Strip(line);
    isInclude := StartsWith(stripped, "include::");
    reported := false;
    if !isInclude && stripped != [] && !StartsWith(stripped, "//") {
      if Contains(stripped, "include::") {
      } else if AllowedBetweenIncludes(line) {
      } else {
        reported := true;
      }
    }
  }

  /** One pass of the loop of `check_assembly_no_text_between_includes`. */
  method ScanLine(lines: seq<string>, i: nat, issues: seq<string>, inIncludes: bool)
    returns (issues': seq<string>, inIncludes': bool)
    requires i < |lines|
    requires issues == IncludeIssues(lines, i, IsIncludeLine, Tolerated)
    requires inIncludes == SeenInclude(lines, i, IsIncludeLine)
    ensures issues' == IncludeIssues(lines, i + 1, IsIncludeLine, Tolerated)
    ensures inIncludes' == SeenInclude(lines, i + 1, IsIncludeLine)
  {
    var isInclude, reported, stripped := ClassifyLine(lines[i]);
    IncludeIssuesStep(lines, i, IsIncludeLine, Tolerated);
    issues', inIncludes' := issues, inIncludes;
    if isInclude {
      inIncludes' := true;
    } else if inIncludes && reported {
      issues' := issues + [IncludeIssueMessage(i + 1, stripped)];
    }
  }

  /** `check_assembly_no_text_between_includes`: one issue per offending line,
      in order; passes exactly when there is none. */
  method CheckAssemblyNoTextBetweenIncludes(content: string) returns (ok: bool, issues: seq<string>)
    ensures issues == BetweenIncludesIssues(content)
    ensures ok <==> issues == []
  {
    var lines := SplitLines(content);
    issues := [];
    var inIncludes := false;
    var i := 0;
    while i < |lines|
      invariant 0 <= i <= |lines|
      invariant issues == IncludeIssues(lines, i, IsIncludeLine, Tolerated)
      invariant inIncludes == SeenInclude(lines, i, IsIncludeLine)
    {
      issues, inIncludes := ScanLine(lines, i, issues, inIncludes);
      i := i + 1;
    }
    ok := |issues| == 0;
  }

  lemma IncludeIssuesStep(lines: seq<string>, i: nat, isInclude: string -> bool, tolerated: string -> bool)
    requires i < |lines|
    ensures SeenInclude(lines, i + 1, isInclude) == (SeenInclude(lines, i, isInclude) || isInclude(lines[i]))
    ensures !Offending(lines, i, isInclude, tolerated) ==>
      IncludeIssues(lines, i + 1, isInclude, tolerated) == IncludeIssues(lines, i, isInclude, tolerated)
    ensures Offending(lines, i, isInclude, tolerated) ==>
      IncludeIssues(lines, i + 1, isInclude, tolerated) ==
      IncludeIssues(lines, i, isInclude, tolerated) + [IncludeIssueMessage(i + 1, Strip(lines[i]))]
  {
  }

  /** Line `j` comes after some line that passes `isInclude`. */
  predicate AfterInclude(lines: seq<string>, j: nat, isInclude: string -> bool) {
    exists i :: 0 <= i < j && i < |lines| && isInclude(lines[i])
  }

  /** The flag is set exactly once an include line has been read. */
  lemma {:induction false} SeenIncludeAfter(lines: seq<string>, k: nat, isInclude: string -> bool)
    requires k <= |lines|
    ensures SeenInclude(lines, k, isInclude) <==> AfterInclude(lines, k, isInclude)
  {
    if k > 0 {
      SeenIncludeAfter(lines, k - 1, isInclude);
      if AfterInclude(lines, k - 1, isInclude) {
        var i :| 0 <= i < k - 1 && i < |lines| && isInclude(lines[i]);
        assert 0 <= i < k && isInclude(lines[i]);
      }
      if AfterInclude(lines, k, isInclude) && !isInclude(lines[k - 1]) {
        var i :| 0 <= i < k && i < |lines| && isInclude(lines[i]);
        assert i < k - 1;
      }
    }
  }

  /** No issue is reported exactly when every line that follows an include
      line is an include line itself or a tolerated one. */
  lemma {:induction false} IncludeIssuesClean(lines: seq<string>, k: nat, isInclude: string -> bool, tolerated: string -> bool)
    requires k <= |lines|
    ensures IncludeIssues(lines, k, isInclude, tolerated) == [] <==>
      forall j :: 0 <= j < k && AfterInclude(lines, j, isInclude) && !isInclude(lines[j]) ==> tolerated(lines[j])
  {
    if k > 0 {
      IncludeIssuesClean(lines, k - 1, isInclude, tolerated);
      SeenIncludeAfter(lines, k - 1, isInclude);
    }
  }

  /** Nothing is reported before the first include line. */
  lemma NoIssueBeforeFirstInclude(lines: seq<string>, k: nat, isInclude: string -> bool, tolerated: string -> bool)
    requires k <= |lines|
    requires forall i :: 0 <= i < k ==> !isInclude(lines[i])
    ensures IncludeIssues(lines, k, isInclude, tolerated) == []
  {
    IncludeIssuesClean(lines, k, isInclude, tolerated);
  }

  // ------------------------------------------------------------------
  // Procedures

  /** `^\.\s+\d+\.\s+` at `p`: a numbered step marker. */
  function StepAt(s: string, p: nat): (r: Option<nat>)
    ensures r.Some? ==> p + 5 <= r.value <= |s|
  {
    if p >= |s| || s[p] != '.' then None else StepAfterDot(s, p + 1)
  }

  /** `\s+\d+\.\s+` from `i`. */
  function StepAfterDot(s: string, i: nat): (r: Option<nat>)
    requires i <= |s|
    ensures r.Some? ==> i + 4 <= r.value <= |s|
  {
    var a := SkipSpaces(s, i);
    if a == i then None else StepNumber(s, a)
  }

  /** `\d+\.\s+` from `i`. */
  function StepNumber(s: string, i: nat): (r: Option<nat>)
    requires i <= |s|
    ensures r.Some? ==> i + 3 <= r.value <= |s|
  {
    var b := SkipWhile(s, i, IsDigit);
    if b == i || b >= |s| || s[b] != '.' then None else StepGap(s, b + 1)
  }

  /** `\s+` from `i`, the whitespace after the number. */
  function StepGap(s: string, i: nat): (r: Option<nat>)
    requires i <= |s|
    ensures r.Some? ==> i + 1 <= r.value <= |s|
  {
    var c := SkipSpaces(s, i);
    if c == i then None else Some(c)
  }

  /** Each step marker takes at least five characters. */
  lemma {:induction false} StepCountBound(s: string, from: nat)
    requires from <= |s|
    ensures 5 * CountMatches(s, from, StepAt, true) <= |s| - from
    decreases |s| - from
  {
    match FirstMatch(s, from, StepAt, true)
    case None =>
    case Some((q, e)) => StepCountBound(s, e);
  }

  /** Every step marker is non-empty and inside the text. */
  lemma StepsAdvance()
    ensures Advances(StepAt)
  {
  }

  /** `count_procedure_steps`: the number of step markers that start lines. */
  function CountProcedureSteps(content: string): (n: nat)
    ensures 5 * n <= |content|
  {
    StepCountBound(content, 0);
    CountMatches(content, 0, StepAt, true)
  }

  /** The marker read in `a + x` at `|a| + p` is the one read in `x` at `p`:
      the matcher only looks forward. */
  lemma StepAtShift(a: string, x: string, p: nat)
    requires p <= |x|
    ensures StepAt(a + x, |a| + p) == ShiftBy(StepAt(x, p), |a|)
  {
    if p < |x| {
      assert (a + x)[|a| + p] == x[p];
      if x[p] == '.' {
        StepAfterDotShift(a, x, p + 1);
      }
    }
  }

  lemma StepAfterDotShift(a: string, x: string, i: nat)
    requires i <= |x|
    ensures StepAfterDot(a + x, |a| + i) == ShiftBy(StepAfterDot(x, i), |a|)
  {
    SkipWhileShift(a, x, i, IsSpace);
    var q := SkipSpaces(x, i);
    if q > i {
      StepNumberShift(a, x, q);
    }
  }

  lemma StepNumberShift(a: string, x: string, i: nat)
    requires i <= |x|
    ensures StepNumber(a + x, |a| + i) == ShiftBy(StepNumber(x, i), |a|)
  {
    SkipWhileShift(a, x, i, IsDigit);
    var b := SkipWhile(x, i, IsDigit);
    if b < |x| {
      assert (a + x)[|a| + b] == x[b];
      if b > i && x[b] == '.' {
        StepGapShift(a, x, b + 1);
      }
    }
  }

  lemma StepGapShift(a: string, x: string, i: nat)
    requires i <= |x|
    ensures StepGap(a + x, |a| + i) == ShiftBy(StepGap(x, i), |a|)
  {
    SkipWhileShift(a, x, i, IsSpace);
  }

  /** A marker that ends inside a line still ends there whatever follows
      the line. */
  lemma StepAtExtend(l: string, t: string)
    requires StepAt(l, 0).Some? && StepAt(l, 0).value < |l|
    ensures StepAt(l + t, 0) == StepAt(l, 0)
  {
    var s := l + t;
    assert s[0] == l[0];
    var q := SkipSpaces(l, 1);
    var b := SkipWhile(l, q, IsDigit);
    SkipWhileExtend(l, t, 1, IsSpace);
    SkipWhileExtend(l, t, q, IsDigit);
    assert s[b] == l[b];
    SkipWhileExtend(l, t, b + 1, IsSpace);
  }

  /** A numbered step: the marker matches at the start of the line and the
      step's text follows on the same line. */
  predicate IsNumberedStep(line: string) {
    StepAt(line, 0).Some? && StepAt(line, 0).value < |line|
  }

  /** A line at which the marker fails before the line ends, whatever
      follows it: the line does not start with `.`; or the `.` is followed
      by a character that is not whitespace (a block title such as
      `.Procedure`); or the whitespace after it ends at a character that is
      not a digit (an ordinary step such as `. Open the file.`); or the
      number ends at a character other than `.`; or the `.` after the
      number is followed by a character that is not whitespace. */
  predicate CannotStartStep(line: string) {
    line == [] || line[0] != '.' ||
    var q := SkipSpaces(line, 1);
    var b := SkipWhile(line, q, IsDigit);
    q < |line| && (q == 1 || b == q || (b < |line| && (line[b] != '.' || (b + 1 < |line| && !IsSpace(line[b + 1])))))
  }

  /** A line starting with `.` that the marker cannot start at gives no
      match, whatever follows the line. */
  lemma RejectedStepExtend(l: string, t: string)
    requires CannotStartStep(l) && l != [] && l[0] == '.'
    ensures StepAt(l + t, 0).None?
  {
    var s := l + t;
    assert s[0] == l[0];
    var q := SkipSpaces(l, 1);
    SkipWhileExtend(l, t, 1, IsSpace);
    if q > 1 {
      var b := SkipWhile(l, q, IsDigit);
      if b > q {
        SkipWhileExtend(l, t, q, IsDigit);
        assert s[b] == l[b];
        if l[b] == '.' {
          SkipWhileExtend(l, t, b + 1, IsSpace);
        }
      }
    }
  }

  /** `. Open the file.`: a dot, whitespace and text that does not start
      with a digit is an ordinary step, which the marker cannot start at. */
  lemma PlainStepLine(w: string, x: string)
    requires w != [] && (forall i :: 0 <= i < |w| ==> IsSpace(w[i]))
    requires x != [] && !IsSpace(x[0]) && !IsDigit(x[0])
    ensures CannotStartStep("." + w + x) && !IsNumberedStep("." + w + x)
  {
    var l := "." + w + x;
    assert forall k :: 1 <= k < 1 + |w| ==> l[k] == w[k - 1];
    assert l[1 + |w|] == x[0];
    SkipWhileExact(l, 1, 1 + |w|, IsSpace);
  }

  /** The number of numbered steps among the lines. */
  function NumberedSteps(lines: seq<string>): (n: nat)
    ensures n <= |lines|
  {
    if lines == [] then 0 else (if IsNumberedStep(lines[0]) then 1 else 0) + NumberedSteps(lines[1..])
  }

  /** `. 1. Text`: a dot, whitespace, a number, a dot, whitespace and text is a
      numbered step. */
  lemma {:induction false} StepLineShape(d: string, x: string)
    requires d != [] && (forall i :: 0 <= i < |d| ==> IsDigit(d[i]))
    requires x != [] && !IsSpace(x[0])
    ensures IsNumberedStep(". " + d + ". " + x)
  {
    var l := ". " + d + ". " + x;
    var b := 2 + |d|;
    assert l[0] == '.' && l[1] == ' ' && l[2] == d[0] && l[b] == '.' && l[b + 1] == ' ' && l[b + 2] == x[0];
    SkipWhileExact(l, 1, 2, IsSpace);
    assert forall k :: 2 <= k < b ==> l[k] == d[k - 2];
    SkipWhileExact(l, 2, b, IsDigit);
    SkipWhileExact(l, b + 1, b + 2, IsSpace);
  }

  /** After whole lines, a numbered step is matched at its line start and
      the match ends inside the line. */
  lemma StepInContext(prefix: string, l: string, t: string)
    requires IsNumberedStep(l)
    ensures StepAt(prefix + l + t, |prefix|) == Some(|prefix| + StepAt(l, 0).value)
  {
    StepAtExtend(l, t);
    StepAtShift(prefix, l + t, 0);
    assert prefix + l + t == prefix + (l + t);
  }

  /** A line no marker can start at gives no match at its start. */
  lemma NoStepInContext(prefix: string, l: string, t: string)
    requires CannotStartStep(l) && (t == [] || t[0] == '\n')
    ensures StepAt(prefix + l + t, |prefix|).None?
  {
    var s := prefix + l + t;
    if l != [] {
      assert s[|prefix|] == l[0];
      if l[0] == '.' {
        RejectedStepExtend(l, t);
        StepAtShift(prefix, l + t, 0);
        assert s == prefix + (l + t);
      }
    } else if t != [] {
      assert s[|prefix|] == '\n';
    }
  }

  /** A line whose step marker, if any, is read within the line. */
  predicate StepLine(line: string) {
    IsNumberedStep(line) || CannotStartStep(line)
  }

  /** The step marker reads such a line alone, whatever surrounds it. */
  lemma StepsReadWithinLine()
    ensures ReadsWithinLine(StepAt, StepLine)
  {
    forall a: string, l: string, t: string | StepLine(l) && '\n' !in l && (t == [] || t[0] == '\n')
      ensures StepAt(Placed(a, l, t), |a|) == ShiftBy(StepAt(l, 0), |a|)
      ensures StepAt(l, 0).Some? ==> StepAt(l, 0).value <= |l|
    {
      if IsNumberedStep(l) {
        StepInContext(a, l, t);
      } else {
        NoStepInContext(a, l, t);
        NoStepInContext([], l, []);
        assert [] + l + [] == l;
      }
    }
  }

  /** On such lines, the lines the marker matches are the numbered steps. */
  lemma {:induction false} StepHits(lines: seq<string>)
    requires forall i :: 0 <= i < |lines| ==> StepLine(lines[i])
    ensures LineHits(lines, StepAt) == NumberedSteps(lines)
  {
    if lines != [] {
      if !IsNumberedStep(lines[0]) {
        NoStepInContext([], lines[0], []);
        assert [] + lines[0] + [] == lines[0];
      }
      StepHits(lines[1..]);
    }
  }

  /** The count of a procedure whose lines are numbered steps or lines no
      marker can start at is the number of its numbered steps. */
  lemma StepsCounted(lines: seq<string>)
    requires forall i :: 0 <= i < |lines| ==> '\n' !in lines[i]
    requires forall i :: 0 <= i < |lines| ==> StepLine(lines[i])
    ensures CountProcedureSteps(Join(lines, "\n")) == NumberedSteps(lines)
  {
    StepsAdvance();
    StepsReadWithinLine();
    CountMatchesLines([], lines, StepAt, StepLine);
    assert [] + Join(lines, "\n") == Join(lines, "\n");
    StepHits(lines);
  }

  /** A procedure made only of numbered steps, one per line, counts one
      step per line. */
  lemma {:induction false} OnlyStepsCounted(lines: seq<string>)
    requires forall i :: 0 <= i < |lines| ==> '\n' !in lines[i] && IsNumberedStep(lines[i])
    ensures CountProcedureSteps(Join(lines, "\n")) == |lines|
  {
    AllNumbered(lines);
    StepsCounted(lines);
  }

  lemma {:induction false} AllNumbered(lines: seq<string>)
    requires forall i :: 0 <= i < |lines| ==> IsNumberedStep(lines[i])
    ensures NumberedSteps(lines) == |lines|
  {
    if lines != [] {
      AllNumbered(lines[1..]);
    }
  }

  // ------------------------------------------------------------------
  // Validating files

  /** The number of violations reported by the check `name`. */
  function CountCheck(errors: seq<Violation>, name: string): (n: nat)
    ensures n <= |errors|
  {
    if errors == [] then 0
    else (if errors[0].check == name then 1 else 0) + CountCheck(errors[1..], name)
  }

  lemma {:induction false} CountCheckAppend(a: seq<Violation>, b: seq<Violation>, name: string)
    ensures CountCheck(a + b, name) == CountCheck(a, name) + CountCheck(b, name)
    decreases |a|
  {
    if a != [] {
      assert (a + b)[1..] == a[1..] + b;
      CountCheckAppend(a[1..], b, name);
    } else {
      assert a + b == b;
    }
  }

  /** No violation of `errs` comes from the check `name`. */
  lemma {:induction false} CountCheckNone(errs: seq<Violation>, name: string)
    requires forall k :: 0 <= k < |errs| ==> errs[k].check != name
    ensures CountCheck(errs, name) == 0
    decreases |errs|
  {
    if errs != [] {
      CountCheckNone(errs[1..], name);
    }
  }

  /** The `content_type` complaint of `validate_module`. */
  function TypeErrors(contentType: Option<string>): (r: seq<Violation>)
    ensures r != [] <==> contentType.Some? && contentType.value != [] && !IsContentType(contentType.value)
    ensures forall k :: 0 <= k < |r| ==> r[k].check == "content_type"
  {
    if contentType.Some? && contentType.value != [] && !IsContentType(contentType.value)
    then [Violation("content_type", "Unknown content type: " + contentType.value)]
    else []
  }

  const MissingMarker: string := "Missing [role=\"_abstract\"]"

  /** The failed checks among the blank-line, length and (when there is a
      text) self-reference checks, in that order, reported under
      `shortdesc`. */
  function ShortdescReports(blank: (bool, string), length: (bool, string), selfRef: Option<(bool, string)>)
    : (r: seq<Violation>)
    ensures forall k :: 0 <= k < |r| ==> r[k].check == "shortdesc"
    ensures r == [] <==> blank.0 && length.0 && (selfRef.Some? ==> selfRef.value.0)
  {
    (if blank.0 then [] else [Violation("shortdesc", blank.1)])
    + (if length.0 then [] else [Violation("shortdesc", length.1)])
    + (if selfRef.None? || selfRef.value.0 then [] else [Violation("shortdesc", selfRef.value.1)])
  }

  /** The short-description block of `validate_module`: the missing marker
      alone, or the blank-line, length and self-reference checks in turn
      (the last only when there is a text). */
  function ShortdescBlockErrors(content: string): (r: seq<Violation>)
    ensures forall k :: 0 <= k < |r| ==> r[k].check == "shortdesc"
  {
    if FindRoleAbstract(content).None? then [Violation("shortdesc", MissingMarker)]
    else
      var text := ShortdescParagraph(content).0;
      ShortdescReports(CheckBlankLineAfterTitle(content),
                       CheckShortdescLength(if text.Some? then text.value else []),
                       if text.Some? then Some(CheckSelfReferential(text.value)) else None)
  }

  function ShortdescErrors(content: string, contentType: Option<string>): (r: seq<Violation>)
    ensures forall k :: 0 <= k < |r| ==> r[k].check == "shortdesc"
  {
    if contentType.Some? && NeedsShortdesc(contentType.value) then ShortdescBlockErrors(content) else []
  }

  function ProcedureErrors(content: string, contentType: Option<string>): (r: seq<Violation>)
    ensures r != [] <==> contentType == Some("PROCEDURE") && CountProcedureSteps(content) > MaxProcedureSteps
    ensures forall k :: 0 <= k < |r| ==> r[k].check == "procedure"
  {
    if contentType == Some("PROCEDURE") && CountProcedureSteps(content) > MaxProcedureSteps
    then [Violation("procedure", "Procedure has " + NatToString(CountProcedureSteps(content)) + " steps (max 10)")]
    else []
  }

  /** The checks `validate_module` runs. */
  predicate ModuleCheck(name: string) {
    name == "content_type" || name == "shortdesc" || name == "procedure"
  }

  /** What `validate_module` reports, in the order it reports it. */
  function ModuleErrors(content: string, contentType: Option<string>): (r: seq<Violation>)
    ensures forall k :: 0 <= k < |r| ==> ModuleCheck(r[k].check)
    ensures r == [] <==>
              !(contentType.Some? && contentType.value != [] && !IsContentType(contentType.value))
              && ShortdescErrors(content, contentType) == []
              && !(contentType == Some("PROCEDURE") && CountProcedureSteps(content) > MaxProcedureSteps)
  {
    TypeErrors(contentType) + ShortdescErrors(content, contentType) + ProcedureErrors(content, contentType)
  }

  /** The appends of the short-description block: each failed check in turn. */
  method AppendShortdescReports(blank: (bool, string), length: (bool, string), selfRef: Option<(bool, string)>)
    returns (errors: seq<Violation>)
    ensures errors == ShortdescReports(blank, length, selfRef)
  {
    errors := [];
    if !blank.0 {
      errors := errors + [Violation("shortdesc", blank.1)];
    }
    if !length.0 {
      errors := errors + [Violation("shortdesc", length.1)];
    }
    if selfRef.Some? && !selfRef.value.0 {
      errors := errors + [Violation("shortdesc", selfRef.value.1)];
    }
  }

  /** The short-description block of `validate_module`: the marker test,
      then the blank-line check, the paragraph, its length check, and the
      self-reference check when there is a text. */
  method CheckShortdescBlock(content: string) returns (errors: seq<Violation>)
    ensures errors == ShortdescBlockErrors(content)
  {
    var hasAbstract := FindRoleAbstract(content).Some?;
    if !hasAbstract {
      return [Violation("shortdesc", MissingMarker)];
    }
    var blank := CheckBlankLineAfterTitle(content);
    var text, _, _ := GetShortdescParagraph(content);
    var length := CheckShortdescLength(if text.Some? then text.value else []);
    var selfRef := if text.Some? then Some(CheckSelfReferential(text.value)) else None;
    errors := AppendShortdescReports(blank, length, selfRef);
  }

  /** `validate_module`: appends each failed check in turn. */
  method ValidateModule(content: string, contentType: Option<string>) returns (errors: seq<Violation>)
    ensures errors == ModuleErrors(content, contentType)
  {
    errors := [];
    if contentType.Some? && contentType.value != [] && !IsContentType(contentType.value) {
      errors := errors + [Violation("content_type", "Unknown content type: " + contentType.value)];
    }
    if contentType.Some? && NeedsShortdesc(contentType.value) {
      var found := CheckShortdescBlock(content);
      errors := errors + found;
    }
    if contentType == Some("PROCEDURE") {
      var stepCount := CountProcedureSteps(content);
      if stepCount > MaxProcedureSteps {
        errors := errors + [Violation("procedure", "Procedure has " + NatToString(stepCount) + " steps (max 10)")];
      }
    }
  }

  lemma CountsOfModuleErrors(content: string, contentType: Option<string>, name: string)
    ensures CountCheck(ModuleErrors(content, contentType), name) ==
      CountCheck(TypeErrors(contentType), name) + CountCheck(ShortdescErrors(content, contentType), name)
      + CountCheck(ProcedureErrors(content, contentType), name)
  {
    CountCheckAppend(TypeErrors(contentType), ShortdescErrors(content, contentType), name);
    CountCheckAppend(TypeErrors(contentType) + ShortdescErrors(content, contentType),
                     ProcedureErrors(content, contentType), name);
  }

  /** A present, non-empty content type outside the five known ones gives
      exactly one `content_type` error; any other gives none. */
  lemma UnknownContentTypeReported(content: string, contentType: Option<string>)
    ensures CountCheck(ModuleErrors(content, contentType), "content_type") ==
      if contentType.Some? && contentType.value != [] && !IsContentType(contentType.value) then 1 else 0
  {
    CountsOfModuleErrors(content, contentType, "content_type");
    CountCheckNone(ShortdescErrors(content, contentType), "content_type");
    CountCheckNone(ProcedureErrors(content, contentType), "content_type");
  }

  /** Types that need no short description get no `shortdesc` error. */
  lemma NoShortdescCheckForOtherTypes(content: string, contentType: Option<string>)
    requires !(contentType.Some? && NeedsShortdesc(contentType.value))
    ensures CountCheck(ModuleErrors(content, contentType), "shortdesc") == 0
  {
    CountsOfModuleErrors(content, contentType, "shortdesc");
    CountCheckNone(TypeErrors(contentType), "shortdesc");
    CountCheckNone(ProcedureErrors(content, contentType), "shortdesc");
  }

  /** A missing marker is the only `shortdesc` error reported: the other
      short-description checks are skipped. */
  lemma MissingMarkerReportedAlone(content: string, contentType: Option<string>)
    requires contentType.Some? && NeedsShortdesc(contentType.value)
    requires FindRoleAbstract(content).None?
    ensures CountCheck(ModuleErrors(content, contentType), "shortdesc") == 1
    ensures Violation("shortdesc", MissingMarker) in ModuleErrors(content, contentType)
  {
    CountsOfModuleErrors(content, contentType, "shortdesc");
    CountCheckNone(TypeErrors(contentType), "shortdesc");
    CountCheckNone(ProcedureErrors(content, contentType), "shortdesc");
    assert ShortdescErrors(content, contentType) == [Violation("shortdesc", MissingMarker)];
    assert ModuleErrors(content, contentType)[|TypeErrors(contentType)|] == Violation("shortdesc", MissingMarker);
  }

  /** A procedure with more than ten steps gets one `procedure` error;
      other files get none. */
  lemma StepLimitReported(content: string, contentType: Option<string>)
    ensures CountCheck(ModuleErrors(content, contentType), "procedure") ==
      if contentType == Some("PROCEDURE") && CountProcedureSteps(content) > MaxProcedureSteps then 1 else 0
  {
    CountsOfModuleErrors(content, contentType, "procedure");
    CountCheckNone(TypeErrors(contentType), "procedure");
    CountCheckNone(ShortdescErrors(content, contentType), "procedure");
  }

  /** A module of a known type whose short description passes every check,
      and that is not an overlong procedure, has no errors. */
  lemma CompliantModulePasses(content: string, t: string)
    requires IsContentType(t)
    requires NeedsShortdesc(t) ==> ShortdescPasses(content)
    requires t == "PROCEDURE" ==> CountProcedureSteps(content) <= MaxProcedureSteps
    ensures ModuleErrors(content, Some(t)) == []
  {
    if NeedsShortdesc(t) {
      ShortdescBlockPasses(content);
    }
  }

  /** The marker is present, a blank line follows the title, and the
      paragraph is present, of an allowed length and free of
      self-referential language. */
  predicate ShortdescPasses(content: string) {
    && FindRoleAbstract(content).Some?
    && CheckBlankLineAfterTitle(content).0
    && ShortdescParagraph(content).0.Some?
    && ShortdescMinChars <= |ShortdescParagraph(content).0.value| <= ShortdescMaxChars
    && !HasSelfRef(ShortdescParagraph(content).0.value)
  }

  lemma ShortdescBlockPasses(content: string)
    requires ShortdescPasses(content)
    ensures ShortdescBlockErrors(content) == []
  {
    var text := ShortdescParagraph(content).0.value;
    assert CheckShortdescLength(text).0;
    assert CheckSelfReferential(text).0;
  }

  function ShowContentType(contentType: Option<string>): string {
    if contentType.Some? then contentType.value else "None"
  }

  /** The `content_type` complaint of `validate_assembly`. */
  function AssemblyTypeErrors(contentType: Option<string>): (r: seq<Violation>)
    ensures r != [] <==> contentType != Some("ASSEMBLY")
    ensures forall k :: 0 <= k < |r| ==> r[k].check == "content_type"
  {
    if contentType != Some("ASSEMBLY")
    then [Violation("content_type", "Assembly should have _mod-docs-content-type: ASSEMBLY, got "
                                    + ShowContentType(contentType))]
    else []
  }

  /** What `validate_assembly` reports: a content-type complaint unless the
      type is `ASSEMBLY`, one error per line of text between includes, then
      the module checks for type `ASSEMBLY`. */
  function AssemblyErrors(content: string): (r: seq<Violation>)
    ensures forall k :: 0 <= k < |r| ==> ModuleCheck(r[k].check) || r[k].check == "no_text_between_includes"
    ensures r == [] <==>
              GetContentType(content) == Some("ASSEMBLY") && BetweenIncludesIssues(content) == []
              && ShortdescErrors(content, Some("ASSEMBLY")) == []
  {
    var a := AssemblyTypeErrors(GetContentType(content));
    var b := IncludeViolations(BetweenIncludesIssues(content));
    var m := ModuleErrors(content, Some("ASSEMBLY"));
    assert m == [] <==> ShortdescErrors(content, Some("ASSEMBLY")) == [];
    AssemblyChecks(a, b, m);
    a + b + m
  }

  /** The checks of the three parts of `validate_assembly`, put together. */
  lemma AssemblyChecks(a: seq<Violation>, b: seq<Violation>, m: seq<Violation>)
    requires forall k :: 0 <= k < |a| ==> a[k].check == "content_type"
    requires forall k :: 0 <= k < |b| ==> b[k].check == "no_text_between_includes"
    requires forall k :: 0 <= k < |m| ==> ModuleCheck(m[k].check)
    ensures forall k :: 0 <= k < |a + b + m| ==>
              ModuleCheck((a + b + m)[k].check) || (a + b + m)[k].check == "no_text_between_includes"
    ensures a + b + m == [] <==> a == [] && b == [] && m == []
  {
    forall k | 0 <= k < |a + b + m|
      ensures ModuleCheck((a + b + m)[k].check) || (a + b + m)[k].check == "no_text_between_includes"
    {
      if k < |a| {
        assert (a + b + m)[k] == a[k];
      } else if k < |a| + |b| {
        assert (a + b + m)[k] == b[k - |a|];
      } else {
        assert (a + b + m)[k] == m[k - |a| - |b|];
      }
    }
    assert |a + b + m| == |a| + |b| + |m|;
  }

  function IncludeViolations(issues: seq<string>): (r: seq<Violation>)
    ensures |r| == |issues|
    ensures forall k :: 0 <= k < |r| ==> r[k] == Violation("no_text_between_includes", issues[k])
  {
    seq(|issues|, k requires 0 <= k < |issues| => Violation("no_text_between_includes", issues[k]))
  }

  /** The loop of `validate_assembly` that reports each issue. */
  method AppendIncludeViolations(errors: seq<Violation>, issues: seq<string>) returns (errors': seq<Violation>)
    ensures errors' == errors + IncludeViolations(issues)
  {
    errors' := errors;
    var k := 0;
    while k < |issues|
      invariant 0 <= k <= |issues|
      invariant errors' == errors + IncludeViolations(issues[..k])
    {
      errors' := errors' + [Violation("no_text_between_includes", issues[k])];
      k := k + 1;
    }
    assert issues[..k] == issues;
  }

  /** `validate_assembly`. */
  method ValidateAssembly(content: string) returns (errors: seq<Violation>)
    ensures errors == AssemblyErrors(content)
  {
    errors := [];
    var contentType := GetContentType(content);
    if contentType != Some("ASSEMBLY") {
      errors := errors + [Violation("content_type", "Assembly should have _mod-docs-content-type: ASSEMBLY, got "
                                                    + ShowContentType(contentType))];
    }
    assert errors == AssemblyTypeErrors(contentType);
    var _, issues := CheckAssemblyNoTextBetweenIncludes(content);
    errors := AppendIncludeViolations(errors, issues);
    var moduleErrors := ValidateModule(content, Some("ASSEMBLY"));
    errors := errors + moduleErrors;
  }

  lemma {:induction false} CountIncludeViolations(issues: seq<string>, name: string)
    ensures CountCheck(IncludeViolations(issues), name) == if name == "no_text_between_includes" then |issues| else 0
    decreases |issues|
  {
    if issues != [] {
      assert IncludeViolations(issues)[1..] == IncludeViolations(issues[1..]);
      CountIncludeViolations(issues[1..], name);
    }
  }

  lemma CountsOfAssemblyErrors(content: string, name: string)
    ensures CountCheck(AssemblyErrors(content), name) ==
      CountCheck(AssemblyTypeErrors(GetContentType(content)), name)
      + CountCheck(IncludeViolations(BetweenIncludesIssues(content)), name)
      + CountCheck(ModuleErrors(content, Some("ASSEMBLY")), name)
  {
    var a := AssemblyTypeErrors(GetContentType(content));
    var b := IncludeViolations(BetweenIncludesIssues(content));
    CountCheckAppend(a, b, name);
    CountCheckAppend(a + b, ModuleErrors(content, Some("ASSEMBLY")), name);
  }

  /** An assembly gets one `content_type` error exactly when its type is
      not `ASSEMBLY`. */
  lemma AssemblyTypeErrorCount(content: string)
    ensures CountCheck(AssemblyErrors(content), "content_type") ==
      if GetContentType(content) == Some("ASSEMBLY") then 0 else 1
  {
    CountsOfAssemblyErrors(content, "content_type");
    CountIncludeViolations(BetweenIncludesIssues(content), "content_type");
    UnknownContentTypeReported(content, Some("ASSEMBLY"));
  }

  /** An assembly gets one `no_text_between_includes` error per issue. */
  lemma AssemblyIncludeErrorCount(content: string)
    ensures CountCheck(AssemblyErrors(content), "no_text_between_includes") == |BetweenIncludesIssues(content)|
  {
    var name := "no_text_between_includes";
    assert !ModuleCheck(name) by {
      assert |name| == 24 && |"content_type"| == 12 && |"shortdesc"| == 9 && |"procedure"| == 9;
    }
    CountsOfAssemblyErrors(content, name);
    CountCheckNone(AssemblyTypeErrors(GetContentType(content)), name);
    CountIncludeViolations(BetweenIncludesIssues(content), name);
    CountCheckNone(ModuleErrors(content, Some("ASSEMBLY")), name);
  }

  // ------------------------------------------------------------------
  // The corpus

  /** The routing test on the file name: it contains `assembly` and
      `assembly_`. */
  predicate IsAssemblyName(name: string) {
    Contains(name, "assembly") && Contains(name, "assembly_")
  }

  /** The first half of the routing test is implied by the second. */
  lemma AssemblyNameRouting(name: string)
    ensures IsAssemblyName(name) <==> Contains(name, "assembly_")
  {
    if Contains(name, "assembly_") {
      var i := Find(name, "assembly_", 0).value;
      assert name[i..i + 8] == "assembly_"[..8];
      ContainsAt(name, "assembly", i);
    }
  }

  /** What `main` reports for one readable file. */
  function FileErrors(path: string, content: string): seq<Violation> {
    if IsAssemblyName(BaseName(path)) then AssemblyErrors(content)
    else ModuleErrors(content, GetContentType(content))
  }

  /** A file of the corpus: its text, or why it could not be read. */
  datatype FileText = Readable(content: string) | Unreadable(reason: string)

  datatype SourceFile = SourceFile(path: string, text: FileText)

  /** The files `main` looks at: those outside any `website` directory. */
  predicate IsChecked(f: SourceFile) { "website" !in Components(f.path) }

  function ErrorsOf(f: SourceFile): seq<Violation> {
    match f.text
    case Unreadable(reason) => [Violation("read", reason)]
    case Readable(content) => FileErrors(f.path, content)
  }

  // The tally is stated for any per-file check; `main` uses `ErrorsOf`.

  /** How many of the first `k` files are checked and pass. */
  function PassedCount(files: seq<SourceFile>, k: nat, errorsOf: SourceFile -> seq<Violation>): nat
    requires k <= |files|
  {
    if k == 0 then 0
    else PassedCount(files, k - 1, errorsOf) + (if IsChecked(files[k - 1]) && errorsOf(files[k - 1]) == [] then 1 else 0)
  }

  /** The checked files among the first `k` that fail, with their errors,
      in order. */
  function Failures(files: seq<SourceFile>, k: nat, errorsOf: SourceFile -> seq<Violation>): (r: seq<(string, seq<Violation>)>)
    requires k <= |files|
    ensures forall i :: 0 <= i < |r| ==> r[i].1 != []
  {
    if k == 0 then []
    else
      var f := files[k - 1];
      Failures(files, k - 1, errorsOf) + (if IsChecked(f) && errorsOf(f) != [] then [(f.path, errorsOf(f))] else [])
  }

  function CountChecked(files: seq<SourceFile>, k: nat): nat
    requires k <= |files|
  {
    if k == 0 then 0 else CountChecked(files, k - 1) + (if IsChecked(files[k - 1]) then 1 else 0)
  }

  /** Every checked file is either counted as passed or listed as failed. */
  lemma {:induction false} TallyCoversCheckedFiles(files: seq<SourceFile>, k: nat, errorsOf: SourceFile -> seq<Violation>)
    requires k <= |files|
    ensures PassedCount(files, k, errorsOf) + |Failures(files, k, errorsOf)| == CountChecked(files, k)
  {
    if k > 0 {
      TallyCoversCheckedFiles(files, k - 1, errorsOf);
    }
  }

  /** A failed entry carries exactly the errors its file produces. */
  lemma {:induction false} TallyFailedEntries(files: seq<SourceFile>, k: nat, errorsOf: SourceFile -> seq<Violation>, i: nat)
    requires k <= |files| && i < |Failures(files, k, errorsOf)|
    ensures exists j :: (0 <= j < k && IsChecked(files[j]) &&
                         Failures(files, k, errorsOf)[i] == (files[j].path, errorsOf(files[j])))
  {
    var failed := Failures(files, k - 1, errorsOf);
    if i < |failed| {
      TallyFailedEntries(files, k - 1, errorsOf, i);
      var j :| 0 <= j < k - 1 && IsChecked(files[j]) && failed[i] == (files[j].path, errorsOf(files[j]));
      assert Failures(files, k, errorsOf)[i] == failed[i];
    } else {
      assert Failures(files, k, errorsOf)[i] == (files[k - 1].path, errorsOf(files[k - 1]));
    }
  }

  /** One file of the loop of `main`: read it, route it by name, validate it. */
  method ValidateFile(f: SourceFile) returns (errs: seq<Violation>)
    ensures errs == ErrorsOf(f)
  {
    match f.text {
      case Unreadable(reason) =>
        errs := [Violation("read", reason)];
      case Readable(content) =>
        if IsAssemblyName(BaseName(f.path)) {
          errs := ValidateAssembly(content);
        } else {
          errs := ValidateModule(content, GetContentType(content));
        }
    }
  }

  /** One pass of the loop of `main`: a checked file is validated and
      counted as passed or listed as failed. */
  method TallyFile(files: seq<SourceFile>, k: nat, passed: nat, failed: seq<(string, seq<Violation>)>)
    returns (passed': nat, failed': seq<(string, seq<Violation>)>)
    requires k < |files|
    requires passed == PassedCount(files, k, ErrorsOf) && failed == Failures(files, k, ErrorsOf)
    ensures passed' == PassedCount(files, k + 1, ErrorsOf) && failed' == Failures(files, k + 1, ErrorsOf)
  {
    passed', failed' := passed, failed;
    var f := files[k];
    if IsChecked(f) {
      var errs := ValidateFile(f);
      if errs != [] {
        failed' := failed + [(f.path, errs)];
      } else {
        passed' := passed + 1;
      }
    }
  }

  /** The loop of `main` over the corpus. */
  method ValidateCorpus(files: seq<SourceFile>) returns (passed: nat, failed: seq<(string, seq<Violation>)>)
    ensures passed == PassedCount(files, |files|, ErrorsOf)
    ensures failed == Failures(files, |files|, ErrorsOf)
    ensures passed + |failed| == CountChecked(files, |files|)
  {
    passed, failed := 0, [];
    var k := 0;
    while k < |files|
      invariant 0 <= k <= |files|
      invariant passed == PassedCount(files, k, ErrorsOf)
      invariant failed == Failures(files, k, ErrorsOf)
    {
      passed, failed := TallyFile(files, k, passed, failed);
      k := k + 1;
    }
    TallyCoversCheckedFiles(files, |files|, ErrorsOf);
  }

  /** `collect_mapped_paths`: every non-empty assembly path and every topic
      path of the mapping. */
  method CollectMappedPaths(jobs: seq<Job>) returns (out: set<string>)
    ensures out == AssemblyPaths(jobs) + TopicPaths(jobs)
  {
    out := {};
    var i := 0;
    while i < |jobs|
      invariant 0 <= i <= |jobs|
      invariant out == AssemblyPaths(jobs[..i]) + TopicPaths(jobs[..i])
    {
      var job := jobs[i];
      ghost var before := out;
      var k := 0;
      while k < |job.assemblies|
        invariant 0 <= k <= |job.assemblies|
        invariant out == before + AssemblyPathsOf(job.assemblies[..k])
      {
        AssemblyPathsOfStep(job.assemblies, k);
        var p := job.assemblies[k].path;
        if p != [] {
          out := out + {p};
        }
        k := k + 1;
      }
      assert job.assemblies[..k] == job.assemblies;
      ghost var middle := out;
      k := 0;
      while k < |job.topics|
        invariant 0 <= k <= |job.topics|
        invariant out == middle + ElementsOf(job.topics[..k])
      {
        ElementsOfStep(job.topics, k);
        out := out + {job.topics[k]};
        k := k + 1;
      }
      assert job.topics[..k] == job.topics;
      MappedPathsStep(jobs, i);
      i := i + 1;
    }
    assert jobs[..i] == jobs;
  }

  lemma AssemblyPathsOfStep(refs: seq<AssemblyRef>, k: nat)
    requires k < |refs|
    ensures AssemblyPathsOf(refs[..k + 1]) ==
      AssemblyPathsOf(refs[..k]) + (if refs[k].path != [] then {refs[k].path} else {})
  {
    assert refs[..k + 1][..k] == refs[..k];
  }

  lemma ElementsOfStep(s: seq<string>, k: nat)
    requires k < |s|
    ensures ElementsOf(s[..k + 1]) == ElementsOf(s[..k]) + {s[k]}
  {
    forall t | t in ElementsOf(s[..k + 1]) ensures t in ElementsOf(s[..k]) + {s[k]} {
      var j :| 0 <= j < k + 1 && s[..k + 1][j] == t;
      if j < k { assert s[..k][j] == t; }
    }
    forall t | t in ElementsOf(s[..k]) ensures t in ElementsOf(s[..k + 1]) {
      var j :| 0 <= j < k && s[..k][j] == t;
      assert s[..k + 1][j] == t;
    }
    assert s[..k + 1][k] == s[k];
  }

  lemma MappedPathsStep(jobs: seq<Job>, i: nat)
    requires i < |jobs|
    ensures AssemblyPaths(jobs[..i + 1]) == AssemblyPaths(jobs[..i]) + AssemblyPathsOf(jobs[i].assemblies)
    ensures TopicPaths(jobs[..i + 1]) == TopicPaths(jobs[..i]) + ElementsOf(jobs[i].topics)
  {
    assert jobs[..i + 1][..i] == jobs[..i];
  }
}
