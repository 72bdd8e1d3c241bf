/** The short-description fixer: it adds a missing `[role="_abstract"]`
    block after title lines, shortens paragraphs over 300 characters at a
    word boundary, and pads paragraphs under 50 characters with a fixed
    clause.  File contents are plain strings; reading and writing files is
    replaced by returning the text that would be written. */
module CqaFixShortdesc {
  import opened Text
  import opened AsciiDoc

  const ShortdescMin: nat := 50
  const ShortdescMax: nat := 300

  /** The character `…` that marks a shortened paragraph. */
  const Ellipsis: char := '\U{2026}'

  /** The clause appended to a paragraph that is too short (41 characters). */
  const Suffix: string := " Use this when writing or matching rules."

  // ------------------------------------------------------------------
  // Locating the paragraph after the marker

  /** The pattern `^\[role="_abstract"\]\s*$` (multi-line mode) tried at `p`.
      The greedy `\s*` runs over every whitespace character, newlines
      included, and then gives characters back until `$` holds: the match
      ends at the end of the text when the run reaches it, and otherwise on
      the last newline of the run (which the match does not consume). */
  function AbstractLineAt(s: string, p: nat): (r: Option<nat>)
    ensures r.Some? ==> OccursAt(s, RoleAbstract, p) && p + |RoleAbstract| <= r.value <= |s|
    ensures r.Some? ==> r.value == |s| || s[r.value] == '\n'
    ensures r.Some? ==> forall k :: p + |RoleAbstract| <= k < r.value ==> IsSpace(s[k])
    ensures r.Some? && r.value < |s| ==>
      forall k :: r.value < k < SkipSpaces(s, r.value) ==> s[k] != '\n'
  {
    if !OccursAt(s, RoleAbstract, p) then None
    else
      var a := p + |RoleAbstract|;
      var j := SkipSpaces(s, a);
      if j == |s| then Some(|s|)
      else match LastWhere(s, a, j, IsNewline)
        case None => None
        case Some(k) =>
          SkipSpacesSame(s, a, k);
          Some(k)
  }

  lemma {:induction false} SkipSpacesSame(s: string, a: nat, b: nat)
    requires a <= |s| && a <= b <= SkipSpaces(s, a)
    ensures SkipSpaces(s, b) == SkipSpaces(s, a)
    decreases b - a
  {
    if a < b {
      assert SkipSpaces(s, a) == SkipSpaces(s, a + 1);
      SkipSpacesSame(s, a + 1, b);
    }
  }

  /** The marker matches at `p` exactly when the rest of its line holds
      nothing but whitespace. */
  lemma MarkerLineMatches(s: string, p: nat)
    requires OccursAt(s, RoleAbstract, p)
    ensures AbstractLineAt(s, p).Some? <==>
      AllSpace(s[p + |RoleAbstract|..LineEnd(s, p + |RoleAbstract|)])
  {
    var a := p + |RoleAbstract|;
    var e := LineEnd(s, a);
    var j := SkipSpaces(s, a);
    if AllSpace(s[a..e]) {
      assert forall k :: a <= k < e ==> IsSpace(s[k]) by {
        forall k | a <= k < e ensures IsSpace(s[k]) { assert s[a..e][k - a] == s[k]; }
      }
      if j < |s| {
        assert e < j;
        assert IsNewline(s[e]);
        assert LastWhere(s, a, j, IsNewline).Some?;
      }
    }
    var r := AbstractLineAt(s, p);
    if r.Some? {
      forall k | 0 <= k < e - a ensures IsSpace(s[a..e][k]) {
        assert s[a..e][k] == s[a + k];
      }
    }
  }

  /** Where the paragraph was found: its text and the span `[start, end)`
      of the content it was taken from. */
  datatype Located = Absent | At(para: string, start: nat, end: nat)

  /** The paragraph that starts at `start`: up to the first blank-line
      separator `"\n\n"` at or after it (or the end of the content), with
      newlines turned into spaces and surrounding whitespace removed. */
  function ParagraphFrom(content: string, start: nat): (r: Located)
    requires start <= |content|
    ensures r.At? && r.start == start && start <= r.end <= |content|
    ensures r.end == |content| || OccursAt(content, "\n\n", r.end)
    ensures forall k :: start <= k < r.end ==> !OccursAt(content, "\n\n", k)
    ensures '\n' !in r.para
    ensures r.para == [] <==> AllSpace(content[start..r.end])
    ensures r.para != [] ==> !IsSpace(r.para[0]) && !IsSpace(r.para[|r.para| - 1])
  {
    var end := match Find(content, "\n\n", start) case Some(e) => e case None => |content|;
    var flat := Replace(content[start..end], "\n", " ");
    ReplaceNewlines(content[start..end]);
    ReplaceNewlinesSpaces(content[start..end]);
    StripNoNewline(flat);
    StripEmpty(flat);
    At(Strip(flat), start, end)
  }

  /** The paragraph after the first marker line, which starts where the
      marker's match ends. */
  function FirstParagraph(content: string): (r: Located)
    ensures r.Absent? <==> FirstMatch(content, 0, AbstractLineAt, true).None?
  {
    match FirstMatch(content, 0, AbstractLineAt, true)
    case None => Absent
    case Some(m) => ParagraphFrom(content, m.1)
  }

  lemma FirstParagraphFrom(content: string, q: nat, a: nat)
    requires FirstMatch(content, 0, AbstractLineAt, true) == Some((q, a))
    ensures a <= |content| && FirstParagraph(content) == ParagraphFrom(content, a)
  {
  }

  /** The paragraph found satisfies `Placed`: the marker's match ends on a
      newline or at the end of the content. */
  lemma FirstParagraphPlaced(content: string)
    ensures Placed(content, FirstParagraph(content))
  {
    match FirstMatch(content, 0, AbstractLineAt, true)
    case None =>
    case Some(m) =>
      FirstParagraphFrom(content, m.0, m.1);
  }

  /** What the repairs rely on about a located paragraph: its span lies in
      the content and starts on a newline (or at the end), and a non-blank
      paragraph has a non-empty span and starts with a non-space. */
  predicate Placed(content: string, loc: Located) {
    loc.At? ==>
      loc.start <= loc.end <= |content| &&
      (loc.start == |content| || content[loc.start] == '\n') &&
      '\n' !in loc.para &&
      (loc.para != [] ==> loc.start < loc.end && !IsSpace(loc.para[0]))
  }


  /** `content[:start] + new + content[end:]`: everything before `start`
      and from `end` onward is kept as it was. */
  function Splice(content: string, start: nat, end: nat, replacement: string): (r: string)
    requires start <= end <= |content|
    ensures |r| == |content| - (end - start) + |replacement|
    ensures r[..start] == content[..start]
    ensures r[start..start + |replacement|] == replacement
    ensures r[start + |replacement|..] == content[end..]
  {
    content[..start] + replacement + content[end..]
  }

  /** A marker line with nothing after it, followed by a line that starts
      with text, is matched up to its own newline. */
  lemma MarkerThenText(content: string, q: nat)
    requires OccursAt(content, RoleAbstract, q)
    requires q + |RoleAbstract| + 1 < |content|
    requires content[q + |RoleAbstract|] == '\n' && !IsSpace(content[q + |RoleAbstract| + 1])
    ensures AbstractLineAt(content, q) == Some(q + |RoleAbstract|)
  {
    var a := q + |RoleAbstract|;
    assert SkipSpaces(content, a) == SkipSpaces(content, a + 1);
    assert SkipSpaces(content, a + 1) == a + 1;
    assert LastWhere(content, a, a + 1, IsNewline) == Some(a);
  }

  /** The first marker line, when it is directly followed by a line that
      starts with text, is matched up to its own newline. */
  lemma FirstMarkerThenText(content: string, q: nat)
    requires IsLineStart(content, q) && OccursAt(content, RoleAbstract, q)
    requires q + |RoleAbstract| + 1 < |content|
    requires content[q + |RoleAbstract|] == '\n' && !IsSpace(content[q + |RoleAbstract| + 1])
    requires forall q' :: 0 <= q' < q && IsLineStart(content, q') ==> AbstractLineAt(content, q').None?
    ensures FirstMatch(content, 0, AbstractLineAt, true) == Some((q, q + |RoleAbstract|))
  {
    MarkerThenText(content, q);
    FirstMatchAt(content, 0, AbstractLineAt, true, q);
  }

  /** When the marker line is directly followed by the paragraph, the span
      starts on the newline that ends the marker line (not after it), so a
      splice, which keeps `content[..start]`, puts the new paragraph on the
      marker line itself. */
  lemma SpliceJoinsMarkerLine(content: string, q: nat)
    requires IsLineStart(content, q) && OccursAt(content, RoleAbstract, q)
    requires q + |RoleAbstract| + 1 < |content|
    requires content[q + |RoleAbstract|] == '\n' && !IsSpace(content[q + |RoleAbstract| + 1])
    requires forall q' :: 0 <= q' < q && IsLineStart(content, q') ==> AbstractLineAt(content, q').None?
    ensures FirstParagraph(content).At?
    ensures FirstParagraph(content).start == q + |RoleAbstract|
    ensures FirstParagraph(content).para != []
  {
    var a := q + |RoleAbstract|;
    FirstMarkerThenText(content, q);
    FirstParagraphFrom(content, q, a);
    ParagraphAfterNewline(content, a);
  }

  /** A paragraph whose span starts on a newline followed by text is not
      blank. */
  lemma ParagraphAfterNewline(content: string, a: nat)
    requires a + 1 < |content| && content[a] == '\n' && !IsSpace(content[a + 1])
    ensures ParagraphFrom(content, a).para != []
  {
    var loc := ParagraphFrom(content, a);
    EndPastText(content, a, loc.end);
    SpaceAtInSlice(content, a, loc.end, a + 1);
  }

  /** A slice holding a non-space character is not all whitespace. */
  lemma SpaceAtInSlice(s: string, lo: nat, hi: nat, k: nat)
    requires lo <= k < hi <= |s| && !IsSpace(s[k])
    ensures !AllSpace(s[lo..hi])
  {
    assert s[lo..hi][k - lo] == s[k];
  }

  /** A blank-line separator cannot start on or right before text. */
  lemma EndPastText(s: string, a: nat, e: nat)
    requires a <= e <= |s| && a + 1 < |s| && !IsSpace(s[a + 1])
    requires e == |s| || OccursAt(s, "\n\n", e)
    ensures e >= a + 2
  {
  }

  // ------------------------------------------------------------------
  // Inserting a missing abstract block

  /** `re.match(r"^=+\s+", line)` on a line without newlines. */
  predicate IsHeadingLine(line: string) {
    var a := SkipWhile(line, 0, IsEquals);
    1 <= a < |line| && IsSpace(line[a])
  }

  /** A line that may follow a title before the abstract: blank, or an
      attribute (`:`) or comment (`//`) line once stripped. */
  predicate IsTitleTail(line: string) {
    var t := Strip(line);
    t == [] || StartsWith(t, ":") || StartsWith(t, "//")
  }

  /** `^=+\s+` matches exactly when the line has a non-empty run of `=`
      followed by whitespace: the run cannot stop early, since whitespace
      is not `=`. */
  lemma HeadingLineIff(line: string)
    ensures IsHeadingLine(line) <==>
              exists a :: 1 <= a < |line| && (forall k :: 0 <= k < a ==> line[k] == '=') && IsSpace(line[a])
  {
    if a :| 1 <= a < |line| && (forall k :: 0 <= k < a ==> line[k] == '=') && IsSpace(line[a]) {
      SkipWhileExact(line, 0, a, IsEquals);
    }
  }

  /** Only the leading whitespace matters to the title-tail test: a line is
      part of the title's tail exactly when it is blank or, without its
      leading whitespace, starts with `:` or `//`. */
  lemma TitleTailIff(line: string)
    ensures IsTitleTail(line) <==>
              AllSpace(line) || StartsWith(LStrip(line), ":") || StartsWith(LStrip(line), "//")
  {
    StripEmpty(line);
    RStripKeepsPrefix(LStrip(line), ":");
    RStripKeepsPrefix(LStrip(line), "//");
  }

  /** Trailing whitespace never reaches into a prefix free of whitespace. */
  lemma RStripKeepsPrefix(l: string, p: string)
    requires forall i :: 0 <= i < |p| ==> !IsSpace(p[i])
    ensures StartsWith(RStrip(l), p) <==> StartsWith(l, p)
  {
    var r := RStrip(l);
    if StartsWith(l, p) && p != [] {
      assert l[|p| - 1] == p[|p| - 1];
      assert |r| >= |p|;
      assert r[..|p|] == l[..|p|];
    }
    if StartsWith(r, p) {
      assert l[..|p|] == r[..|p|];
    }
  }

  /** A line that starts with `=` is never a title-tail line. */
  lemma HeadingNotTitleTail(line: string)
    ensures IsHeadingLine(line) ==> !IsTitleTail(line)
  {
    if IsHeadingLine(line) {
      assert line[0] == '=';
      assert !IsSpace(line[0]);
      assert LStrip(line) == line;
      StripEmpty(line);
      assert !AllSpace(line);
      var t := Strip(line);
      assert t == line[..|t|];
      assert t[0] == '=';
    }
  }

  /** The four lines inserted after a title. */
  function AbstractBlock(shortdesc: string): (r: seq<string>)
    ensures |r| == 4 && r[0] == [] && r[1] == RoleAbstract && r[3] == []
    ensures |r[2]| <= ShortdescMax && |r[2]| <= |shortdesc| && r[2] == shortdesc[..|r[2]|]
  {
    ["", RoleAbstract, Take(shortdesc, ShortdescMax), ""]
  }

  /** The output lines for `lines[i..]`: each heading line is copied with
      its run of tail lines, then `block` follows. */
  function WithBlocks(lines: seq<string>, i: nat, block: seq<string>,
                      heading: string -> bool, tail: string -> bool): seq<string>
    requires i <= |lines|
    decreases |lines| - i
  {
    if i == |lines| then []
    else if heading(lines[i]) then
      var j := SkipWhile(lines, i + 1, tail);
      [lines[i]] + lines[i + 1..j] + block + WithBlocks(lines, j, block, heading, tail)
    else [lines[i]] + WithBlocks(lines, i + 1, block, heading, tail)
  }

  /** The number of heading lines in `lines[i..]`. */
  function HeadingCount(lines: seq<string>, i: nat, heading: string -> bool): nat
    requires i <= |lines|
    decreases |lines| - i
  {
    if i == |lines| then 0
    else (if heading(lines[i]) then 1 else 0) + HeadingCount(lines, i + 1, heading)
  }

  lemma {:induction false} HeadingCountSkip(lines: seq<string>, i: nat, j: nat,
                                           heading: string -> bool)
    requires i <= j <= |lines|
    requires forall k :: i <= k < j ==> !heading(lines[k])
    ensures HeadingCount(lines, i, heading) == HeadingCount(lines, j, heading)
    decreases j - i
  {
    if i < j {
      HeadingCountSkip(lines, i + 1, j, heading);
    }
  }

  /** Every input line comes out, and each heading adds exactly one block. */
  lemma {:induction false} WithBlocksCount(lines: seq<string>, i: nat, block: seq<string>,
                                          heading: string -> bool, tail: string -> bool)
    requires i <= |lines|
    requires forall l :: tail(l) ==> !heading(l)
    ensures |WithBlocks(lines, i, block, heading, tail)| ==
      |lines| - i + |block| * HeadingCount(lines, i, heading)
    decreases |lines| - i
  {
    if i < |lines| {
      if heading(lines[i]) {
        var j := SkipWhile(lines, i + 1, tail);
        WithBlocksCount(lines, j, block, heading, tail);
        HeadingCountSkip(lines, i + 1, j, heading);
        var n := HeadingCount(lines, j, heading);
        assert HeadingCount(lines, i, heading) == 1 + n;
        MulSucc(|block|, n);
        var rest := WithBlocks(lines, j, block, heading, tail);
        assert WithBlocks(lines, i, block, heading, tail) == [lines[i]] + lines[i + 1..j] + block + rest;
      } else {
        WithBlocksCount(lines, i + 1, block, heading, tail);
        assert HeadingCount(lines, i, heading) == HeadingCount(lines, i + 1, heading);
      }
    }
  }

  lemma MulSucc(b: nat, n: nat)
    ensures b * (1 + n) == b + b * n
  {
  }

  /** With an empty block the output is the input: the lines are kept, in
      order, and nothing but copies of the block is ever added. */
  lemma {:induction false} WithEmptyBlock(lines: seq<string>, i: nat,
                                         heading: string -> bool, tail: string -> bool)
    requires i <= |lines|
    ensures WithBlocks(lines, i, [], heading, tail) == lines[i..]
    decreases |lines| - i
  {
    if i < |lines| {
      WithBlocksAt(lines, i, [], heading, tail);
      if heading(lines[i]) {
        var j := SkipWhile(lines, i + 1, tail);
        WithEmptyBlock(lines, j, heading, tail);
        SliceAround(lines, i, j);
      } else {
        WithEmptyBlock(lines, i + 1, heading, tail);
        SliceAround(lines, i, i + 1);
      }
    }
  }

  /** `s[i..]` is `s[i]`, then `s[i + 1..j]`, then `s[j..]`. */
  lemma SliceAround<T>(s: seq<T>, i: nat, j: nat)
    requires i < j <= |s|
    ensures [s[i]] + s[i + 1..j] + [] + s[j..] == s[i..]
    ensures [s[i]] + s[i + 1..] == s[i..]
  {
  }

  /** Without heading lines nothing is inserted. */
  lemma {:induction false} WithoutHeadings(lines: seq<string>, i: nat, block: seq<string>,
                                          heading: string -> bool, tail: string -> bool)
    requires i <= |lines|
    requires forall k :: i <= k < |lines| ==> !heading(lines[k])
    ensures WithBlocks(lines, i, block, heading, tail) == lines[i..]
    decreases |lines| - i
  {
    if i < |lines| {
      WithoutHeadings(lines, i + 1, block, heading, tail);
      assert [lines[i]] + lines[i + 1..] == lines[i..];
    }
  }

  /** The content with an abstract block after every heading line. */
  function AbstractedLines(content: string, shortdesc: string): seq<string> {
    WithBlocks(Split(content, '\n'), 0, AbstractBlock(shortdesc), IsHeadingLine, IsTitleTail)
  }

  /** The output has four more lines per heading line of the input. */
  lemma AbstractedLineCount(content: string, shortdesc: string)
    ensures |AbstractedLines(content, shortdesc)| ==
      |Split(content, '\n')| + 4 * HeadingCount(Split(content, '\n'), 0, IsHeadingLine)
  {
    forall l ensures IsTitleTail(l) ==> !IsHeadingLine(l) { HeadingNotTitleTail(l); }
    WithBlocksCount(Split(content, '\n'), 0, AbstractBlock(shortdesc), IsHeadingLine, IsTitleTail);
  }

  /** Content without heading lines comes back unchanged. */
  lemma AbstractedNoHeading(content: string, shortdesc: string)
    requires forall k :: 0 <= k < |Split(content, '\n')| ==> !IsHeadingLine(Split(content, '\n')[k])
    ensures Join(AbstractedLines(content, shortdesc), "\n") == content
  {
    var lines := Split(content, '\n');
    WithoutHeadings(lines, 0, AbstractBlock(shortdesc), IsHeadingLine, IsTitleTail);
    assert lines[0..] == lines;
    JoinSplit(content, '\n');
  }

  /** Copies the run of tail lines starting at `from` to `out`. */
  method CopyTail(lines: seq<string>, from: nat, out: seq<string>, tail: string -> bool)
    returns (out': seq<string>, j: nat)
    requires from <= |lines|
    ensures j == SkipWhile(lines, from, tail)
    ensures out' == out + lines[from..j]
  {
    j := from;
    out' := out;
    while j < |lines|
      invariant from <= j <= |lines|
      invariant SkipWhile(lines, j, tail) == SkipWhile(lines, from, tail)
      invariant out' == out + lines[from..j]
      decreases |lines| - j
    {
      if tail(lines[j]) {
        out' := out' + [lines[j]];
        j := j + 1;
      } else {
        break;
      }
    }
  }

  /** One turn of the outer loop: copy line `i`, and after a heading line
      its tail lines and the block. */
  method InsertStep(lines: seq<string>, i: nat, out: seq<string>, block: seq<string>,
                    heading: string -> bool, tail: string -> bool)
    returns (out': seq<string>, i': nat)
    requires i < |lines|
    ensures i < i' <= |lines|
    ensures out' + WithBlocks(lines, i', block, heading, tail) ==
            out + WithBlocks(lines, i, block, heading, tail)
  {
    var line := lines[i];
    WithBlocksAt(lines, i, block, heading, tail);
    out' := out + [line];
    if heading(line) {
      var j;
      out', j := CopyTail(lines, i + 1, out', tail);
      out' := out' + block;
      i' := j;
      AppendFour(out, [line], lines[i + 1..j], block, WithBlocks(lines, j, block, heading, tail));
    } else {
      i' := i + 1;
      Associative(out, [line], WithBlocks(lines, i + 1, block, heading, tail));
    }
  }

  /** The output for `lines[i..]` begins with line `i`, then, after a
      heading line, its tail lines and the block. */
  lemma WithBlocksAt(lines: seq<string>, i: nat, block: seq<string>,
                     heading: string -> bool, tail: string -> bool)
    requires i < |lines|
    ensures heading(lines[i]) ==>
      var j := SkipWhile(lines, i + 1, tail);
      WithBlocks(lines, i, block, heading, tail) ==
        [lines[i]] + lines[i + 1..j] + block + WithBlocks(lines, j, block, heading, tail)
    ensures !heading(lines[i]) ==>
      WithBlocks(lines, i, block, heading, tail) == [lines[i]] + WithBlocks(lines, i + 1, block, heading, tail)
  {
  }

  lemma AppendFour<T>(out: seq<T>, a: seq<T>, b: seq<T>, c: seq<T>, d: seq<T>)
    ensures out + a + b + c + d == out + (a + b + c + d)
  {
  }

  /** The loop of `add_abstract` over the lines of the content. */
  method InsertBlocks(lines: seq<string>, block: seq<string>,
                      heading: string -> bool, tail: string -> bool)
    returns (out: seq<string>)
    ensures out == WithBlocks(lines, 0, block, heading, tail)
  {
    out := [];
    var i := 0;
    while i < |lines|
      invariant i <= |lines|
      invariant out + WithBlocks(lines, i, block, heading, tail) ==
                WithBlocks(lines, 0, block, heading, tail)
      decreases |lines| - i
    {
      out, i := InsertStep(lines, i, out, block, heading, tail);
    }
    assert WithBlocks(lines, i, block, heading, tail) == [];
  }

  /** Inserts the abstract block after every heading line and its
      following blank, attribute and comment lines. */
  method AddAbstract(content: string, shortdesc: string) returns (r: string)
    ensures r == Join(AbstractedLines(content, shortdesc), "\n")
  {
    var lines := Split(content, '\n');
    var out := InsertBlocks(lines, ["", RoleAbstract, Take(shortdesc, ShortdescMax), ""],
                            IsHeadingLine, IsTitleTail);
    r := Join(out, "\n");
  }

  // ------------------------------------------------------------------
  // Shortening and padding

  /** `shorten_paragraph`: text within `maxLen` is returned as it is;
      longer text is cut to its first `maxLen` characters minus their last
      word, and `…` is appended. */
  function ShortenParagraph(para: string, maxLen: nat): (r: string)
    requires |para| > maxLen ==> !AllSpace(para[..maxLen])
    ensures |para| <= maxLen ==> r == para
    ensures |para| > maxLen ==> 2 <= |r| <= maxLen + 1 && r[|r| - 1] == Ellipsis && !IsSpace(r[|r| - 2])
    ensures |para| > maxLen && !IsSpace(para[0]) ==> r[..|r| - 1] == para[..|r| - 1]
  {
    if |para| <= maxLen then para
    else
      var x := para[..maxLen];
      RSplitHeadLength(x);
      RSplitHeadPrefix(x);
      var truncated := RSplitHead(x);
      if |truncated| < |para| then truncated + [Ellipsis] else truncated
  }

  /** With whitespace inside the first `maxLen` characters the result,
      ellipsis included, is at most `maxLen - 1` characters, and the cut
      falls right before whitespace. */
  lemma ShortenAtWordBoundary(para: string, maxLen: nat, k: nat, l: nat)
    requires k < l < maxLen < |para| && !IsSpace(para[0])
    requires IsSpace(para[k]) && !IsSpace(para[l])
    ensures |ShortenParagraph(para, maxLen)| <= maxLen - 1
    ensures IsSpace(para[|ShortenParagraph(para, maxLen)| - 1])
  {
    var x := para[..maxLen];
    assert x[k] == para[k] && x[l] == para[l] && x[0] == para[0];
    RSplitHeadCut(x, k, l);
    assert x[|RSplitHead(x)|] == para[|RSplitHead(x)|];
  }

  /** With no whitespace in the first `maxLen` characters the result is
      those characters plus the ellipsis: one character over `maxLen`. */
  lemma ShortenOneWord(para: string, maxLen: nat)
    requires 1 <= maxLen < |para|
    requires forall k :: 0 <= k < maxLen ==> !IsSpace(para[k])
    ensures !AllSpace(para[..maxLen])
    ensures ShortenParagraph(para, maxLen) == para[..maxLen] + [Ellipsis]
    ensures |ShortenParagraph(para, maxLen)| == maxLen + 1
  {
    assert para[..maxLen][0] == para[0];
    RSplitHeadOneWord(para[..maxLen]);
  }

  /** `(para + suffix)[:300]`. */
  function ExpandParagraph(para: string): (r: string)
    ensures |r| <= ShortdescMax
    ensures |para| + |Suffix| <= ShortdescMax ==> r == para + Suffix
  {
    Take(para + Suffix, ShortdescMax)
  }

  /** Paragraphs under 9 characters stay too short even when padded. */
  lemma ExpandTooShort(para: string)
    requires |para| < ShortdescMin - |Suffix|
    ensures |ExpandParagraph(para)| < ShortdescMin
  {
  }

  /** A too-short paragraph of at least 9 characters is padded to between
      50 and 90 characters. */
  lemma ExpandRange(para: string)
    requires ShortdescMin - |Suffix| <= |para| < ShortdescMin
    ensures ShortdescMin <= |ExpandParagraph(para)| <= ShortdescMin - 1 + |Suffix|
  {
  }

  // ------------------------------------------------------------------
  // Fixing one file

  /** The missing-abstract repair: only when there is no marker line, the
      path has an override, there is a title, and the override is not
      empty; and only when that changes the text. */
  function AbstractFix(content: string, rel: string, overrides: map<string, string>)
    : (r: Option<string>)
    ensures r.Some? ==> FirstMatch(content, 0, AbstractLineAt, true).None?
    ensures r.Some? ==> FirstParagraph(content).Absent?
    ensures r.Some? ==> rel in overrides && overrides[rel] != []
    ensures r.Some? ==> FirstMatch(content, 0, TitleAt, true).Some?
    ensures r.Some? ==> r.value != content
  {
    if FirstMatch(content, 0, AbstractLineAt, true).None? && rel in overrides
       && FirstMatch(content, 0, TitleAt, true).Some? && overrides[rel] != []
    then
      var updated := Join(AbstractedLines(content, overrides[rel]), "\n");
      if updated != content then Some(updated) else None
    else None
  }

  /** A splice of text without newlines over a non-blank paragraph span
      always changes the content, because the span starts on a newline. */
  lemma SpliceChanges(content: string, loc: Located, replacement: string)
    requires Placed(content, loc) && loc.At? && loc.para != []
    requires '\n' !in replacement
    ensures Splice(content, loc.start, loc.end, replacement) != content
  {
    var out := Splice(content, loc.start, loc.end, replacement);
    if |replacement| == loc.end - loc.start {
      assert out[loc.start] == replacement[0];
    }
  }

  /** Shortening a one-line paragraph that starts with text is defined and
      gives one line. */
  lemma ShortenedOneLine(para: string, maxLen: nat)
    requires 0 < maxLen < |para| && !IsSpace(para[0]) && '\n' !in para
    ensures !AllSpace(para[..maxLen])
    ensures '\n' !in ShortenParagraph(para, maxLen)
  {
    assert para[..maxLen][0] == para[0];
    var shorter := ShortenParagraph(para, maxLen);
    assert shorter == shorter[..|shorter| - 1] + [Ellipsis];
    assert shorter[..|shorter| - 1] == para[..|shorter| - 1];
  }

  /** The too-long repair of a located paragraph: one over 300 characters
      is shortened, when that changes it. */
  function LongFix(content: string, loc: Located): (r: Option<string>)
    requires Placed(content, loc)
    ensures r.Some? ==> loc.At? && |loc.para| > ShortdescMax
    ensures r.Some? ==> r.value != content
  {
    match loc
    case Absent => None
    case At(para, start, end) =>
      if para != [] && |para| > ShortdescMax then
        ShortenedOneLine(para, ShortdescMax);
        var shorter := ShortenParagraph(para, ShortdescMax);
        if shorter != para then
          SpliceChanges(content, loc, shorter);
          Some(Splice(content, start, end, shorter))
        else None
      else None
  }

  /** The too-short repair of a located paragraph: a non-blank one under
      50 characters is padded, when padding reaches 50. */
  function ShortFix(content: string, loc: Located): (r: Option<string>)
    requires Placed(content, loc)
    ensures r.Some? ==> loc.At? && 0 < |loc.para| < ShortdescMin
    ensures r.Some? ==> r.value != content
  {
    match loc
    case Absent => None
    case At(para, start, end) =>
      if para != [] && |para| < ShortdescMin then
        var longer := ExpandParagraph(para);
        if |longer| >= ShortdescMin then
          assert '\n' !in Suffix;
          SpliceChanges(content, loc, longer);
          Some(Splice(content, start, end, longer))
        else None
      else None
  }

  function Present(o: Option<string>): seq<string> {
    if o.Some? then [o.value] else []
  }

  /** The texts `fix_file` writes, in order; the length repairs both work
      on the paragraph of the content as read. */
  function FixWrites(content: string, rel: string, overrides: map<string, string>): seq<string> {
    Present(AbstractFix(content, rel, overrides)) + LengthWrites(content)
  }

  /** The writes of the two length repairs. */
  function LengthWrites(content: string): seq<string> {
    FirstParagraphPlaced(content);
    var loc := FirstParagraph(content);
    Present(LongFix(content, loc)) + Present(ShortFix(content, loc))
  }

  /** The three repairs exclude each other, so a file is written at most
      once, and what is written differs from what was read. */
  lemma FixWritesAtMostOne(content: string, rel: string, overrides: map<string, string>)
    ensures |FixWrites(content, rel, overrides)| <= 1
    ensures forall k :: 0 <= k < |FixWrites(content, rel, overrides)| ==>
      FixWrites(content, rel, overrides)[k] != content
  {
    FirstParagraphPlaced(content);
    var loc := FirstParagraph(content);
    var a := AbstractFix(content, rel, overrides);
    var l := LongFix(content, loc);
    var s := ShortFix(content, loc);
    assert FixWrites(content, rel, overrides) == Present(a) + (Present(l) + Present(s));
    OneOfThree(content, a, l, s, loc);
  }

  /** Writes guarded by exclusive conditions on the paragraph: at most one
      happens. */
  lemma OneOfThree(content: string, a: Option<string>, l: Option<string>, s: Option<string>,
                   loc: Located)
    requires a.Some? ==> loc.Absent?
    requires l.Some? ==> loc.At? && |loc.para| > ShortdescMax
    requires s.Some? ==> loc.At? && |loc.para| < ShortdescMin
    requires a.Some? ==> a.value != content
    requires l.Some? ==> l.value != content
    requires s.Some? ==> s.value != content
    ensures |Present(a) + (Present(l) + Present(s))| <= 1
    ensures forall k :: 0 <= k < |Present(a) + (Present(l) + Present(s))| ==>
      (Present(a) + (Present(l) + Present(s)))[k] != content
  {
  }

  /** `fix_file` on text: the repairs run in the order of the source, each
      on the paragraph of the original content; nothing is written in a
      dry run. */
  method FixFile(content: string, rel: string, dryRun: bool, overrides: map<string, string>)
    returns (writes: seq<string>, modified: bool)
    ensures modified <==> FixWrites(content, rel, overrides) != []
    ensures writes == if dryRun then [] else FixWrites(content, rel, overrides)
  {
    writes, modified := RepairAbstract(content, rel, dryRun, overrides);
    var loc := FirstParagraph(content);
    FirstParagraphPlaced(content);
    var w, m := RepairLength(content, loc, dryRun);
    writes := writes + w;
    modified := modified || m;
  }

  /** The missing-abstract repair of `fix_file`. */
  method RepairAbstract(content: string, rel: string, dryRun: bool, overrides: map<string, string>)
    returns (writes: seq<string>, modified: bool)
    ensures modified <==> AbstractFix(content, rel, overrides).Some?
    ensures writes == if dryRun then [] else Present(AbstractFix(content, rel, overrides))
  {
    writes := [];
    modified := false;
    var marker := FirstMatch(content, 0, AbstractLineAt, true);
    if marker.None? && rel in overrides {
      var shortdesc := overrides[rel];
      var title := FirstMatch(content, 0, TitleAt, true);
      if title.Some? && shortdesc != [] {
        var updated := AddAbstract(content, shortdesc);
        if updated != content {
          if !dryRun {
            writes := writes + [updated];
          }
          modified := true;
        }
      }
    }
  }

  /** The two length repairs of `fix_file`, in the order of the source. */
  method RepairLength(content: string, loc: Located, dryRun: bool)
    returns (writes: seq<string>, modified: bool)
    requires Placed(content, loc)
    ensures modified <==> LongFix(content, loc).Some? || ShortFix(content, loc).Some?
    ensures writes == if dryRun then []
                      else Present(LongFix(content, loc)) + Present(ShortFix(content, loc))
  {
    var longWrites, longer := RepairLong(content, loc, dryRun);
    var shortWrites, shorter := RepairShort(content, loc, dryRun);
    writes := longWrites + shortWrites;
    modified := longer || shorter;
  }

  /** The too-long branch: shorten the paragraph and write the result when
      that changed it. */
  method RepairLong(content: string, loc: Located, dryRun: bool)
    returns (writes: seq<string>, modified: bool)
    requires Placed(content, loc)
    ensures modified <==> LongFix(content, loc).Some?
    ensures writes == if dryRun then [] else Present(LongFix(content, loc))
  {
    writes := [];
    modified := false;
    if loc.At? && loc.para != [] && |loc.para| > ShortdescMax {
      assert !IsSpace(loc.para[..ShortdescMax][0]);
      var shorter := ShortenParagraph(loc.para, ShortdescMax);
      if shorter != loc.para {
        var updated := Splice(content, loc.start, loc.end, shorter);
        if !dryRun {
          writes := writes + [updated];
        }
        modified := true;
      }
    }
  }

  /** The too-short branch: pad the paragraph and write the result when it
      reaches 50 characters. */
  method RepairShort(content: string, loc: Located, dryRun: bool)
    returns (writes: seq<string>, modified: bool)
    requires Placed(content, loc)
    ensures modified <==> ShortFix(content, loc).Some?
    ensures writes == if dryRun then [] else Present(ShortFix(content, loc))
  {
    writes := [];
    modified := false;
    if loc.At? && loc.para != [] && |loc.para| < ShortdescMin {
      var longer := ExpandParagraph(loc.para);
      if |longer| >= ShortdescMin {
        var updated := Splice(content, loc.start, loc.end, longer);
        if !dryRun {
          writes := writes + [updated];
        }
        modified := true;
      }
    }
  }

  // ------------------------------------------------------------------
  // The repository passes

  /** A file of the documentation tree: its repository-relative path and
      its text. */
  datatype RepoFile = RepoFile(rel: string, content: string)

  /** The text of the file at `rel`, if the tree has one. */
  function FindFile(tree: seq<RepoFile>, rel: string): (r: Option<string>)
    ensures r.Some? ==> exists i :: 0 <= i < |tree| && tree[i] == RepoFile(rel, r.value)
    ensures r.None? ==> forall i :: 0 <= i < |tree| ==> tree[i].rel != rel
    decreases |tree|
  {
    if tree == [] then None
    else if tree[0].rel == rel then Some(tree[0].content)
    else
      var r := FindFile(tree[1..], rel);
      assert forall i :: 1 <= i < |tree| ==> tree[i] == tree[1..][i - 1];
      r
  }

  /** What the first pass writes for the override path `rel`: the one text
      `fix_file` writes, when the tree has that file and it is modified. */
  function OverrideWrite(tree: seq<RepoFile>, rel: string, overrides: map<string, string>)
    : (r: Option<string>)
    ensures r.Some? ==> FindFile(tree, rel).Some? && r.value != FindFile(tree, rel).value
  {
    match FindFile(tree, rel)
    case None => None
    case Some(c) =>
      FixWritesAtMostOne(c, rel, overrides);
      var w := FixWrites(c, rel, overrides);
      if w == [] then None else Some(w[0])
  }

  /** The files written by the first pass over `table[..k]`, the paths of
      the override table in its iteration order. */
  function OverrideFixes(table: seq<string>, k: nat, tree: seq<RepoFile>,
                         overrides: map<string, string>): seq<RepoFile>
    requires k <= |table|
    decreases k
  {
    if k == 0 then []
    else
      OverrideFixes(table, k - 1, tree, overrides) +
        match OverrideWrite(tree, table[k - 1], overrides)
        case None => []
        case Some(c) => [RepoFile(table[k - 1], c)]
  }

  /** One turn of the first pass: `fix_file` on the path when the file
      exists. */
  method FixOverride(rel: string, tree: seq<RepoFile>, overrides: map<string, string>, dryRun: bool)
    returns (fixedOne: bool, written: seq<RepoFile>)
    ensures fixedOne <==> OverrideWrite(tree, rel, overrides).Some?
    ensures written == if dryRun || !fixedOne then []
                       else [RepoFile(rel, OverrideWrite(tree, rel, overrides).value)]
  {
    fixedOne := false;
    written := [];
    var found := FindFile(tree, rel);
    if found.Some? {
      var w, modified := FixFile(found.value, rel, dryRun, overrides);
      FixWritesAtMostOne(found.value, rel, overrides);
      fixedOne := modified;
      if w != [] {
        written := [RepoFile(rel, w[0])];
      }
    }
  }

  /** The first pass of `main`: `fix_file` on every override path that
      names an existing file, counting the files it modified. */
  method FixOverridden(table: seq<string>, tree: seq<RepoFile>, overrides: map<string, string>,
                       dryRun: bool)
    returns (fixed: nat, writes: seq<RepoFile>)
    ensures fixed == |OverrideFixes(table, |table|, tree, overrides)|
    ensures writes == if dryRun then [] else OverrideFixes(table, |table|, tree, overrides)
  {
    fixed := 0;
    writes := [];
    var k := 0;
    while k < |table|
      invariant k <= |table|
      invariant fixed == |OverrideFixes(table, k, tree, overrides)|
      invariant writes == if dryRun then [] else OverrideFixes(table, k, tree, overrides)
    {
      var fixedOne, written := FixOverride(table[k], tree, overrides, dryRun);
      if fixedOne {
        fixed := fixed + 1;
      }
      writes := writes + written;
      k := k + 1;
    }
  }

  /** The second pass skips files under a `website` directory and files the
      override table names. The directory test looks at every component of
      the file's absolute path: those of the resolved repository root `root`
      followed by those of the path relative to it. */
  predicate Skipped(f: RepoFile, overrides: map<string, string>, root: seq<string>) {
    "website" in root + Components(f.rel) || f.rel in overrides
  }

  /** The second pass on one located paragraph: shorten one over 300
      characters, else pad one under 50. */
  function CorrectionAt(content: string, loc: Located): (r: Option<string>)
    requires Placed(content, loc)
    ensures r.Some? ==> r.value != content
  {
    if loc.Absent? || loc.para == [] then None
    else if |loc.para| > ShortdescMax then LongFix(content, loc)
    else if |loc.para| < ShortdescMin then ShortFix(content, loc)
    else None
  }

  /** The `elif` of the second pass picks the one length repair that can
      apply. */
  lemma CorrectionAtSplit(content: string, loc: Located)
    requires Placed(content, loc)
    ensures Present(CorrectionAt(content, loc)) == Present(LongFix(content, loc)) + Present(ShortFix(content, loc))
  {
  }

  function Correction(content: string): (r: Option<string>)
    ensures r.Some? ==> r.value != content
  {
    FirstParagraphPlaced(content);
    CorrectionAt(content, FirstParagraph(content))
  }

  lemma CorrectionWrites(content: string)
    ensures Present(Correction(content)) == LengthWrites(content)
  {
    FirstParagraphPlaced(content);
    CorrectionAtSplit(content, FirstParagraph(content));
  }

  /** The second pass repairs a file exactly as `fix_file` would once the
      missing-abstract repair is out of the picture. */
  lemma CorrectionAsFixFile(content: string, rel: string, overrides: map<string, string>)
    requires rel !in overrides
    ensures Present(Correction(content)) == FixWrites(content, rel, overrides)
  {
    assert AbstractFix(content, rel, overrides).None?;
    CorrectionWrites(content);
  }

  /** The second pass on one file of the tree. */
  function FileCorrection(f: RepoFile, overrides: map<string, string>, root: seq<string>): (r: Option<string>)
    ensures r.Some? ==> !Skipped(f, overrides, root) && r.value != f.content
  {
    if Skipped(f, overrides, root) then None else Correction(f.content)
  }

  function Corrector(overrides: map<string, string>, root: seq<string>): RepoFile -> Option<string> {
    f => FileCorrection(f, overrides, root)
  }

  /** The files a pass writes over `tree[..k]` when `fix` gives the new
      text of a file, if any. */
  function Written(tree: seq<RepoFile>, k: nat, fix: RepoFile -> Option<string>): seq<RepoFile>
    requires k <= |tree|
    decreases k
  {
    if k == 0 then []
    else
      var f := tree[k - 1];
      Written(tree, k - 1, fix) + (if fix(f).Some? then [RepoFile(f.rel, fix(f).value)] else [])
  }

  /** Every file a pass writes is a file of the tree, written with the new
      text `fix` gives it. */
  lemma {:induction false} WrittenSound(tree: seq<RepoFile>, k: nat, fix: RepoFile -> Option<string>)
    requires k <= |tree|
    ensures forall i :: 0 <= i < |Written(tree, k, fix)| ==>
      exists j :: 0 <= j < k && tree[j].rel == Written(tree, k, fix)[i].rel
                  && fix(tree[j]) == Some(Written(tree, k, fix)[i].content)
    decreases k
  {
    if k > 0 {
      WrittenSound(tree, k - 1, fix);
      var prev := Written(tree, k - 1, fix);
      var all := Written(tree, k, fix);
      var f := tree[k - 1];
      var extra := if fix(f).Some? then [RepoFile(f.rel, fix(f).value)] else [];
      assert all == prev + extra;
      forall i | 0 <= i < |all|
        ensures exists j :: 0 <= j < k && tree[j].rel == all[i].rel && fix(tree[j]) == Some(all[i].content)
      {
        if i < |prev| {
          assert all[i] == prev[i];
        } else {
          assert all[i] == extra[0];
          assert tree[k - 1].rel == all[i].rel && fix(tree[k - 1]) == Some(all[i].content);
        }
      }
    } else {
      assert Written(tree, k, fix) == [];
    }
  }

  /** The number of files of `tree[..k]` that `fix` changes. */
  lemma {:induction false} WrittenCount(tree: seq<RepoFile>, k: nat, fix: RepoFile -> Option<string>)
    requires k <= |tree|
    ensures |Written(tree, k, fix)| <= k
    ensures (forall j :: 0 <= j < k ==> fix(tree[j]).None?) ==> Written(tree, k, fix) == []
    decreases k
  {
    if k > 0 {
      WrittenCount(tree, k - 1, fix);
    }
  }

  /** A checkout that itself lies under a `website` directory has every file
      skipped by the second pass, which then changes nothing. */
  lemma WebsiteRootCorrectsNothing(tree: seq<RepoFile>, overrides: map<string, string>, root: seq<string>)
    requires "website" in root
    ensures Written(tree, |tree|, Corrector(overrides, root)) == []
  {
    forall j | 0 <= j < |tree|
      ensures Corrector(overrides, root)(tree[j]).None?
    {
      assert "website" in root + Components(tree[j].rel);
    }
    WrittenCount(tree, |tree|, Corrector(overrides, root));
  }

  /** One step of the second pass. */
  method CorrectFile(f: RepoFile, overrides: map<string, string>, root: seq<string>) returns (change: Option<string>)
    ensures change == FileCorrection(f, overrides, root)
  {
    if "website" in root + Components(f.rel) || f.rel in overrides {
      return None;
    }
    var loc := FirstParagraph(f.content);
    FirstParagraphPlaced(f.content);
    if loc.Absent? || loc.para == [] {
      return None;
    }
    change := None;
    if |loc.para| > ShortdescMax {
      assert !IsSpace(loc.para[..ShortdescMax][0]);
      var shorter := ShortenParagraph(loc.para, ShortdescMax);
      if shorter != loc.para {
        change := Some(Splice(f.content, loc.start, loc.end, shorter));
      }
    } else if |loc.para| < ShortdescMin {
      var longer := ExpandParagraph(loc.para);
      if |longer| >= ShortdescMin {
        change := Some(Splice(f.content, loc.start, loc.end, longer));
      }
    }
  }

  /** The second pass of `main` over every file of the tree, counting the
      files it shortened or padded. */
  method CorrectLengths(tree: seq<RepoFile>, overrides: map<string, string>, root: seq<string>, dryRun: bool)
    returns (fixed: nat, writes: seq<RepoFile>)
    ensures fixed == |Written(tree, |tree|, Corrector(overrides, root))|
    ensures writes == if dryRun then [] else Written(tree, |tree|, Corrector(overrides, root))
  {
    fixed := 0;
    writes := [];
    var k := 0;
    while k < |tree|
      invariant k <= |tree|
      invariant fixed == |Written(tree, k, Corrector(overrides, root))|
      invariant writes == if dryRun then [] else Written(tree, k, Corrector(overrides, root))
    {
      var change := CorrectFile(tree[k], overrides, root);
      assert Corrector(overrides, root)(tree[k]) == change;
      if change.Some? {
        if !dryRun {
          writes := writes + [RepoFile(tree[k].rel, change.value)];
        }
        fixed := fixed + 1;
      }
      k := k + 1;
    }
  }
}
