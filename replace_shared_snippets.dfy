/**
 * The text logic of the shared-snippet utility: recognising snippet files
 * by name and directory, shifting AsciiDoc heading levels, stripping the
 * snippet markers from a snippet's text, replacing `include::` directives
 * with a snippet's text, and the scan that records which documents include
 * which snippet.
 */
module Snippets {
  import opened Text

  // ------------------------------------------------------------------
  // Recognising snippet files

  /** What a pattern ending in `$` can cover of `name` when its `.*` does
      not cross a line break: `$` also matches just before a final `\n`. */
  function DollarBody(name: string): (r: Option<string>)
    ensures r.Some? ==> '\n' !in r.value && (r.value == name || r.value + "\n" == name)
    ensures r.None? ==> exists k :: 0 <= k < |name| - 1 && name[k] == '\n'
  {
    var b := if name != [] && name[|name| - 1] == '\n' then name[..|name| - 1] else name;
    if '\n' in b then None else Some(b)
  }

  /** `^snippet[_-].*\.adoc$`, ignoring case, on a line-break-free text. */
  predicate SnippetPrefixName(b: string) {
    |b| >= 13 && Lower(b[..7]) == "snippet" && (b[7] == '_' || b[7] == '-')
    && Lower(b[|b| - 5..]) == ".adoc"
  }

  /** `.*[_-]snippet\.adoc$`, ignoring case, on a line-break-free text. */
  predicate SnippetSuffixName(b: string) {
    |b| >= 13 && (b[|b| - 13] == '_' || b[|b| - 13] == '-')
    && Lower(b[|b| - 12..]) == "snippet.adoc"
  }

  /** `is_snippet_by_name`: one of the two name patterns matches. On a
      name without line breaks: it starts with `snippet_` or `snippet-` and
      ends with `.adoc`, or it ends with `_snippet.adoc` or `-snippet.adoc`,
      all regardless of case. */
  predicate IsSnippetByName(name: string)
    ensures '\n' !in name ==>
              (IsSnippetByName(name) <==>
                 ((StartsWith(Lower(name), "snippet_") || StartsWith(Lower(name), "snippet-"))
                  && EndsWith(Lower(name), ".adoc"))
                 || EndsWith(Lower(name), "_snippet.adoc") || EndsWith(Lower(name), "-snippet.adoc"))
  {
    match DollarBody(name)
    case None => false
    case Some(b) =>
      PrefixNameIff(b);
      SuffixNameIff(b);
      SnippetPrefixName(b) || SnippetSuffixName(b)
  }

  lemma PrefixNameIff(b: string)
    ensures SnippetPrefixName(b) <==>
              (StartsWith(Lower(b), "snippet_") || StartsWith(Lower(b), "snippet-"))
              && EndsWith(Lower(b), ".adoc")
  {
    var l := Lower(b);
    if |b| >= 13 {
      assert Lower(b[..7]) == l[..7];
      assert Lower(b[|b| - 5..]) == l[|l| - 5..];
      assert l[..8] == l[..7] + [l[7]];
    } else if (StartsWith(l, "snippet_") || StartsWith(l, "snippet-")) && |l| >= 5 {
      assert l[|l| - 5] == l[..8][|l| - 5];
      assert l[|l| - 5..][0] != '.';
    }
  }

  lemma SuffixNameIff(b: string)
    ensures SnippetSuffixName(b) <==>
              EndsWith(Lower(b), "_snippet.adoc") || EndsWith(Lower(b), "-snippet.adoc")
  {
    if |b| >= 13 {
      var l := Lower(b);
      var c := b[|b| - 13];
      LowerTail(b, 12);
      LowerSeparator(c);
      EndsWithCons(l, '_', "snippet.adoc");
      EndsWithCons(l, '-', "snippet.adoc");
      SuffixLiterals();
      assert l[|b| - 13] == ToLower(c);
    }
  }

  /** The two suffixes differ from `snippet.adoc` by their first character. */
  lemma SuffixLiterals()
    ensures "_snippet.adoc" == ['_'] + "snippet.adoc"
    ensures "-snippet.adoc" == ['-'] + "snippet.adoc"
  {
  }

  /** Lower-casing commutes with taking the last `n` characters. */
  lemma LowerTail(b: string, n: nat)
    requires n <= |b|
    ensures Lower(b[|b| - n..]) == Lower(b)[|b| - n..]
  {
  }

  /** `_` and `-` are the lower-case forms of themselves only. */
  lemma LowerSeparator(c: char)
    ensures ToLower(c) == '_' <==> c == '_'
    ensures ToLower(c) == '-' <==> c == '-'
  {
  }

  /** Ending with `c` followed by `p`, one character at a time. */
  lemma EndsWithCons(s: string, c: char, p: string)
    requires |p| < |s|
    ensures EndsWith(s, [c] + p) <==> s[|s| - |p| - 1] == c && EndsWith(s, p)
  {
    assert s[|s| - |p| - 1..] == [s[|s| - |p| - 1]] + s[|s| - |p|..];
  }

  /** A final line break does not change the verdict, since `$` matches
      before it. */
  lemma SnippetNameFinalNewline(name: string)
    requires '\n' !in name
    ensures IsSnippetByName(name + "\n") == IsSnippetByName(name)
  {
    assert (name + "\n")[..|name|] == name;
  }

  /** `is_in_snippets_dir`: some component of the path is `snippets`; a
      single component is in a snippets directory only when it is
      `snippets` itself. */
  predicate IsInSnippetsDir(path: string)
    ensures '/' !in path ==> (IsInSnippetsDir(path) <==> path == "snippets")
  {
    assert '/' !in path ==> Components(path) == [path] by {
      if '/' !in path { SplitNoSep(path, '/'); }
    }
    "snippets" in Components(path)
  }

  /** A path is in a snippets directory exactly when one of the two paths
      joined by `/` is. */
  lemma SnippetsDirJoin(a: string, b: string)
    ensures IsInSnippetsDir(a + "/" + b) <==> IsInSnippetsDir(a) || IsInSnippetsDir(b)
  {
    SplitConcat(a, '/', b);
  }

  // ------------------------------------------------------------------
  // Heading levels

  /** The number of `=` characters a line starts with. */
  function Level(line: string): (k: nat)
    ensures k <= |line| && forall i :: 0 <= i < k ==> line[i] == '='
    ensures k == |line| || line[k] != '='
  {
    SkipWhile(line, 0, IsEquals)
  }

  /** One line under `re.sub(r'^(=+)(.*)$', ...)`: a line starting with `k`
      `=` characters gets `k + offset` of them (none when that is not
      positive), the rest of the line kept. */
  function AdjustLine(line: string, offset: int): (r: string)
    ensures line == [] || line[0] != '=' ==> r == line
    ensures '\n' !in line ==> '\n' !in r
  {
    if line != [] && line[0] == '=' then
      var k := Level(line);
      assert forall i :: 0 <= i < |line[k..]| ==> line[k..][i] == line[k + i];
      Repeat('=', k + offset) + line[k..]
    else line
  }

  function AdjustLines(lines: seq<string>, offset: int): (r: seq<string>)
    ensures |r| == |lines|
    ensures forall i :: 0 <= i < |r| ==> r[i] == AdjustLine(lines[i], offset)
  {
    seq(|lines|, i requires 0 <= i < |lines| => AdjustLine(lines[i], offset))
  }

  /** `adjust_heading_levels(content, offset)`: the substitution leaves each
      match on its own line, so it is the line-by-line rewrite. */
  function AdjustHeadingLevels(content: string, offset: int): (r: string)
    ensures offset != 0 ==> Split(r, '\n') == AdjustLines(Split(content, '\n'), offset)
  {
    if offset == 0 then content
    else
      var out := AdjustLines(Split(content, '\n'), offset);
      SplitJoin(out, '\n');
      Join(out, "\n")
  }

  /** A heading line shifted so that it still starts with `=` has level
      `k + offset` and the same text after its `=` run; no line break is
      introduced. */
  lemma AdjustLineLevel(line: string, offset: int)
    requires line != [] && line[0] == '=' && Level(line) + offset >= 1
    ensures var r := AdjustLine(line, offset);
            r != [] && r[0] == '=' && Level(r) == Level(line) + offset
            && r[Level(r)..] == line[Level(line)..]
  {
    var k := Level(line);
    var r := AdjustLine(line, offset);
    var rest := line[k..];
    assert r == Repeat('=', k + offset) + rest;
    assert rest == [] || rest[0] != '=';
    SkipWhileExact(r, 0, k + offset, IsEquals);
    assert r[k + offset..] == rest;
  }

  lemma AdjustLineCompose(line: string, a: int, b: int)
    requires a >= 0
    ensures AdjustLine(AdjustLine(line, a), b) == AdjustLine(line, a + b)
  {
    if line != [] && line[0] == '=' {
      AdjustLineLevel(line, a);
    }
  }

  /** Shifting by a non-negative `a` and then by `b` is shifting by
      `a + b`: every shifted heading still starts with exactly `k + a`
      `=` characters. */
  lemma AdjustCompose(content: string, a: int, b: int)
    requires a >= 0
    ensures AdjustHeadingLevels(AdjustHeadingLevels(content, a), b)
            == AdjustHeadingLevels(content, a + b)
  {
    var lines := Split(content, '\n');
    if a != 0 && b != 0 {
      var once := AdjustLines(lines, a);
      forall i | 0 <= i < |once| ensures '\n' !in once[i] {
      }
      SplitJoin(once, '\n');
      forall i | 0 <= i < |lines|
        ensures AdjustLines(once, b)[i] == AdjustLines(lines, a + b)[i]
      {
        AdjustLineCompose(lines[i], a, b);
      }
      if a + b == 0 {
        forall i | 0 <= i < |lines| ensures AdjustLines(once, b)[i] == lines[i] {
          AdjustLineCompose(lines[i], a, b);
        }
        assert AdjustLines(once, b) == lines;
        JoinSplit(content, '\n');
      } else {
        assert AdjustLines(once, b) == AdjustLines(lines, a + b);
      }
    }
  }

  /** The shifted text has as many lines as the original, line `i` being
      line `i` rewritten. */
  lemma AdjustHeadingLines(content: string, offset: int)
    ensures |Split(AdjustHeadingLevels(content, offset), '\n')| == |Split(content, '\n')|
    ensures forall i :: 0 <= i < |Split(content, '\n')| ==>
              Split(AdjustHeadingLevels(content, offset), '\n')[i] == AdjustLine(Split(content, '\n')[i], offset)
  {
    var lines := Split(content, '\n');
    if offset == 0 {
      forall i | 0 <= i < |lines| ensures AdjustLine(lines[i], 0) == lines[i] {
        if lines[i] != [] && lines[i][0] == '=' {
          var k := Level(lines[i]);
          assert Repeat('=', k) == lines[i][..k];
          assert lines[i] == lines[i][..k] + lines[i][k..];
        }
      }
    } else {
      var out := AdjustLines(lines, offset);
      forall i | 0 <= i < |out| ensures '\n' !in out[i] {
      }
      SplitJoin(out, '\n');
    }
  }
  // ------------------------------------------------------------------
  // Snippet markers

  /** `w`, ignoring case, at `p` in `s` (`w` in lower case). */
  predicate OccursLower(s: string, w: string, p: nat) {
    p + |w| <= |s| && Lower(s[p..p + |w|]) == w
  }

  /** `^<header>\s*SNIPPET` ignoring case, tried at `p`: the header, then
      the whole whitespace run (which may cross line breaks), then
      `snippet`. The greedy run cannot give back a character that
      `snippet` could start with, so no other split is possible. */
  function HeaderAt(header: string, s: string, p: nat): (r: Option<nat>)
    requires header != []
    ensures r.Some? ==> p < r.value <= |s|
  {
    if OccursLower(s, header, p) then SnippetWordAt(s, SkipSpaces(s, p + |header|)) else None
  }

  /** `SNIPPET` ignoring case at `q`. */
  function SnippetWordAt(s: string, q: nat): (r: Option<nat>)
    ensures r.Some? ==> r.value == q + 7 <= |s|
  {
    if OccursLower(s, "snippet", q) then Some(q + 7) else None
  }

  function ModDocsHeaderAt(s: string, p: nat): (r: Option<nat>)
  {
    HeaderAt(":_mod-docs-content-type:", s, p)
  }

  function ContentTypeHeaderAt(s: string, p: nat): (r: Option<nat>)
  {
    HeaderAt(":_content-type:", s, p)
  }

  /** `^//\s*snippet\s*$` ignoring case, tried at `p`. */
  function SnippetCommentAt(s: string, p: nat): (r: Option<nat>)
    ensures r.Some? ==> p < r.value <= |s| && (r.value == |s| || s[r.value] == '\n')
  {
    if OccursLower(s, "//", p) then CommentWordAt(s, SkipSpaces(s, p + 2)) else None
  }

  /** `snippet\s*$` ignoring case at `q`. */
  function CommentWordAt(s: string, q: nat): (r: Option<nat>)
    ensures r.Some? ==> q + 7 <= r.value <= |s| && (r.value == |s| || s[r.value] == '\n')
  {
    if OccursLower(s, "snippet", q) then CommentEnd(s, q + 7) else None
  }

  /** `\s*$` from `i`: the trailing run is greedy and then gives back
      characters until `$` holds, at the end of the text or just before the
      last line break of the run. */
  function CommentEnd(s: string, i: nat): (r: Option<nat>)
    requires i <= |s|
    ensures r.Some? ==> i <= r.value <= |s| && (r.value == |s| || s[r.value] == '\n')
  {
    var e := SkipSpaces(s, i);
    if e == |s| then Some(e)
    else
      var n := LastWhere(s, i, e, IsNewline);
      if n.Some? then Some(n.value) else None
  }

  lemma MarkersAdvance()
    ensures Advances(ModDocsHeaderAt) && Advances(ContentTypeHeaderAt) && Advances(SnippetCommentAt)
  {
  }

  function Erase(m: string): string {
    []
  }

  /** The three substitutions of `read_snippet_content`, in their order,
      each over the text the previous one left. */
  function StripMarkers(content: string): (r: string)
    ensures |r| <= |content|
  {
    MarkersAdvance();
    var a := SubAll(content, 0, ModDocsHeaderAt, true, Erase);
    SubAllShrinks(content, 0, ModDocsHeaderAt, true, Erase);
    var b := SubAll(a, 0, ContentTypeHeaderAt, true, Erase);
    SubAllShrinks(a, 0, ContentTypeHeaderAt, true, Erase);
    SubAllShrinks(b, 0, SnippetCommentAt, true, Erase);
    SubAll(b, 0, SnippetCommentAt, true, Erase)
  }

  /** `read_snippet_content` on the snippet's text: the markers removed when
      `stripHeaders` holds, then surrounding whitespace trimmed. */
  function ReadSnippetContent(content: string, stripHeaders: bool): (r: string)
    ensures |r| <= |content|
    ensures r == [] || (!IsSpace(r[0]) && !IsSpace(r[|r| - 1]))
  {
    Strip(if stripHeaders then StripMarkers(content) else content)
  }

  /** No marker starts at any line start of the text. */
  predicate NoMarkers(s: string) {
    forall p :: 0 <= p <= |s| && IsLineStart(s, p) ==>
      ModDocsHeaderAt(s, p).None? && ContentTypeHeaderAt(s, p).None? && SnippetCommentAt(s, p).None?
  }

  /** The substitutions leave a text without markers unchanged. */
  lemma NoMarkersKept(content: string)
    requires NoMarkers(content)
    ensures StripMarkers(content) == content
  {
    MarkersAdvance();
    SubAllNoMatch(content, 0, ModDocsHeaderAt, true, Erase);
    SubAllNoMatch(content, 0, ContentTypeHeaderAt, true, Erase);
    SubAllNoMatch(content, 0, SnippetCommentAt, true, Erase);
    assert content[0..] == content;
  }

  /** A text carrying none of the three markers at a line start is only
      trimmed. */
  lemma NoMarkersOnlyTrimmed(content: string)
    requires NoMarkers(content)
    ensures ReadSnippetContent(content, true) == ReadSnippetContent(content, false)
  {
    NoMarkersKept(content);
  }

  /** A text read ignoring case reads the same after any text `a`. */
  lemma OccursLowerShift(a: string, x: string, w: string, i: nat)
    requires i <= |x|
    ensures OccursLower(a + x, w, |a| + i) == OccursLower(x, w, i)
  {
    if i + |w| <= |x| {
      assert (a + x)[|a| + i..|a| + i + |w|] == x[i..i + |w|];
    }
  }

  lemma SnippetWordAtShift(a: string, x: string, q: nat)
    requires q <= |x|
    ensures SnippetWordAt(a + x, |a| + q) == ShiftBy(SnippetWordAt(x, q), |a|)
  {
    OccursLowerShift(a, x, "snippet", q);
  }

  /** A header pattern reads `x` alone: after any text `a`, it matches as
      it does in `x`, moved by `|a|`. */
  lemma HeaderAtShift(header: string, a: string, x: string, i: nat)
    requires header != [] && i <= |x|
    ensures HeaderAt(header, a + x, |a| + i) == ShiftBy(HeaderAt(header, x, i), |a|)
  {
    OccursLowerShift(a, x, header, i);
    if OccursLower(x, header, i) {
      SkipWhileShift(a, x, i + |header|, IsSpace);
      SnippetWordAtShift(a, x, SkipSpaces(x, i + |header|));
    }
  }

  lemma CommentEndShift(a: string, x: string, i: nat)
    requires i <= |x|
    ensures CommentEnd(a + x, |a| + i) == ShiftBy(CommentEnd(x, i), |a|)
  {
    SkipWhileShift(a, x, i, IsSpace);
    LastWhereShift(a, x, i, SkipSpaces(x, i), IsNewline);
  }

  lemma CommentWordAtShift(a: string, x: string, q: nat)
    requires q <= |x|
    ensures CommentWordAt(a + x, |a| + q) == ShiftBy(CommentWordAt(x, q), |a|)
  {
    OccursLowerShift(a, x, "snippet", q);
    if OccursLower(x, "snippet", q) {
      CommentEndShift(a, x, q + 7);
    }
  }

  /** The snippet comment pattern reads `x` alone in the same way. */
  lemma SnippetCommentAtShift(a: string, x: string, i: nat)
    requires i <= |x|
    ensures SnippetCommentAt(a + x, |a| + i) == ShiftBy(SnippetCommentAt(x, i), |a|)
  {
    OccursLowerShift(a, x, "//", i);
    if OccursLower(x, "//", i) {
      SlashesCommentShift(a, x, i);
    }
  }

  /** `SnippetCommentAtShift` where `x` has "//" at `i`. */
  lemma SlashesCommentShift(a: string, x: string, i: nat)
    requires OccursLower(x, "//", i) && OccursLower(a + x, "//", |a| + i)
    ensures SnippetCommentAt(a + x, |a| + i) == ShiftBy(SnippetCommentAt(x, i), |a|)
  {
    var q := SkipSpaces(x, i + 2);
    SkipWhileShift(a, x, i + 2, IsSpace);
    assert SkipSpaces(a + x, |a| + i + 2) == |a| + q;
    CommentWordAtShift(a, x, q);
  }

  /** A line start after whole lines is a line start of what follows them. */
  lemma LineStartAfter(a: string, x: string, q: nat)
    requires a == [] || a[|a| - 1] == '\n'
    requires |a| <= q && IsLineStart(a + x, q)
    ensures IsLineStart(x, q - |a|)
  {
    if q > |a| {
      assert (a + x)[q - 1] == x[q - |a| - 1];
    }
  }

  /** A line start of a text without markers holds none after any text. */
  lemma NoMarkerAt(a: string, x: string, k: nat)
    requires NoMarkers(x) && k <= |x| && IsLineStart(x, k)
    ensures ModDocsHeaderAt(a + x, |a| + k).None? && ContentTypeHeaderAt(a + x, |a| + k).None?
            && SnippetCommentAt(a + x, |a| + k).None?
  {
    assert ModDocsHeaderAt(x, k).None? && ContentTypeHeaderAt(x, k).None? && SnippetCommentAt(x, k).None?;
    HeaderAtShift(":_mod-docs-content-type:", a, x, k);
    HeaderAtShift(":_content-type:", a, x, k);
    SnippetCommentAtShift(a, x, k);
  }

  /** After whole lines, a text without markers still has none at its
      line starts. */
  lemma NoMarkersAfter(a: string, x: string)
    requires a == [] || a[|a| - 1] == '\n'
    requires NoMarkers(x)
    ensures forall q :: |a| <= q <= |a + x| && IsLineStart(a + x, q) ==>
              ModDocsHeaderAt(a + x, q).None? && ContentTypeHeaderAt(a + x, q).None?
              && SnippetCommentAt(a + x, q).None?
  {
    forall q | |a| <= q <= |a + x| && IsLineStart(a + x, q)
      ensures ModDocsHeaderAt(a + x, q).None? && ContentTypeHeaderAt(a + x, q).None?
              && SnippetCommentAt(a + x, q).None?
    {
      LineStartAfter(a, x, q);
      NoMarkerAt(a, x, q - |a|);
    }
  }

  /** No header starts with a line break. */
  lemma NoHeaderAtNewline(header: string, s: string, p: nat)
    requires header != [] && header[0] == ':' && p < |s| && s[p] == '\n'
    ensures HeaderAt(header, s, p).None?
  {
    if p + |header| <= |s| {
      assert Lower(s[p..p + |header|])[0] == '\n';
    }
  }

  /** A line break before a text without markers adds none. */
  lemma NewlineNoMarkers(x: string)
    requires NoMarkers(x)
    ensures NoMarkers("\n" + x)
  {
    NoMarkersAfter("\n", x);
    NoHeaderAtNewline(":_mod-docs-content-type:", "\n" + x, 0);
    NoHeaderAtNewline(":_content-type:", "\n" + x, 0);
  }

  /** Only the first line of a text made of one line and a text without
      markers can carry a marker. */
  lemma MarkersOnFirstLineOnly(h: string, body: string)
    requires MarkerLineThenBody(h, body)
    ensures forall q :: 0 < q <= |h + body| && IsLineStart(h + body, q) ==>
              ModDocsHeaderAt(h + body, q).None? && ContentTypeHeaderAt(h + body, q).None?
              && SnippetCommentAt(h + body, q).None?
  {
    NoMarkersAfter(h, body);
    forall q | 0 < q < |h| ensures !IsLineStart(h + body, q) {
      assert (h + body)[q - 1] == h[q - 1];
    }
  }

  /** Facts shared by the three removals: the text is a first line `h`
      and a body without markers. */
  predicate MarkerLineThenBody(h: string, body: string) {
    h != [] && h[|h| - 1] == '\n' && (forall k :: 0 <= k < |h| - 1 ==> h[k] != '\n')
    && NoMarkers(body)
  }

  /** The first substitution removes a header line matched up to its line
      break, and the other two leave the line break and the body alone. */
  lemma ModDocsLineRemoved(h: string, body: string)
    requires MarkerLineThenBody(h, body) && ModDocsHeaderAt(h + body, 0) == Some(|h| - 1)
    ensures StripMarkers(h + body) == "\n" + body
  {
    MarkersAdvance();
    var s, n := h + body, "\n" + body;
    MarkersOnFirstLineOnly(h, body);
    NewlineNoMarkers(body);
    assert s[|h| - 1..] == n;
    SubAllFirstOnly(s, ModDocsHeaderAt, Erase, |h| - 1);
    SubAllNone(n, ContentTypeHeaderAt, Erase);
    SubAllNone(n, SnippetCommentAt, Erase);
  }

  /** The second substitution removes it when the first does not match. */
  lemma ContentTypeLineRemoved(h: string, body: string)
    requires MarkerLineThenBody(h, body)
    requires ModDocsHeaderAt(h + body, 0).None? && ContentTypeHeaderAt(h + body, 0) == Some(|h| - 1)
    ensures StripMarkers(h + body) == "\n" + body
  {
    MarkersAdvance();
    var s, n := h + body, "\n" + body;
    MarkersOnFirstLineOnly(h, body);
    NewlineNoMarkers(body);
    assert s[|h| - 1..] == n;
    SubAllNone(s, ModDocsHeaderAt, Erase);
    SubAllFirstOnly(s, ContentTypeHeaderAt, Erase, |h| - 1);
    SubAllNone(n, SnippetCommentAt, Erase);
  }

  /** The third substitution removes it when neither header matches. */
  lemma CommentLineRemoved(h: string, body: string)
    requires MarkerLineThenBody(h, body)
    requires ModDocsHeaderAt(h + body, 0).None? && ContentTypeHeaderAt(h + body, 0).None?
    requires SnippetCommentAt(h + body, 0) == Some(|h| - 1)
    ensures StripMarkers(h + body) == "\n" + body
  {
    MarkersAdvance();
    var s, n := h + body, "\n" + body;
    MarkersOnFirstLineOnly(h, body);
    assert s[|h| - 1..] == n;
    SubAllNone(s, ModDocsHeaderAt, Erase);
    SubAllNone(s, ContentTypeHeaderAt, Erase);
    SubAllFirstOnly(s, SnippetCommentAt, Erase, |h| - 1);
  }

  /** With the marker removed, trimming drops the line break left behind. */
  lemma LineBreakTrimmed(body: string)
    ensures Strip("\n" + body) == Strip(body)
  {
    StripSpacePrefix("\n" + body, 1);
    assert ("\n" + body)[1..] == body;
  }

  /** A `:_mod-docs-content-type: SNIPPET` first line is removed, and the
      rest is trimmed. */
  lemma ModDocsHeaderRemoved(body: string)
    requires NoMarkers(body)
    ensures ReadSnippetContent(":_mod-docs-content-type: SNIPPET\n" + body, true) == Strip(body)
  {
    var h := ":_mod-docs-content-type: SNIPPET\n";
    ModDocsLine(h, body);
    ModDocsLineRemoved(h, body);
    LineBreakTrimmed(body);
  }

  lemma ModDocsLine(h: string, body: string)
    requires h == ":_mod-docs-content-type: SNIPPET\n"
    ensures ModDocsHeaderAt(h + body, 0) == Some(32)
  {
    var s := h + body;
    assert s[0..24] == ":_mod-docs-content-type:";
    assert Lower(s[0..24]) == ":_mod-docs-content-type:";
    SkipWhileExact(s, 24, 25, IsSpace);
    assert s[25..32] == "SNIPPET";
    assert Lower(s[25..32]) == "snippet";
  }

  /** A `:_content-type: SNIPPET` first line is removed, and the rest is
      trimmed. */
  lemma ContentTypeHeaderRemoved(body: string)
    requires NoMarkers(body)
    ensures ReadSnippetContent(":_content-type: SNIPPET\n" + body, true) == Strip(body)
  {
    var h := ":_content-type: SNIPPET\n";
    ContentTypeLine(h, body);
    ContentTypeLineRemoved(h, body);
    LineBreakTrimmed(body);
  }

  lemma ContentTypeLine(h: string, body: string)
    requires h == ":_content-type: SNIPPET\n"
    ensures ModDocsHeaderAt(h + body, 0).None? && ContentTypeHeaderAt(h + body, 0) == Some(23)
  {
    var s := h + body;
    if 24 <= |s| {
      assert Lower(s[0..24])[2] == 'c';
    }
    assert s[0..15] == ":_content-type:";
    assert Lower(s[0..15]) == ":_content-type:";
    SkipWhileExact(s, 15, 16, IsSpace);
    assert s[16..23] == "SNIPPET";
    assert Lower(s[16..23]) == "snippet";
  }

  /** A `// snippet` first line is removed, and the rest is trimmed, when
      the body does not start with whitespace (the comment pattern's
      trailing whitespace run would otherwise reach into it). */
  lemma SnippetCommentRemoved(body: string)
    requires NoMarkers(body)
    requires body == [] || !IsSpace(body[0])
    ensures ReadSnippetContent("// snippet\n" + body, true) == Strip(body)
  {
    var h := "// snippet\n";
    if body == [] {
      CommentOnlyLine(h);
      assert h + body == h;
    } else {
      assert MarkerLineThenBody(h, body);
      CommentLine(h, body);
      CommentLineRemoved(h, body);
      LineBreakTrimmed(body);
    }
  }

  lemma CommentLine(h: string, body: string)
    requires h == "// snippet\n" && body != [] && !IsSpace(body[0])
    ensures ModDocsHeaderAt(h + body, 0).None? && ContentTypeHeaderAt(h + body, 0).None?
    ensures SnippetCommentAt(h + body, 0) == Some(10)
  {
    var s := h + body;
    NoHeaderAtSlash(":_mod-docs-content-type:", s);
    NoHeaderAtSlash(":_content-type:", s);
    assert s[0..2] == "//" && Lower(s[0..2]) == "//";
    SkipWhileExact(s, 2, 3, IsSpace);
    assert s[3..10] == "snippet" && Lower(s[3..10]) == "snippet";
    assert s[11] == body[0];
    SkipWhileExact(s, 10, 11, IsSpace);
    assert LastWhere(s, 10, 11, IsNewline) == Some(10);
  }

  /** A file that is only the `// snippet` line becomes empty. */
  lemma CommentOnlyLine(h: string)
    requires h == "// snippet\n"
    ensures ReadSnippetContent(h, true) == []
  {
    MarkersAdvance();
    CommentOnlyMatch(h);
    SubAllNone(h, ModDocsHeaderAt, Erase);
    SubAllNone(h, ContentTypeHeaderAt, Erase);
    SubAllFirstOnly(h, SnippetCommentAt, Erase, 11);
  }

  /** In the `// snippet` line alone, only the comment pattern matches, at
      the start and up to the end. */
  lemma CommentOnlyMatch(h: string)
    requires h == "// snippet\n"
    ensures forall q :: 0 <= q <= |h| && IsLineStart(h, q) ==>
              ModDocsHeaderAt(h, q).None? && ContentTypeHeaderAt(h, q).None?
    ensures forall q :: 0 < q <= |h| && IsLineStart(h, q) ==> SnippetCommentAt(h, q).None?
    ensures SnippetCommentAt(h, 0) == Some(11)
  {
    NoHeaderAtSlash(":_mod-docs-content-type:", h);
    NoHeaderAtSlash(":_content-type:", h);
    forall q | 0 < q <= |h| && IsLineStart(h, q) ensures q == 11 {
    }
    assert h[0..2] == "//" && Lower(h[0..2]) == "//";
    SkipWhileExact(h, 2, 3, IsSpace);
    assert h[3..10] == "snippet" && Lower(h[3..10]) == "snippet";
    SkipWhileExact(h, 10, 11, IsSpace);
  }

  /** A header cannot start where the text starts with `/`. */
  lemma NoHeaderAtSlash(header: string, s: string)
    requires header != [] && header[0] == ':' && s != [] && s[0] == '/'
    ensures HeaderAt(header, s, 0).None?
  {
    if |header| <= |s| {
      assert Lower(s[0..|header|])[0] == '/';
    }
  }
  // ------------------------------------------------------------------
  // Inlining a snippet

  /** Where a directive's options lie: between the `[` and the `]` at
      `optsEnd`. */
  datatype Directive = Directive(optsStart: nat, optsEnd: nat)

  predicate NotCloseOrNewline(c: char) { c != ']' && c != '\n' }

  /** `(.*?)\]` from `i`: the first `]` on the same line. */
  function CloseAfter(s: string, i: nat): (r: Option<nat>)
    requires i <= |s|
    ensures r.Some? ==> i <= r.value < |s| && s[r.value] == ']'
    ensures r.Some? ==> forall k :: i <= k < r.value ==> s[k] != ']' && s[k] != '\n'
    ensures r.None? ==> forall k :: i <= k < |s| && s[k] == ']' ==> exists j :: i <= j < k && s[j] == '\n'
  {
    var c := SkipWhile(s, i, NotCloseOrNewline);
    if c < |s| && s[c] == ']' then Some(c) else None
  }

  /** `[^\[]*<name>\[(.*?)\]` with the run from `a` and `name` starting at
      `t` or, backtracking, at an earlier position down to `a`. */
  function TargetAt(name: string, s: string, a: nat, t: nat): (r: Option<Directive>)
    requires a <= t <= |s|
    ensures r.Some? ==> a + |name| < r.value.optsStart <= r.value.optsEnd < |s|
                        && s[r.value.optsEnd] == ']'
    decreases t - a
  {
    var here := if OccursAt(s, name, t) && t + |name| < |s| && s[t + |name|] == '['
                then CloseAfter(s, t + |name| + 1) else None;
    if here.Some? then Some(Directive(t + |name| + 1, here.value))
    else if t == a then None
    else TargetAt(name, s, a, t - 1)
  }

  /** The pattern `inline_snippet` builds for the snippet file `name`,
      tried at `p`: `include::`, then a run free of `[` that ends with
      `name`, then the options in brackets. The greedy run first reaches
      the first `[` and gives back characters until `name` fits. */
  function IncludeAt(name: string, s: string, p: nat): (r: Option<Directive>)
    ensures r.Some? ==> p + 9 < r.value.optsStart <= r.value.optsEnd < |s|
                        && s[r.value.optsEnd] == ']'
  {
    if OccursAt(s, "include::", p) then TargetAt(name, s, p + 9, SkipWhile(s, p + 9, NotOpenBracket))
    else None
  }

  /** `leveloffset=\+?(\d+)` tried at `i` of the options, giving the number. */
  function LevelOffsetAt(o: string, i: nat): (r: Option<nat>)
  {
    if OccursAt(o, "leveloffset=", i) then
      var j := if i + 12 < |o| && o[i + 12] == '+' then i + 13 else i + 12;
      var d := SkipWhile(o, j, IsDigit);
      if d > j then Some(DigitsValue(o[j..d])) else None
    else None
  }

  /** The `leveloffset` a directive's options ask for, if any. */
  function LevelOffset(o: string): (r: Option<nat>)
    ensures r.None? <==> forall i: nat :: i <= |o| ==> LevelOffsetAt(o, i).None?
    ensures r.Some? ==> exists i: nat :: i <= |o| && LevelOffsetAt(o, i) == r
                                        && forall j: nat :: j < i ==> LevelOffsetAt(o, j).None?
  {
    var fm := FirstMatch(o, 0, LevelOffsetAt, false);
    if fm.None? then None else Some(fm.value.1)
  }

  /** `replace_include`: the snippet's text, its headings shifted when the
      options carry a level offset. */
  function Replacement(opts: string, snippet: string): (r: string)
    ensures |Split(r, '\n')| == |Split(snippet, '\n')|
    ensures forall i :: 0 <= i < |Split(snippet, '\n')| && (Split(snippet, '\n')[i] == [] || Split(snippet, '\n')[i][0] != '=')
                        ==> Split(r, '\n')[i] == Split(snippet, '\n')[i]
    ensures LevelOffset(opts).None? ==> r == snippet
  {
    var n := LevelOffset(opts);
    if n.Some? then
      AdjustHeadingLines(snippet, n.value);
      AdjustHeadingLevels(snippet, n.value)
    else snippet
  }

  function IncludeMatcher(name: string): (string, nat) -> Option<Directive> {
    (t: string, p: nat) => IncludeAt(name, t, p)
  }

  /** `replace_include` as the function handed to `pattern.sub`. */
  function Replacer(snippet: string): string -> string {
    opts => Replacement(opts, snippet)
  }

  /** `pattern.sub(rep, s[from:])`, `rep` receiving each directive's options. */
  function InlineFrom(name: string, rep: string -> string, s: string, from: nat): (r: string)
    requires from <= |s|
    ensures (forall q :: from <= q <= |s| && IsLineStart(s, q) ==> IncludeAt(name, s, q).None?)
            ==> r == s[from..]
    decreases |s| - from
  {
    match FirstMatch(s, from, IncludeMatcher(name), true)
    case None => s[from..]
    case Some((q, d)) =>
      assert IncludeAt(name, s, q) == Some(d);
      s[from..q] + rep(s[d.optsStart..d.optsEnd]) + InlineFrom(name, rep, s, d.optsEnd + 1)
  }

  /** A directive for the snippet file `name` starts line `p` of `s`. */
  predicate DirectiveAt(name: string, s: string, p: nat) {
    p <= |s| && IsLineStart(s, p) && IncludeAt(name, s, p).Some?
  }

  datatype Inlined = Inlined(content: string, replaced: bool)

  /** The substitution of `inline_snippet` on the including file's text,
      with whether it changed that text. A text is changed only when one
      of its lines starts with a directive for the snippet. */
  function InlineSnippet(content: string, name: string, snippet: string): (r: Inlined)
    ensures r.replaced <==> r.content != content
    ensures r.replaced ==> exists p :: DirectiveAt(name, content, p)
  {
    var fm := FirstMatch(content, 0, IncludeMatcher(name), true);
    var out := InlineFrom(name, Replacer(snippet), content, 0);
    if fm.None? then
      assert out == content;
      Inlined(out, false)
    else
      assert DirectiveAt(name, content, fm.value.0);
      Inlined(out, out != content)
  }

  /** Backtracking past positions where `name` followed by `[` cannot start
      reaches the same result. */
  lemma {:induction false} TargetAtDown(name: string, s: string, a: nat, t0: nat, t: nat)
    requires a <= t0 <= t <= |s|
    requires forall u :: t0 < u <= t ==> !OccursAt(s, name, u) || u + |name| >= |s| || s[u + |name|] != '['
    ensures TargetAt(name, s, a, t) == TargetAt(name, s, a, t0)
    decreases t - t0
  {
    if t > t0 {
      TargetAtDown(name, s, a, t0, t - 1);
    }
  }

  /** A line `include::<dir><name>[<opts>]<rest>` with no `[` before the
      options becomes the snippet's text, shifted as the options say,
      followed by the rest of the line: any directory part ending in
      `name` matches, so the target is matched by its suffix. */
  lemma DirectiveReplaced(dir: string, name: string, opts: string, rest: string, snippet: string)
    requires '[' !in dir && '[' !in name && ']' !in opts && '\n' !in opts && '\n' !in rest
    ensures var s := "include::" + dir + name + "[" + opts + "]" + rest;
            InlineSnippet(s, name, snippet).content == Replacement(opts, snippet) + rest
  {
    var s := "include::" + dir + name + "[" + opts + "]" + rest;
    var b := 9 + |dir| + |name|;
    var e := b + 1 + |opts|;
    DirectiveLayout(dir, name, opts, rest);
    DirectiveLayoutRuns(dir, name, opts, rest);
    IncludeAtStart(name, s, 9 + |dir|, b, e);
    var d := Directive(b + 1, e);
    forall q | e + 1 <= q <= |s| ensures !IsLineStart(s, q) {
      if q == e + 1 { assert s[q - 1] == ']'; } else { assert s[q - 1] == rest[q - e - 2]; }
    }
    var rep := Replacer(snippet);
    InlineLeadingDirective(name, rep, s, d);
    assert s[d.optsStart..d.optsEnd] == opts;
    assert InlineFrom(name, rep, s, 0) == rep(opts) + rest;
    assert rep(opts) == Replacement(opts, snippet);
  }

  /** The text before the first directive for the snippet is kept as it is. */
  lemma InlineKeepsTextBefore(content: string, name: string, snippet: string, p: nat)
    requires p <= |content|
    requires forall q :: 0 <= q < p ==> !DirectiveAt(name, content, q)
    ensures content[..p] <= InlineSnippet(content, name, snippet).content
  {
    var fm := FirstMatch(content, 0, IncludeMatcher(name), true);
    if fm.Some? {
      var q := fm.value.0;
      assert IncludeAt(name, content, q) == Some(fm.value.1);
      assert DirectiveAt(name, content, q);
      assert content[..p] <= content[0..q];
    } else {
      assert content[0..] == content;
    }
  }

  /** Where the parts of such a line sit. */
  lemma DirectiveLayout(dir: string, name: string, opts: string, rest: string)
    ensures var s := "include::" + dir + name + "[" + opts + "]" + rest;
            var t0 := 9 + |dir|;
            var b := t0 + |name|;
            var e := b + 1 + |opts|;
            e < |s| && OccursAt(s, "include::", 0)
            && s[t0..b] == name && s[b] == '[' && s[b + 1..e] == opts && s[e] == ']'
            && s[e + 1..] == rest
  {
    var tail := dir + name + "[" + opts + "]" + rest;
    var s := "include::" + dir + name + "[" + opts + "]" + rest;
    assert s == "include::" + tail;
    OccursAtStart("include::", tail);
  }

  /** The runs of such a line that the pattern scans character by character. */
  lemma DirectiveLayoutRuns(dir: string, name: string, opts: string, rest: string)
    requires '[' !in dir && '[' !in name && ']' !in opts && '\n' !in opts
    ensures var s := "include::" + dir + name + "[" + opts + "]" + rest;
            var t0 := 9 + |dir|;
            var b := t0 + |name|;
            var e := b + 1 + |opts|;
            e < |s|
            && (forall k :: 9 <= k < b ==> s[k] != '[')
            && (forall k :: b + 1 <= k < e ==> s[k] != ']' && s[k] != '\n')
  {
    var s := "include::" + dir + name + "[" + opts + "]" + rest;
    var t0 := 9 + |dir|;
    var b := t0 + |name|;
    var e := b + 1 + |opts|;
    forall k | 9 <= k < b ensures s[k] != '[' {
      if k < t0 { assert s[k] == dir[k - 9]; } else { assert s[k] == name[k - t0]; }
    }
    forall k | b + 1 <= k < e ensures s[k] != ']' && s[k] != '\n' {
      assert s[k] == opts[k - b - 1];
    }
  }

  /** A text laid out as `include::`, a `[`-free run ending in `name`, `[`,
      options free of `]` and line breaks, then `]`, has its directive at 0
      with those options. */
  lemma IncludeAtStart(name: string, s: string, t0: nat, b: nat, e: nat)
    requires 9 <= t0 <= b < e < |s| && b == t0 + |name|
    requires OccursAt(s, "include::", 0)
    requires forall k :: 9 <= k < b ==> s[k] != '['
    requires s[t0..b] == name && s[b] == '['
    requires forall k :: b + 1 <= k < e ==> s[k] != ']' && s[k] != '\n'
    requires s[e] == ']'
    ensures IncludeAt(name, s, 0) == Some(Directive(b + 1, e))
  {
    SkipWhileExact(s, 9, b, NotOpenBracket);
    forall u | t0 < u <= b
      ensures !OccursAt(s, name, u) || u + |name| >= |s| || s[u + |name|] != '['
    {
      if u + |name| <= |s| {
        assert s[u..u + |name|][b - u] == '[';
      }
    }
    TargetAtDown(name, s, 9, t0, b);
    SkipWhileExact(s, b + 1, e, NotCloseOrNewline);
  }

  /** A text that starts with a directive and has no further line start
      after its `]` becomes the replacement followed by the rest. */
  lemma InlineLeadingDirective(name: string, rep: string -> string, s: string, d: Directive)
    requires IncludeAt(name, s, 0) == Some(d)
    requires forall q :: d.optsEnd + 1 <= q <= |s| ==> !IsLineStart(s, q)
    ensures d.optsStart <= d.optsEnd < |s|
    ensures InlineFrom(name, rep, s, 0) == rep(s[d.optsStart..d.optsEnd]) + s[d.optsEnd + 1..]
  {
    var at := IncludeMatcher(name);
    assert at(s, 0) == Some(d);
    FirstMatchAt(s, 0, at, true, 0);
    assert s[0..0] == [];
  }

  /** `leveloffset=N` and `leveloffset=+N` both give `N`. */
  lemma LevelOffsetOf(n: nat, sign: string)
    requires sign == "" || sign == "+"
    ensures LevelOffset("leveloffset=" + sign + NatToString(n)) == Some(n)
  {
    var o := "leveloffset=" + sign + NatToString(n);
    var digits := NatToString(n);
    var j := 12 + |sign|;
    assert o[..12] == "leveloffset=" && o[j..] == digits && |o| == j + |digits|;
    assert OccursAt(o, "leveloffset=", 0);
    assert o[12] == '+' <==> sign == "+" by {
      if sign == "" { assert o[12] == digits[0]; }
    }
    forall k | j <= k < |o| ensures IsDigit(o[k]) {
      assert o[k] == digits[k - j];
    }
    SkipWhileExact(o, j, |o|, IsDigit);
    assert o[j..|o|] == digits;
    DigitsValueOfNat(n);
    assert LevelOffsetAt(o, 0) == Some(n);
  }

  /** Options without `leveloffset=` leave the snippet as it is. */
  lemma NoLevelOffset(o: string)
    requires !Contains(o, "leveloffset=")
    ensures LevelOffset(o).None?
  {
  }
  // ------------------------------------------------------------------
  // Where snippets are used

  /** A file met by the directory walk: the name the walk reports, the
      resolved path, and its lines. */
  datatype WalkedFile = WalkedFile(name: string, resolved: string, lines: seq<string>)

  /** One recorded use: the including file, the directive's text and the
      1-based line number. */
  datatype Use = Use(file: string, directive: string, lineNumber: nat)

  /** A use attributed to a snippet. */
  datatype Hit = Hit(snippet: string, use: Use)

  datatype LineInclude = LineInclude(target: string, directive: string)

  /** `INCLUDE_RE.match(line)`: `include::`, a non-empty run free of `[`
      (the target), then the options in brackets closed on the same line. */
  function IncludeLine(line: string): (r: Option<LineInclude>)
    ensures r.Some? ==> r.value.target != [] && '[' !in r.value.target
                        && StartsWith(line, "include::" + r.value.target + "[")
                        && StartsWith(line, r.value.directive)
                        && r.value.directive != [] && r.value.directive[|r.value.directive| - 1] == ']'
  {
    if StartsWith(line, "include::") then
      var b := SkipWhile(line, 9, NotOpenBracket);
      if 9 < b < |line| then
        var c := CloseAfter(line, b + 1);
        assert line[..b + 1] == "include::" + line[9..b] + "[";
        if c.Some? then Some(LineInclude(line[9..b], line[..c.value + 1]))
        else None
      else None
    else None
  }

  /** `{snippet.name: snippet for snippet in snippets}`: a later snippet
      with the same file name replaces an earlier one. */
  function SnippetNames(snippets: seq<string>): (r: map<string, string>)
    ensures forall n :: n in r ==> r[n] in snippets && BaseName(r[n]) == n
    ensures forall i :: 0 <= i < |snippets| ==> BaseName(snippets[i]) in r
    decreases |snippets|
  {
    if snippets == [] then map[]
    else
      var init, last := snippets[..|snippets| - 1], snippets[|snippets| - 1];
      assert forall i :: 0 <= i < |init| ==> init[i] == snippets[i];
      assert snippets == init + [last];
      SnippetNames(init)[BaseName(last) := last]
  }

  /** A line `include::T[O]...`, with a non-empty target free of `[` and
      options holding neither `]` nor a line break, is matched: the target
      is `T` and the directive ends at the first `]`. */
  lemma IncludeLineOf(t: string, o: string, rest: string)
    requires t != [] && '[' !in t && ']' !in o && '\n' !in o
    ensures IncludeLine("include::" + t + "[" + o + "]" + rest)
            == Some(LineInclude(t, "include::" + t + "[" + o + "]"))
  {
    var d := "include::" + t + "[" + o + "]";
    var line := d + rest;
    var b, c := 9 + |t|, 10 + |t| + |o|;
    assert line[..9] == "include::";
    assert forall k :: 9 <= k < b ==> line[k] == t[k - 9];
    assert line[b] == '[';
    SkipWhileExact(line, 9, b, NotOpenBracket);
    assert forall k :: b + 1 <= k < c ==> line[k] == o[k - b - 1];
    assert line[c] == ']';
    SkipWhileExact(line, b + 1, c, NotCloseOrNewline);
    assert line[9..b] == t;
    assert line[..c + 1] == d;
  }

  /** The snippet a file name stands for is the last one with that name. */
  lemma {:induction false} SnippetNamesLast(snippets: seq<string>, i: nat)
    requires i < |snippets|
    requires forall j :: i < j < |snippets| ==> BaseName(snippets[j]) != BaseName(snippets[i])
    ensures BaseName(snippets[i]) in SnippetNames(snippets)
            && SnippetNames(snippets)[BaseName(snippets[i])] == snippets[i]
    decreases |snippets|
  {
    var init, last := snippets[..|snippets| - 1], snippets[|snippets| - 1];
    assert SnippetNames(snippets) == SnippetNames(init)[BaseName(last) := last];
    if i < |snippets| - 1 {
      assert init[i] == snippets[i];
      assert BaseName(last) != BaseName(snippets[i]);
      forall j | i < j < |init| ensures BaseName(init[j]) != BaseName(init[i]) {
        assert init[j] == snippets[j];
      }
      SnippetNamesLast(init, i);
    }
  }

  /** The resolved paths of the `.adoc` files before index `i`. */
  function Seen(files: seq<WalkedFile>, i: nat): (r: set<string>)
    requires i <= |files|
  {
    if i == 0 then {}
    else Seen(files, i - 1) + (if EndsWith(files[i - 1].name, ".adoc") then {files[i - 1].resolved} else {})
  }

  /** Every `.adoc` file walked before `k` is among those seen at `k`. */
  lemma {:induction false} SeenHas(files: seq<WalkedFile>, i: nat, k: nat)
    requires i < k <= |files| && EndsWith(files[i].name, ".adoc")
    ensures files[i].resolved in Seen(files, k)
    decreases k
  {
    if k > i + 1 {
      SeenHas(files, i, k - 1);
    }
  }

  /** Whether the scan reads `files[i]`: an `.adoc` file whose resolved path
      was not met before and is not one of the snippets. */
  predicate Scanned(snippets: seq<string>, files: seq<WalkedFile>, i: nat)
    requires i < |files|
  {
    EndsWith(files[i].name, ".adoc") && files[i].resolved !in Seen(files, i)
    && files[i].resolved !in snippets
  }

  /** What line `j` of `f` contributes: a use of the snippet whose file
      name is the base name of the directive's target. */
  function LineHit(names: map<string, string>, f: WalkedFile, j: nat): (r: Option<Hit>)
    requires j < |f.lines|
  {
    var m := IncludeLine(f.lines[j]);
    if m.Some? && BaseName(m.value.target) in names then
      Some(Hit(names[BaseName(m.value.target)], Use(f.resolved, m.value.directive, j + 1)))
    else None
  }

  /** The hits of the first `m` lines of `f`, in order. */
  function FileHits(names: map<string, string>, f: WalkedFile, m: nat): seq<Hit>
    requires m <= |f.lines|
  {
    if m == 0 then []
    else
      var h := LineHit(names, f, m - 1);
      FileHits(names, f, m - 1) + (if h.Some? then [h.value] else [])
  }

  /** The hits of the first `n` walked files, in order. */
  function Hits(snippets: seq<string>, files: seq<WalkedFile>, n: nat): seq<Hit>
    requires n <= |files|
  {
    if n == 0 then []
    else
      var f := files[n - 1];
      Hits(snippets, files, n - 1)
      + (if Scanned(snippets, files, n - 1) then FileHits(SnippetNames(snippets), f, |f.lines|) else [])
  }

  /** The uses attributed to `s`, in order. */
  function UsesOf(hits: seq<Hit>, s: string): seq<Use> {
    if hits == [] then []
    else
      var h := hits[|hits| - 1];
      UsesOf(hits[..|hits| - 1], s) + (if h.snippet == s then [h.use] else [])
  }

  /** The map `find_snippet_usage` returns. */
  function Usage(snippets: seq<string>, files: seq<WalkedFile>): (r: map<string, seq<Use>>)
    ensures r.Keys == set s | s in snippets
  {
    map s | s in snippets :: UsesOf(Hits(snippets, files, |files|), s)
  }

  lemma {:induction false} UsesOfConcat(a: seq<Hit>, b: seq<Hit>, s: string)
    ensures UsesOf(a + b, s) == UsesOf(a, s) + UsesOf(b, s)
    decreases |b|
  {
    if b == [] {
      assert a + b == a;
    } else {
      var init := b[..|b| - 1];
      assert (a + b)[..|a + b| - 1] == a + init;
      assert (a + b)[|a + b| - 1] == b[|b| - 1];
      UsesOfConcat(a, init, s);
    }
  }

  lemma {:induction false} UsesOfMember(hits: seq<Hit>, s: string, u: Use)
    ensures u in UsesOf(hits, s) <==> Hit(s, u) in hits
    decreases |hits|
  {
    if hits != [] {
      var init := hits[..|hits| - 1];
      UsesOfMember(init, s, u);
      assert hits == init + [hits[|hits| - 1]];
    }
  }

  /** A hit some line reports is among the file's hits. */
  lemma {:induction false} FileHitsHas(names: map<string, string>, f: WalkedFile, m: nat, j: nat, h: Hit)
    requires j < m <= |f.lines| && LineHit(names, f, j) == Some(h)
    ensures h in FileHits(names, f, m)
    decreases m
  {
    var lh := LineHit(names, f, m - 1);
    var prev, more := FileHits(names, f, m - 1), if lh.Some? then [lh.value] else [];
    assert FileHits(names, f, m) == prev + more;
    if j < m - 1 {
      FileHitsHas(names, f, m - 1, j, h);
      assert h in prev;
    } else {
      assert more == [h];
    }
  }

  /** Every hit of a file comes from one of its lines. */
  lemma {:induction false} FileHitsFrom(names: map<string, string>, f: WalkedFile, m: nat, h: Hit) returns (j: nat)
    requires m <= |f.lines| && h in FileHits(names, f, m)
    ensures j < m && LineHit(names, f, j) == Some(h)
    decreases m
  {
    var lh := LineHit(names, f, m - 1);
    assert FileHits(names, f, m) == FileHits(names, f, m - 1) + (if lh.Some? then [lh.value] else []);
    if h in FileHits(names, f, m - 1) {
      j := FileHitsFrom(names, f, m - 1, h);
    } else {
      j := m - 1;
    }
  }

  /** Line `j` of `files[i]` records the use `u` of the snippet `s`. */
  predicate Records(snippets: seq<string>, files: seq<WalkedFile>, i: nat, j: nat, s: string, u: Use) {
    i < |files| && Scanned(snippets, files, i) && j < |files[i].lines|
    && LineHit(SnippetNames(snippets), files[i], j) == Some(Hit(s, u))
  }

  lemma HitsMember(snippets: seq<string>, files: seq<WalkedFile>, n: nat, s: string, u: Use)
    requires n <= |files|
    ensures Hit(s, u) in Hits(snippets, files, n)
            <==> exists i: nat, j: nat :: i < n && Records(snippets, files, i, j, s, u)
  {
    if Hit(s, u) in Hits(snippets, files, n) {
      var i, j := HitsFrom(snippets, files, n, s, u);
    }
    if exists i: nat, j: nat :: i < n && Records(snippets, files, i, j, s, u) {
      var i: nat, j: nat :| i < n && Records(snippets, files, i, j, s, u);
      HitsHas(snippets, files, n, i, j, s, u);
    }
  }

  /** The hits of the first `n` files, one step at a time. */
  lemma HitsStep(snippets: seq<string>, files: seq<WalkedFile>, n: nat)
    requires 0 < n <= |files|
    ensures var f := files[n - 1];
            Hits(snippets, files, n) == Hits(snippets, files, n - 1)
              + (if Scanned(snippets, files, n - 1) then FileHits(SnippetNames(snippets), f, |f.lines|) else [])
  {
  }

  /** A use some line of a scanned file records is among the hits. */
  lemma {:induction false} HitsHas(snippets: seq<string>, files: seq<WalkedFile>, n: nat, i: nat, j: nat, s: string, u: Use)
    requires i < n <= |files| && Records(snippets, files, i, j, s, u)
    ensures Hit(s, u) in Hits(snippets, files, n)
    decreases n
  {
    HitsStep(snippets, files, n);
    var f := files[n - 1];
    var prev := Hits(snippets, files, n - 1);
    var more := if Scanned(snippets, files, n - 1) then FileHits(SnippetNames(snippets), f, |f.lines|) else [];
    assert Hits(snippets, files, n) == prev + more;
    if i < n - 1 {
      HitsHas(snippets, files, n - 1, i, j, s, u);
      assert Hit(s, u) in prev;
    } else {
      FileHitsHas(SnippetNames(snippets), f, |f.lines|, j, Hit(s, u));
      assert Hit(s, u) in more;
    }
  }

  /** Every hit comes from a line of a scanned file. */
  lemma {:induction false} HitsFrom(snippets: seq<string>, files: seq<WalkedFile>, n: nat, s: string, u: Use)
    returns (i: nat, j: nat)
    requires n <= |files| && Hit(s, u) in Hits(snippets, files, n)
    ensures i < n && Records(snippets, files, i, j, s, u)
    decreases n
  {
    if Hit(s, u) in Hits(snippets, files, n - 1) {
      i, j := HitsFrom(snippets, files, n - 1, s, u);
    } else {
      i := n - 1;
      j := HitsFromLast(snippets, files, n, s, u);
    }
  }

  /** A hit that the last file adds comes from one of its lines. */
  lemma HitsFromLast(snippets: seq<string>, files: seq<WalkedFile>, n: nat, s: string, u: Use)
    returns (j: nat)
    requires 0 < n <= |files| && Hit(s, u) in Hits(snippets, files, n)
    requires Hit(s, u) !in Hits(snippets, files, n - 1)
    ensures Records(snippets, files, n - 1, j, s, u)
  {
    HitsStep(snippets, files, n);
    var f := files[n - 1];
    assert Scanned(snippets, files, n - 1);
    j := FileHitsFrom(SnippetNames(snippets), f, |f.lines|, Hit(s, u));
  }

  /** A use is recorded for the snippet `s` exactly when some scanned file
      has, at that line, a directive whose target's base name stands for
      `s`: nothing from unscanned files, nothing twice from one line. */
  lemma UsageIff(snippets: seq<string>, files: seq<WalkedFile>, s: string, u: Use)
    requires s in snippets
    ensures u in Usage(snippets, files)[s]
            <==> exists i: nat, j: nat :: Records(snippets, files, i, j, s, u)
  {
    assert Usage(snippets, files)[s] == UsesOf(Hits(snippets, files, |files|), s);
    UsesOfMember(Hits(snippets, files, |files|), s, u);
    HitsMember(snippets, files, |files|, s, u);
  }

  /** A line `include::T[O]...` of a scanned file, whose target's base name
      names a snippet, files a use of that snippet: the file, the directive
      up to the first `]`, and the 1-based line number. */
  lemma IncludedLineRecorded(snippets: seq<string>, files: seq<WalkedFile>, i: nat, j: nat,
                             t: string, o: string, rest: string)
    requires i < |files| && Scanned(snippets, files, i) && j < |files[i].lines|
    requires t != [] && '[' !in t && ']' !in o && '\n' !in o
    requires files[i].lines[j] == "include::" + t + "[" + o + "]" + rest
    requires BaseName(t) in SnippetNames(snippets)
    ensures SnippetNames(snippets)[BaseName(t)] in snippets
    ensures Use(files[i].resolved, "include::" + t + "[" + o + "]", j + 1)
            in Usage(snippets, files)[SnippetNames(snippets)[BaseName(t)]]
  {
    var s := SnippetNames(snippets)[BaseName(t)];
    var u := Use(files[i].resolved, "include::" + t + "[" + o + "]", j + 1);
    IncludeLineOf(t, o, rest);
    assert Records(snippets, files, i, j, s, u);
    UsageIff(snippets, files, s, u);
  }

  /** Every recorded use comes from a file that is not a snippet, and names
      the directive's line; the snippet it is filed under carries the
      base name of the directive's target. */
  lemma RecordsFacts(snippets: seq<string>, files: seq<WalkedFile>, i: nat, j: nat, s: string, u: Use)
    requires Records(snippets, files, i, j, s, u)
    ensures u.file == files[i].resolved && u.file !in snippets && u.lineNumber == j + 1
    ensures StartsWith(files[i].lines[j], u.directive)
    ensures var m := IncludeLine(files[i].lines[j]);
            m.Some? && u.directive == m.value.directive && BaseName(m.value.target) == BaseName(s)
  {
  }

  /** A path is scanned at most once, whatever links lead to it. */
  lemma ScannedOnce(snippets: seq<string>, files: seq<WalkedFile>, i: nat, k: nat)
    requires i < k < |files| && Scanned(snippets, files, i) && Scanned(snippets, files, k)
    ensures files[i].resolved != files[k].resolved
  {
    SeenHas(files, i, k);
  }

  lemma SeenNext(files: seq<WalkedFile>, i: nat)
    requires i < |files|
    ensures Seen(files, i + 1)
            == Seen(files, i) + (if EndsWith(files[i].name, ".adoc") then {files[i].resolved} else {})
  {
  }

  /** Filing one more hit under its snippet keeps the uses of every
      snippet in step with the hits. */
  lemma AddHit(base: map<string, seq<Use>>, cur: map<string, seq<Use>>, hits: seq<Hit>, h: Hit)
    requires h.snippet in cur && cur.Keys == base.Keys
    requires forall s :: s in base ==> cur[s] == base[s] + UsesOf(hits, s)
    ensures var next := cur[h.snippet := cur[h.snippet] + [h.use]];
            next.Keys == base.Keys
            && forall s :: s in base ==> next[s] == base[s] + UsesOf(hits + [h], s)
  {
    assert (hits + [h])[..|hits|] == hits;
  }

  /** One round of the inner loop of `find_snippet_usage`, on line `j`:
      a directive whose target's base name is a snippet's file name is
      filed under that snippet. */
  method ScanLine(names: map<string, string>, f: WalkedFile, j: nat,
                  usage: map<string, seq<Use>>, cur: map<string, seq<Use>>)
    returns (next: map<string, seq<Use>>)
    requires j < |f.lines|
    requires forall n :: n in names ==> names[n] in usage
    requires cur.Keys == usage.Keys
    requires forall s :: s in usage ==> cur[s] == usage[s] + UsesOf(FileHits(names, f, j), s)
    ensures next.Keys == usage.Keys
    ensures forall s :: s in usage ==> next[s] == usage[s] + UsesOf(FileHits(names, f, j + 1), s)
  {
    ghost var before := FileHits(names, f, j);
    var m := IncludeLine(f.lines[j]);
    if m.Some? && BaseName(m.value.target) in names {
      var snippet := names[BaseName(m.value.target)];
      var use := Use(f.resolved, m.value.directive, j + 1);
      assert LineHit(names, f, j) == Some(Hit(snippet, use));
      assert FileHits(names, f, j + 1) == before + [Hit(snippet, use)];
      AddHit(usage, cur, before, Hit(snippet, use));
      next := cur[snippet := cur[snippet] + [use]];
    } else {
      assert LineHit(names, f, j).None?;
      assert FileHits(names, f, j + 1) == before + [];
      assert before + [] == before;
      next := cur;
    }
  }

  /** The inner loop of `find_snippet_usage` over the lines of one file. */
  method ScanFile(names: map<string, string>, f: WalkedFile, usage: map<string, seq<Use>>)
    returns (next: map<string, seq<Use>>)
    requires forall n :: n in names ==> names[n] in usage
    ensures next.Keys == usage.Keys
    ensures forall s :: s in usage ==> next[s] == usage[s] + UsesOf(FileHits(names, f, |f.lines|), s)
  {
    next := usage;
    for j := 0 to |f.lines|
      invariant next.Keys == usage.Keys
      invariant forall s :: s in usage ==> next[s] == usage[s] + UsesOf(FileHits(names, f, j), s)
    {
      next := ScanLine(names, f, j, usage, next);
    }
  }

  /** After one more walked file, the uses follow the hits of one more file. */
  lemma ScanStep(snippets: seq<string>, files: seq<WalkedFile>, i: nat,
                 before: map<string, seq<Use>>, after: map<string, seq<Use>>)
    requires i < |files|
    requires before.Keys == after.Keys
    requires forall s :: s in before ==> before[s] == UsesOf(Hits(snippets, files, i), s)
    requires Scanned(snippets, files, i) ==>
               forall s :: s in before ==>
                 after[s] == before[s] + UsesOf(FileHits(SnippetNames(snippets), files[i], |files[i].lines|), s)
    requires !Scanned(snippets, files, i) ==> after == before
    ensures forall s :: s in after ==> after[s] == UsesOf(Hits(snippets, files, i + 1), s)
  {
    var f := files[i];
    var more := if Scanned(snippets, files, i) then FileHits(SnippetNames(snippets), f, |f.lines|) else [];
    assert Hits(snippets, files, i + 1) == Hits(snippets, files, i) + more;
    forall s | s in after ensures after[s] == UsesOf(Hits(snippets, files, i + 1), s) {
      UsesOfConcat(Hits(snippets, files, i), more, s);
    }
  }

  /** The state of `find_snippet_usage` after the first `i` walked files. */
  ghost predicate ScanState(snippets: seq<string>, files: seq<WalkedFile>, i: nat,
                            processed: set<string>, usage: map<string, seq<Use>>)
    requires i <= |files|
  {
    processed == Seen(files, i) && usage.Keys == (set s | s in snippets)
    && forall s :: s in usage ==> usage[s] == UsesOf(Hits(snippets, files, i), s)
  }

  /** One round of the outer loop of `find_snippet_usage`, on `files[i]`. */
  method Visit(snippets: seq<string>, names: map<string, string>, files: seq<WalkedFile>, i: nat,
               processed: set<string>, usage: map<string, seq<Use>>)
    returns (processed': set<string>, usage': map<string, seq<Use>>)
    requires i < |files| && names == SnippetNames(snippets)
    requires ScanState(snippets, files, i, processed, usage)
    ensures ScanState(snippets, files, i + 1, processed', usage')
  {
    var f := files[i];
    SeenNext(files, i);
    processed', usage' := processed, usage;
    if EndsWith(f.name, ".adoc") && f.resolved !in processed {
      processed' := processed + {f.resolved};
      if f.resolved !in snippets {
        assert Scanned(snippets, files, i);
        usage' := ScanFile(names, f, usage);
      }
    }
    assert processed' == Seen(files, i + 1);
    ScanStep(snippets, files, i, usage, usage');
  }

  /** `find_snippet_usage` over the files of the walk, in walk order. */
  method FindSnippetUsage(snippets: seq<string>, files: seq<WalkedFile>)
    returns (usage: map<string, seq<Use>>)
    ensures usage == Usage(snippets, files)
  {
    usage := map s | s in snippets :: [];
    var names := SnippetNames(snippets);
    var processed: set<string> := {};
    for i := 0 to |files|
      invariant ScanState(snippets, files, i, processed, usage)
    {
      processed, usage := Visit(snippets, names, files, i, processed, usage);
    }
    UsageFinal(snippets, files, usage);
  }

  lemma UsageFinal(snippets: seq<string>, files: seq<WalkedFile>, usage: map<string, seq<Use>>)
    requires ScanState(snippets, files, |files|, Seen(files, |files|), usage)
    ensures usage == Usage(snippets, files)
  {
    var u := Usage(snippets, files);
    assert usage.Keys == u.Keys;
    forall s | s in usage ensures usage[s] == u[s] {
      assert u[s] == UsesOf(Hits(snippets, files, |files|), s);
    }
  }
}
