/** The Vale issue fixer: the findings Vale reports are filtered, sorted
    per file into reverse position order and fixed one by one where a fix
    is known (a suggested replacement, a regex edit, collapsing double
    spaces, "using" -> "by using"); the rest are kept for manual review. */
module ValeFixer {
  import opened Text

  // ------------------------------------------------------------------
  // Issues

  /** Vale's `Span`: 1-based first and last column of the finding. */
  datatype Span = Span(first: int, last: int)

  /** One finding in Vale's JSON output for a file. */
  datatype Finding = Finding(check: string, line: nat, span: Span, severity: string,
                             message: string, matched: string,
                             actionName: Option<string>, actionParams: Option<seq<string>>)

  /** Vale's output: the findings of each file, in output order. */
  datatype FileFindings = FileFindings(path: string, findings: seq<Finding>)

  datatype ValeIssue = ValeIssue(file: string, line: nat, span: Span, check: string,
                                 severity: string, message: string, matched: string,
                                 actionName: Option<string>, actionParams: Option<seq<string>>)

  const AutoFixableChecks: seq<string> :=
    ["RedHat.TermsErrors", "RedHat.TermsWarnings", "RedHat.Hyphens",
     "RedHat.Using", "RedHat.Spacing", "RedHat.CaseSensitiveTerms"]

  /** The action parameters are present and non-empty (a truthy list). */
  predicate HasParams(issue: ValeIssue) {
    issue.actionParams.Some? && issue.actionParams.value != []
  }

  /** `ValeIssue.can_auto_fix`. */
  predicate CanAutoFix(issue: ValeIssue) {
    issue.actionName == Some("replace") || issue.actionName == Some("edit")
    || (issue.check in AutoFixableChecks && HasParams(issue))
  }

  // ------------------------------------------------------------------
  // Parsing Vale's output

  const IncludedCheckPrefixes: seq<string> := ["RedHat.", "AsciiDocDITA."]

  predicate Included(check: string) {
    exists k :: 0 <= k < |IncludedCheckPrefixes| && StartsWith(check, IncludedCheckPrefixes[k])
  }

  function ToIssue(path: string, f: Finding): ValeIssue {
    ValeIssue(path, f.line, f.span, f.check, f.severity, f.message, f.matched,
              f.actionName, f.actionParams)
  }

  /** The issues of `path` that the filter keeps, in output order. */
  function Kept(path: string, fs: seq<Finding>): (r: seq<ValeIssue>)
    ensures |r| <= |fs|
    ensures forall k :: 0 <= k < |r| ==> r[k].file == path && Included(r[k].check)
    decreases |fs|
  {
    if fs == [] then []
    else
      var f := fs[|fs| - 1];
      Kept(path, fs[..|fs| - 1]) + (if Included(f.check) then [ToIssue(path, f)] else [])
  }

  /** An issue is kept exactly when it comes from a finding of an included check. */
  lemma {:induction false} KeptMembers(path: string, fs: seq<Finding>, x: ValeIssue)
    ensures x in Kept(path, fs) <==>
            exists k :: 0 <= k < |fs| && Included(fs[k].check) && x == ToIssue(path, fs[k])
    decreases |fs|
  {
    if fs != [] {
      var init := fs[..|fs| - 1];
      KeptMembers(path, init, x);
      if x in Kept(path, fs) && x !in Kept(path, init) {
        assert x == ToIssue(path, fs[|fs| - 1]);
      }
      if exists k :: 0 <= k < |fs| && Included(fs[k].check) && x == ToIssue(path, fs[k]) {
        var k :| 0 <= k < |fs| && Included(fs[k].check) && x == ToIssue(path, fs[k]);
        if k < |fs| - 1 {
          assert init[k] == fs[k];
        }
      }
    }
  }

  /** Filtering keeps the output order: the issues kept from two runs of
      findings are those of the first run followed by those of the second. */
  lemma {:induction false} KeptOrder(path: string, a: seq<Finding>, b: seq<Finding>)
    ensures Kept(path, a + b) == Kept(path, a) + Kept(path, b)
    decreases |b|
  {
    if b == [] {
      assert a + b == a;
    } else {
      var b' := b[..|b| - 1];
      KeptOrder(path, a, b');
      assert (a + b)[..|a + b| - 1] == a + b';
    }
  }

  /** `issues_by_file[path]` of a `defaultdict(list)`. */
  function Lookup(m: map<string, seq<ValeIssue>>, path: string): seq<ValeIssue> {
    if path in m then m[path] else []
  }

  /** Appending the kept findings of one file, one at a time. */
  function AddFindings(m: map<string, seq<ValeIssue>>, path: string, fs: seq<Finding>)
    : map<string, seq<ValeIssue>>
    decreases |fs|
  {
    if fs == [] then m
    else
      var m' := AddFindings(m, path, fs[..|fs| - 1]);
      var f := fs[|fs| - 1];
      if Included(f.check) then m'[path := Lookup(m', path) + [ToIssue(path, f)]] else m'
  }

  /** A file's list grows by exactly its kept issues; other files are untouched,
      and a file gets an entry only once an issue of it is kept. */
  lemma {:induction false} AddFindingsSpec(m: map<string, seq<ValeIssue>>, path: string,
                                           fs: seq<Finding>, q: string)
    ensures Lookup(AddFindings(m, path, fs), q)
            == Lookup(m, q) + (if q == path then Kept(path, fs) else [])
    ensures q in AddFindings(m, path, fs) <==> q in m || (q == path && Kept(path, fs) != [])
    decreases |fs|
  {
    if fs != [] {
      AddFindingsSpec(m, path, fs[..|fs| - 1], q);
    }
  }

  /** `parse_issues` as a function of the dictionary before the call. */
  function Parsed(m: map<string, seq<ValeIssue>>, output: seq<FileFindings>)
    : map<string, seq<ValeIssue>>
    decreases |output|
  {
    if output == [] then m
    else
      var e := output[|output| - 1];
      AddFindings(Parsed(m, output[..|output| - 1]), e.path, e.findings)
  }

  /** All issues kept for `q` over the whole output, in output order. */
  function KeptFor(q: string, output: seq<FileFindings>): seq<ValeIssue>
    decreases |output|
  {
    if output == [] then []
    else
      var e := output[|output| - 1];
      KeptFor(q, output[..|output| - 1]) + (if e.path == q then Kept(q, e.findings) else [])
  }

  /** After `parse_issues`, each file's list is what it was followed by the
      file's kept issues in output order. */
  lemma {:induction false} ParsedSpec(m: map<string, seq<ValeIssue>>, output: seq<FileFindings>,
                                      q: string)
    ensures Lookup(Parsed(m, output), q) == Lookup(m, q) + KeptFor(q, output)
    decreases |output|
  {
    if output != [] {
      var init, e := output[..|output| - 1], output[|output| - 1];
      var added := if e.path == q then Kept(q, e.findings) else [];
      ParsedSpec(m, init, q);
      AddFindingsSpec(Parsed(m, init), e.path, e.findings, q);
      assert Parsed(m, output) == AddFindings(Parsed(m, init), e.path, e.findings);
      assert KeptFor(q, output) == KeptFor(q, init) + added;
      Associative(Lookup(m, q), KeptFor(q, init), added);
    }
  }

  /** A file has an entry after `parse_issues` exactly when it had one
      before or some issue of it was kept. */
  lemma {:induction false} ParsedKeys(m: map<string, seq<ValeIssue>>, output: seq<FileFindings>,
                                      q: string)
    ensures q in Parsed(m, output) <==> q in m || KeptFor(q, output) != []
    decreases |output|
  {
    if output != [] {
      var init := output[..|output| - 1];
      var e := output[|output| - 1];
      ParsedKeys(m, init, q);
      AddFindingsSpec(Parsed(m, init), e.path, e.findings, q);
      assert KeptFor(q, output) == KeptFor(q, init) + (if e.path == q then Kept(q, e.findings) else []);
    }
  }

  // ------------------------------------------------------------------
  // Fix results and the line being fixed

  /** The kind of message a `FixResult` carries. */
  datatype Message =
    | Skipped | NoAutomaticFix | LineNotFound | NotLocated | Replaced
    | InvalidEditParams | PatternDidNotMatch | AppliedRegex
    | NoDoubleSpaces | FixedSpacing | UsingNotFound | ChangedUsing

  datatype FixResult = FixResult(success: bool, original: string, replacement: string,
                                 message: Message)

  /** What `fix_issue` returns: the content after the attempt and its result. */
  datatype Fixed = Fixed(content: string, result: FixResult)

  function Failure(content: string, issue: ValeIssue, replacement: string, message: Message)
    : (r: Fixed)
    ensures r.content == content && !r.result.success
  {
    Fixed(content, FixResult(false, issue.matched, replacement, message))
  }

  /** The index `line - 1` into the lines of a text: past the end is reported
      missing, and line 0 gives Python's index -1, the last line. */
  function LineIndex(line: nat, count: nat): (r: Option<nat>)
    requires count >= 1
    ensures r.None? <==> line > count
    ensures r.Some? ==> r.value < count
    ensures line >= 1 && r.Some? ==> r.value == line - 1
  {
    if line == 0 then Some(count - 1) else if line - 1 >= count then None else Some(line - 1)
  }

  /** `"\n".join(lines)` after `lines[idx] = line`. */
  function SetLine(content: string, idx: nat, line: string): string
    requires idx < |Split(content, '\n')|
  {
    Join(Split(content, '\n')[idx := line], "\n")
  }

  /** Overwriting one line with a line free of newlines changes that line
      and nothing else: the new text splits into the old lines with only
      `idx` replaced. */
  lemma SetLineLines(content: string, idx: nat, line: string)
    requires idx < |Split(content, '\n')| && '\n' !in line
    ensures Split(SetLine(content, idx, line), '\n') == Split(content, '\n')[idx := line]
  {
    SplitJoin(Split(content, '\n')[idx := line], '\n');
  }

  // ------------------------------------------------------------------
  // _apply_replacement

  lemma LowerSlice(s: string, a: nat, b: nat)
    requires a <= b <= |s|
    ensures Lower(s[a..b]) == Lower(s)[a..b] && PySlice(s, a, b) == s[a..b]
  {
  }

  /** Where the replaced text starts and ends in the line. */
  datatype Spot = Spot(start: int, end: int)

  /** Where `_apply_replacement` takes the match from: the span when the
      text there equals the match ignoring case, otherwise the first
      case-insensitive occurrence in the line. */
  function Locate(line: string, span: Span, m: string): (r: Option<Spot>)
    ensures r.Some? ==> Lower(PySlice(line, r.value.start, r.value.end)) == Lower(m)
    ensures Lower(PySlice(line, span.first - 1, span.last)) == Lower(m)
            ==> r == Some(Spot(span.first - 1, span.last))
    ensures Lower(PySlice(line, span.first - 1, span.last)) != Lower(m)
            ==> (r.None? <==> !Contains(Lower(line), Lower(m)))
    ensures Lower(PySlice(line, span.first - 1, span.last)) != Lower(m) && r.Some?
            ==> 0 <= r.value.start && r.value.end == r.value.start + |m| <= |line|
                && forall j :: 0 <= j < r.value.start ==> !OccursAt(Lower(line), Lower(m), j)
  {
    if Lower(PySlice(line, span.first - 1, span.last)) == Lower(m) then
      Some(Spot(span.first - 1, span.last))
    else
      match Find(Lower(line), Lower(m), 0)
      case None => None
      case Some(p) =>
        LowerSlice(line, p, p + |m|);
        Some(Spot(p, p + |m|))
  }

  /** The case adjustment: when the replaced text starts with an uppercase
      letter and the replacement with a lowercase one, the replacement's
      first letter is capitalised; otherwise it is used as given. Python
      looks at the replacement's first character only after finding an
      uppercase letter, so an empty replacement is indexed (and raises)
      only then. */
  function MatchCase(actual: string, replacement: string): (r: string)
    requires actual != [] && (IsUpper(actual[0]) ==> replacement != [])
    ensures |r| == |replacement|
    ensures replacement != [] ==> r[1..] == replacement[1..]
    ensures IsUpper(actual[0]) && IsLower(replacement[0])
            ==> IsUpper(r[0]) && r[0] == ToUpper(replacement[0])
    ensures !(IsUpper(actual[0]) && IsLower(replacement[0])) ==> r == replacement
  {
    if IsUpper(actual[0]) && IsLower(replacement[0]) then [ToUpper(replacement[0])] + replacement[1..]
    else replacement
  }

  /** Where `_apply_replacement` raises `IndexError`: the line is found and
      the match located, and the located text is empty, or it starts with an
      uppercase letter and the replacement is empty. */
  predicate ReplacementRaises(content: string, issue: ValeIssue, replacement: string) {
    var lines := Split(content, '\n');
    match LineIndex(issue.line, |lines|)
    case None => false
    case Some(idx) =>
      match Locate(lines[idx], issue.span, issue.matched)
      case None => false
      case Some(spot) =>
        var actual := PySlice(lines[idx], spot.start, spot.end);
        actual == [] || (IsUpper(actual[0]) && replacement == [])
  }

  /** `_apply_replacement(content, issue, replacement)`. */
  function ReplacementFix(content: string, issue: ValeIssue, replacement: string): (r: Fixed)
    requires !ReplacementRaises(content, issue, replacement)
    ensures !r.result.success ==> r.content == content
  {
    var lines := Split(content, '\n');
    match LineIndex(issue.line, |lines|)
    case None => Failure(content, issue, replacement, LineNotFound)
    case Some(idx) =>
      var line := lines[idx];
      match Locate(line, issue.span, issue.matched)
      case None => Failure(content, issue, replacement, NotLocated)
      case Some(spot) =>
        var actual := PySlice(line, spot.start, spot.end);
        var repl := MatchCase(actual, replacement);
        Fixed(SetLine(content, idx, PySlice(line, 0, spot.start) + repl + PySlice(line, spot.end, |line|)),
              FixResult(true, actual, repl, Replaced))
  }

  /** A replacement fails, leaving the text alone, exactly when the line is
      past the end or the match is neither at the span nor anywhere in the
      line (ignoring case). When it succeeds, only that line changes: the
      text taken out equals the match ignoring case, and the line becomes
      what precedes it, the case-adjusted replacement and what follows it. */
  lemma ReplacementLines(content: string, issue: ValeIssue, replacement: string)
    requires !ReplacementRaises(content, issue, replacement) && '\n' !in replacement
    ensures var lines := Split(content, '\n');
            var r := ReplacementFix(content, issue, replacement);
            match LineIndex(issue.line, |lines|)
            case None => !r.result.success && r.content == content
            case Some(idx) =>
              match Locate(lines[idx], issue.span, issue.matched)
              case None => !r.result.success && r.content == content
              case Some(spot) =>
                r.result.success && Lower(r.result.original) == Lower(issue.matched)
                && r.result.original == PySlice(lines[idx], spot.start, spot.end)
                && r.result.replacement == MatchCase(r.result.original, replacement)
                && Split(r.content, '\n')
                   == lines[idx := PySlice(lines[idx], 0, spot.start) + r.result.replacement
                                   + PySlice(lines[idx], spot.end, |lines[idx]|)]
  {
    var lines := Split(content, '\n');
    match LineIndex(issue.line, |lines|)
    case None =>
    case Some(idx) =>
      var line := lines[idx];
      match Locate(line, issue.span, issue.matched)
      case None =>
      case Some(spot) =>
        var actual := PySlice(line, spot.start, spot.end);
        var nl := PySlice(line, 0, spot.start) + MatchCase(actual, replacement) + PySlice(line, spot.end, |line|);
        assert '\n' !in nl by {
          assert forall k :: 0 <= k < |MatchCase(actual, replacement)| ==> MatchCase(actual, replacement)[k] != '\n' by {
            forall k | 0 <= k < |MatchCase(actual, replacement)|
              ensures MatchCase(actual, replacement)[k] != '\n'
            {
              if k > 0 { assert MatchCase(actual, replacement)[k] == replacement[k]; }
            }
          }
        }
        SetLineLines(content, idx, nl);
  }

  // ------------------------------------------------------------------
  // _apply_regex_edit

  /** Python's `re.sub(pattern, repl, text, count=1)` and
      `re.sub(pattern, repl, text)`. Vale supplies the pattern, so the
      regular-expression engine is a parameter of the model. */
  datatype RegexEngine = RegexEngine(subFirst: (string, string, string) -> string,
                                     subAll: (string, string, string) -> string)

  /** `_apply_regex_edit(content, issue)`: the second and third action
      parameters are the pattern and its replacement. */
  function RegexEditFix(content: string, issue: ValeIssue, re: RegexEngine): (r: Fixed)
    requires HasParams(issue)
    ensures !r.result.success ==> r.content == content
  {
    var ps := issue.actionParams.value;
    if |ps| < 3 then Failure(content, issue, "", InvalidEditParams)
    else
      var lines := Split(content, '\n');
      match LineIndex(issue.line, |lines|)
      case None => Failure(content, issue, "", LineNotFound)
      case Some(idx) =>
        var nl := re.subFirst(ps[1], ps[2], lines[idx]);
        if nl == lines[idx] then Failure(content, issue, "", PatternDidNotMatch)
        else Fixed(SetLine(content, idx, nl),
                   FixResult(true, issue.matched, re.subAll(ps[1], ps[2], issue.matched), AppliedRegex))
  }

  /** A regex edit succeeds exactly when there are three parameters, the
      line exists and the substitution changes it; then only that line
      changes (when the new line has no newline). */
  lemma RegexEditLines(content: string, issue: ValeIssue, re: RegexEngine)
    requires HasParams(issue)
    ensures var ps := issue.actionParams.value;
            var lines := Split(content, '\n');
            var r := RegexEditFix(content, issue, re);
            match LineIndex(issue.line, |lines|)
            case None => !r.result.success
            case Some(idx) =>
              var nl := if |ps| < 3 then [] else re.subFirst(ps[1], ps[2], lines[idx]);
              (r.result.success <==> |ps| >= 3 && nl != lines[idx])
              && (r.result.success && '\n' !in nl ==> Split(r.content, '\n') == lines[idx := nl])
  {
    var ps := issue.actionParams.value;
    var lines := Split(content, '\n');
    match LineIndex(issue.line, |lines|)
    case None =>
    case Some(idx) =>
      if |ps| >= 3 {
        var nl := re.subFirst(ps[1], ps[2], lines[idx]);
        if '\n' !in nl {
          SetLineLines(content, idx, nl);
        }
      }
  }

  // ------------------------------------------------------------------
  // _fix_double_spaces

  predicate IsBlank(c: char) { c == ' ' }

  /** The pattern `  +` at `p`: a run of two or more spaces, taken whole. */
  function DoubleSpaceAt(s: string, p: nat): (r: Option<nat>)
    ensures r.Some? ==> p + 2 <= r.value <= |s| && (r.value == |s| || s[r.value] != ' ')
    ensures r.Some? ==> forall k :: p <= k < r.value ==> s[k] == ' '
    ensures r.None? <==> !(p + 1 < |s| && s[p] == ' ' && s[p + 1] == ' ')
  {
    if p + 1 < |s| && s[p] == ' ' && s[p + 1] == ' ' then Some(SkipWhile(s, p, IsBlank)) else None
  }

  lemma DoubleSpaceAdvances()
    ensures Advances(DoubleSpaceAt)
  {
  }

  function OneSpace(m: string): string { " " }

  predicate NoDoubleSpace(s: string) {
    forall i :: 0 <= i < |s| - 1 ==> !(s[i] == ' ' && s[i + 1] == ' ')
  }

  /** `re.sub(r'  +', ' ', s)`. */
  function CollapseSpaces(s: string): string {
    DoubleSpaceAdvances();
    SubAll(s, 0, DoubleSpaceAt, false, OneSpace)
  }

  lemma NoDoubleSpaceConcat(a: string, b: string)
    requires NoDoubleSpace(a) && NoDoubleSpace(b)
    requires a == [] || b == [] || a[|a| - 1] != ' ' || b[0] != ' '
    ensures NoDoubleSpace(a + b)
  {
    var c := a + b;
    forall i | 0 <= i < |c| - 1 ensures !(c[i] == ' ' && c[i + 1] == ' ') {
      if i + 1 < |a| {
        assert c[i] == a[i] && c[i + 1] == a[i + 1];
      } else if i >= |a| {
        assert c[i] == b[i - |a|] && c[i + 1] == b[i + 1 - |a|];
      }
    }
  }

  /** With no run of two spaces from `from` on, the rest of the text has no
      two adjacent spaces. */
  lemma NoMatchNoDoubleSpace(s: string, from: nat, upto: nat)
    requires from <= upto <= |s|
    requires forall q :: from <= q < upto ==> DoubleSpaceAt(s, q).None?
    ensures NoDoubleSpace(s[from..upto])
  {
    var t := s[from..upto];
    forall i | 0 <= i < |t| - 1 ensures !(t[i] == ' ' && t[i + 1] == ' ') {
      assert t[i] == s[from + i] && t[i + 1] == s[from + i + 1];
      assert DoubleSpaceAt(s, from + i).None?;
    }
  }

  /** The substitution from `from` on leaves no two adjacent spaces, starts
      with the character at `from`, adds no newline, and gets shorter as
      soon as there is a run to collapse. */
  lemma {:induction false} CollapseFrom(s: string, from: nat)
    requires from <= |s| && Advances(DoubleSpaceAt)
    ensures var r := SubAll(s, from, DoubleSpaceAt, false, OneSpace);
            NoDoubleSpace(r) && (from < |s| ==> r != [] && r[0] == s[from])
            && |r| <= |s| - from
            && (FirstMatch(s, from, DoubleSpaceAt, false).Some? ==> |r| < |s| - from)
            && ('\n' !in s[from..] ==> '\n' !in r)
    decreases |s| - from
  {
    var r := SubAll(s, from, DoubleSpaceAt, false, OneSpace);
    var fm := FirstMatch(s, from, DoubleSpaceAt, false);
    if fm.None? {
      assert r == s[from..];
      NoMatchNoDoubleSpace(s, from, |s|);
      assert s[from..|s|] == s[from..];
    } else {
      var q, e := fm.value.0, fm.value.1;
      assert DoubleSpaceAt(s, q) == Some(e);
      CollapseFrom(s, e);
      var a := s[from..q];
      var rest := SubAll(s, e, DoubleSpaceAt, false, OneSpace);
      assert r == a + " " + rest;
      NoMatchNoDoubleSpace(s, from, q);
      if q > from {
        assert DoubleSpaceAt(s, q - 1).None?;
        assert a[|a| - 1] == s[q - 1];
      }
      NoDoubleSpaceConcat(a, " ");
      NoDoubleSpaceConcat(a + " ", rest);
      if '\n' !in s[from..] {
        assert forall k :: 0 <= k < |a| ==> a[k] == s[from..][k];
        assert forall k :: 0 <= k < |s[e..]| ==> s[e..][k] == s[from..][e - from + k];
      }
    }
  }

  /** Collapsing leaves no two adjacent spaces, changes a line exactly when
      it has a run of two or more spaces, and adds no newline. */
  lemma CollapseSpec(s: string)
    ensures NoDoubleSpace(CollapseSpaces(s))
    ensures CollapseSpaces(s) == s <==> NoDoubleSpace(s)
    ensures '\n' !in s ==> '\n' !in CollapseSpaces(s)
  {
    DoubleSpaceAdvances();
    CollapseFrom(s, 0);
    assert s[0..] == s;
    if NoDoubleSpace(s) {
      forall q | 0 <= q <= |s| && Candidate(s, q, false) ensures DoubleSpaceAt(s, q).None? {
        if q + 1 < |s| {
          assert !(s[q] == ' ' && s[q + 1] == ' ');
        }
      }
      SubAllNoMatch(s, 0, DoubleSpaceAt, false, OneSpace);
    } else {
      var i :| 0 <= i < |s| - 1 && s[i] == ' ' && s[i + 1] == ' ';
      assert DoubleSpaceAt(s, i).Some?;
    }
  }

  /** `_fix_double_spaces(content, issue)`: the whole line is collapsed,
      whatever the span. */
  function SpacingFix(content: string, issue: ValeIssue): (r: Fixed)
    ensures !r.result.success ==> r.content == content
  {
    var lines := Split(content, '\n');
    match LineIndex(issue.line, |lines|)
    case None => Failure(content, issue, "", LineNotFound)
    case Some(idx) =>
      var line := lines[idx];
      var nl := CollapseSpaces(line);
      if nl == line then Failure(content, issue, "", NoDoubleSpaces)
      else Fixed(SetLine(content, idx, nl),
                 FixResult(true, issue.matched, Replace(issue.matched, "  ", " "), FixedSpacing))
  }

  /** Fixing double spaces fails, leaving the text alone, exactly when the
      line is missing or has no run of two spaces; when it succeeds that
      line, and only that line, is left without two adjacent spaces. */
  lemma SpacingFixLines(content: string, issue: ValeIssue)
    ensures var lines := Split(content, '\n');
            var r := SpacingFix(content, issue);
            match LineIndex(issue.line, |lines|)
            case None => !r.result.success
            case Some(idx) =>
              (r.result.success <==> !NoDoubleSpace(lines[idx]))
              && (r.result.success ==> Split(r.content, '\n') == lines[idx := CollapseSpaces(lines[idx])]
                                       && NoDoubleSpace(CollapseSpaces(lines[idx])))
  {
    var lines := Split(content, '\n');
    match LineIndex(issue.line, |lines|)
    case None =>
    case Some(idx) =>
      CollapseSpec(lines[idx]);
      if !NoDoubleSpace(lines[idx]) {
        SetLineLines(content, idx, CollapseSpaces(lines[idx]));
      }
  }

  /** A second application to the fixed text fails and changes nothing. */
  lemma SpacingFixTwice(content: string, issue: ValeIssue)
    requires SpacingFix(content, issue).result.success
    ensures !SpacingFix(SpacingFix(content, issue).content, issue).result.success
  {
    var lines := Split(content, '\n');
    SpacingFixLines(content, issue);
    var idx := LineIndex(issue.line, |lines|).value;
    var fixed := SpacingFix(content, issue).content;
    assert Split(fixed, '\n') == lines[idx := CollapseSpaces(lines[idx])];
    assert LineIndex(issue.line, |Split(fixed, '\n')|) == Some(idx);
    SpacingFixLines(fixed, issue);
  }

  // ------------------------------------------------------------------
  // _fix_using

  /** The lookahead `(?=\s|$|[.,;:])` at `i`. */
  predicate UsingFollows(s: string, i: nat) {
    i <= |s| && (i == |s| || IsSpace(s[i]) || s[i] in ".,;:")
  }

  /** "using", in any case, at `u`. */
  predicate UsingWordAt(s: string, u: nat) {
    u + 5 <= |s| && Lower(s[u..u + 5]) == "using"
  }

  /** The pattern `(\w+)(\s+)(using)(?=\s|$|[.,;:])` under `re.IGNORECASE`
      at `p`, giving where "using" starts. Neither run can give characters
      back to the next part (a word character is not whitespace, whitespace
      is not `u`), so both runs are taken whole. */
  function UsingAt(s: string, p: nat): (r: Option<nat>)
    ensures r.Some? ==> p < r.value && r.value + 5 <= |s| && IsSpace(s[r.value - 1])
                        && UsingWordAt(s, r.value) && UsingFollows(s, r.value + 5)
  {
    if p < |s| && IsWordChar(s[p]) then
      var q := SkipWhile(s, p, IsWordChar);
      var u := SkipSpaces(s, q);
      if q < u && UsingWordAt(s, u) && UsingFollows(s, u + 5)
      then Some(u) else None
    else None
  }

  /** Where `re.search` finds the pattern in a line, with the start of its
      "using". */
  function SearchUsing(line: string): (r: Option<(nat, nat)>)
    ensures r.Some? ==> r.value.1 + 5 <= |line| && UsingAt(line, r.value.0) == Some(r.value.1)
    ensures r.None? ==> forall q :: 0 <= q <= |line| ==> UsingAt(line, q).None?
  {
    FirstMatch(line, 0, UsingAt, false)
  }

  /** The line with the "using" at `u` turned into "by using". */
  function ByUsing(line: string, u: nat): (r: string)
    requires u + 5 <= |line|
    ensures |r| == |line| + 3 && r[..u] == line[..u] && r[u..u + 8] == "by using"
    ensures r[u + 8..] == line[u + 5..]
  {
    line[..u] + "by using" + line[u + 5..]
  }

  /** `_fix_using(content, issue)`: the first match in the line, wherever the
      span points, becomes the same word and whitespace followed by
      "by using". */
  function UsingFix(content: string, issue: ValeIssue): (r: Fixed)
    ensures !r.result.success ==> r.content == content
  {
    var lines := Split(content, '\n');
    match LineIndex(issue.line, |lines|)
    case None => Failure(content, issue, "", LineNotFound)
    case Some(idx) =>
      var line := lines[idx];
      var found := SearchUsing(line);
      if found.None? then Failure(content, issue, "", UsingNotFound)
      else
        var u := found.value.1;
        Fixed(SetLine(content, idx, ByUsing(line, u)),
              FixResult(true, issue.matched, Replace(issue.matched, " using", " by using"), ChangedUsing))
  }

  /** Fixing "using" fails, leaving the text alone, exactly when the line is
      missing or has no match; when it succeeds only that line changes, its
      first "using" (in any case) becoming "by using". */
  lemma UsingFixLines(content: string, issue: ValeIssue)
    ensures var lines := Split(content, '\n');
            var r := UsingFix(content, issue);
            match LineIndex(issue.line, |lines|)
            case None => !r.result.success
            case Some(idx) =>
              var found := SearchUsing(lines[idx]);
              (r.result.success <==> found.Some?)
              && (found.Some? ==>
                    var u := found.value.1;
                    UsingWordAt(lines[idx], u)
                    && Split(r.content, '\n') == lines[idx := ByUsing(lines[idx], u)])
  {
    var lines := Split(content, '\n');
    match LineIndex(issue.line, |lines|)
    case None =>
      assert !UsingFix(content, issue).result.success;
    case Some(idx) =>
      var found := SearchUsing(lines[idx]);
      if found.Some? {
        UsingFixFound(content, issue, idx, found.value.1);
      } else {
        assert !UsingFix(content, issue).result.success;
      }
  }

  /** The successful case of `UsingFixLines`. */
  lemma UsingFixFound(content: string, issue: ValeIssue, idx: nat, u: nat)
    requires LineIndex(issue.line, |Split(content, '\n')|) == Some(idx)
    requires SearchUsing(Split(content, '\n')[idx]).Some? && SearchUsing(Split(content, '\n')[idx]).value.1 == u
    ensures UsingWordAt(Split(content, '\n')[idx], u)
    ensures UsingFix(content, issue).result.success
    ensures var line := Split(content, '\n')[idx];
            Split(UsingFix(content, issue).content, '\n') == Split(content, '\n')[idx := ByUsing(line, u)]
  {
    var line := Split(content, '\n')[idx];
    var nl := ByUsing(line, u);
    assert UsingFix(content, issue).content == SetLine(content, idx, nl);
    SpliceFree(line, u, u + 5, "by using", '\n');
    SetLineLines(content, idx, nl);
  }

  /** Splicing text free of `c` into a line free of `c` leaves it free of `c`. */
  lemma SpliceFree(line: string, u: nat, k: nat, ins: string, c: char)
    requires u <= k <= |line| && c !in line && c !in ins
    ensures c !in line[..u] + ins + line[k..]
  {
    assert line == line[..u] + line[u..k] + line[k..];
  }

  /** "by using" itself matches the pattern: the word "by", one space and
      "using", followed by what the lookahead accepts. */
  lemma ByUsingMatches(line: string, p: nat)
    requires OccursAt(line, "by using", p) && UsingFollows(line, p + 8)
    ensures SearchUsing(line).Some?
  {
    var phrase := line[p..p + 8];
    assert phrase == "by using";
    assert line[p] == phrase[0] == 'b' && line[p + 1] == phrase[1] == 'y';
    assert line[p + 2] == phrase[2] == ' ' && line[p + 3] == phrase[3] == 'u';
    SkipWhileExact(line, p, p + 2, IsWordChar);
    SkipWhileExact(line, p + 2, p + 3, IsSpace);
    assert line[p + 3..p + 8] == "using";
    var w := line[p + 3..p + 8];
    assert forall i :: 0 <= i < 5 ==> Lower(w)[i] == w[i];
    assert UsingAt(line, p).Some?;
  }

  /** The fix is not idempotent: the fixed line contains "by using" followed
      by what followed "using" before, so fixing the same issue again
      succeeds again. */
  lemma UsingFixAgain(content: string, issue: ValeIssue)
    requires UsingFix(content, issue).result.success
    ensures UsingFix(UsingFix(content, issue).content, issue).result.success
  {
    var lines := Split(content, '\n');
    UsingFixLines(content, issue);
    var idx := LineIndex(issue.line, |lines|).value;
    var line := lines[idx];
    var u := SearchUsing(line).value.1;
    var nl := ByUsing(line, u);
    var fixed := UsingFix(content, issue).content;
    assert Split(fixed, '\n')[idx] == nl;
    assert LineIndex(issue.line, |Split(fixed, '\n')|) == Some(idx);
    assert nl[u..u + 8] == "by using";
    assert UsingFollows(nl, u + 8) by {
      if u + 8 < |nl| { assert nl[u + 8] == line[u + 5]; }
    }
    ByUsingMatches(nl, u);
  }

  // ------------------------------------------------------------------
  // fix_issue

  const ConsciousLanguageExclusions: seq<string> := ["making-open-source-more-inclusive.adoc"]

  /** A conscious-language issue in a file that discusses the terms. */
  predicate Excluded(issue: ValeIssue) {
    issue.check == "RedHat.ConsciousLanguage"
    && exists k :: 0 <= k < |ConsciousLanguageExclusions|
                   && Contains(issue.file, ConsciousLanguageExclusions[k])
  }

  /** `fix_issue` raises `IndexError` on this text: a replace action whose
      replacement raises. */
  predicate Raises(content: string, issue: ValeIssue) {
    !Excluded(issue) && issue.actionName == Some("replace") && HasParams(issue)
    && ReplacementRaises(content, issue, issue.actionParams.value[0])
  }

  /** A condition on the issue alone under which `fix_issue` never raises,
      whatever the text: a replace action comes with a non-empty match and,
      when its first suggestion is empty, a match that does not start with a
      letter (the text located for it then does not start with an uppercase
      letter either). */
  predicate WellFormed(issue: ValeIssue) {
    issue.actionName == Some("replace") && HasParams(issue)
    ==> issue.matched != []
        && (issue.actionParams.value[0] == [] ==> !IsUpper(issue.matched[0]) && !IsLower(issue.matched[0]))
  }

  /** The text located for a match equals it ignoring case, so it is as long
      as the match, and it starts with an uppercase letter only if the match
      starts with a letter. */
  lemma LocatedLikeMatch(actual: string, m: string)
    requires Lower(actual) == Lower(m)
    ensures |actual| == |m|
    ensures actual != [] && IsUpper(actual[0]) ==> IsUpper(m[0]) || IsLower(m[0])
  {
    assert |Lower(actual)| == |actual| && |Lower(m)| == |m|;
    if actual != [] && IsUpper(actual[0]) {
      assert Lower(actual)[0] == ToLower(actual[0]) && Lower(m)[0] == ToLower(m[0]);
    }
  }

  /** A well-formed issue never makes `fix_issue` raise. */
  lemma WellFormedNeverRaises(content: string, issue: ValeIssue)
    requires WellFormed(issue)
    ensures !Raises(content, issue)
  {
    if issue.actionName == Some("replace") && HasParams(issue) {
      var lines := Split(content, '\n');
      match LineIndex(issue.line, |lines|)
      case None =>
      case Some(idx) =>
        match Locate(lines[idx], issue.span, issue.matched)
        case None =>
        case Some(spot) =>
          LocatedLikeMatch(PySlice(lines[idx], spot.start, spot.end), issue.matched);
    }
  }

  /** `fix_issue(issue, content)`. Every failure leaves the text as it was;
      an excluded conscious-language issue is skipped before anything else,
      and "no automatic fix" is reported exactly when no branch of the
      dispatch applies. */
  function FixOutcome(content: string, issue: ValeIssue, re: RegexEngine): (r: Fixed)
    requires !Raises(content, issue)
    ensures !r.result.success ==> r.content == content
    ensures r.result.message == Skipped <==> Excluded(issue)
    ensures r.result.message == NoAutomaticFix
            <==> !Excluded(issue)
                 && !(issue.actionName == Some("replace") && HasParams(issue))
                 && !(issue.actionName == Some("edit") && HasParams(issue))
                 && issue.check != "RedHat.Spacing" && issue.check != "RedHat.Using"
  {
    if Excluded(issue) then Failure(content, issue, "", Skipped)
    else if issue.actionName == Some("replace") && HasParams(issue) then
      ReplacementFix(content, issue, issue.actionParams.value[0])
    else if issue.actionName == Some("edit") && HasParams(issue) then RegexEditFix(content, issue, re)
    else if issue.check == "RedHat.Spacing" then SpacingFix(content, issue)
    else if issue.check == "RedHat.Using" then UsingFix(content, issue)
    else Failure(content, issue, "", NoAutomaticFix)
  }

  /** Of the checks `can_auto_fix` lists, only `RedHat.Spacing` and
      `RedHat.Using` have a fix that needs no action: an issue of any other
      listed check that comes without an action is attempted, and
      `fix_issue` reports that no automatic fix is available. */
  lemma AutoFixableWithoutAction(content: string, issue: ValeIssue, re: RegexEngine)
    requires CanAutoFix(issue) && issue.actionName.None? && !Excluded(issue)
    ensures issue.check in AutoFixableChecks && HasParams(issue)
    ensures FixOutcome(content, issue, re).result.message == NoAutomaticFix
            <==> issue.check != "RedHat.Spacing" && issue.check != "RedHat.Using"
  {
  }

  // ------------------------------------------------------------------
  // fix_file: order, counts and the pass over a file

  /** `(a.line, a.span[0]) < (b.line, b.span[0])`. */
  predicate Before(a: ValeIssue, b: ValeIssue) {
    a.line < b.line || (a.line == b.line && a.span.first < b.span.first)
  }

  /** Reverse position order: no issue precedes a later one in the text. */
  predicate NonIncreasing(s: seq<ValeIssue>) {
    forall i, j :: 0 <= i < j < |s| ==> !Before(s[i], s[j])
  }

  /** Inserting `x` after every issue at or after its position. */
  function InsertDescending(s: seq<ValeIssue>, x: ValeIssue): (r: seq<ValeIssue>)
    ensures multiset(r) == multiset(s) + multiset{x}
    decreases |s|
  {
    if s == [] then [x]
    else if Before(s[0], x) then [x] + s
    else
      assert s == [s[0]] + s[1..];
      [s[0]] + InsertDescending(s[1..], x)
  }

  lemma {:induction false} InsertSorted(s: seq<ValeIssue>, x: ValeIssue)
    requires NonIncreasing(s)
    ensures NonIncreasing(InsertDescending(s, x))
    decreases |s|
  {
    if s != [] && !Before(s[0], x) {
      var t := s[1..];
      var r := InsertDescending(t, x);
      InsertSorted(t, x);
      forall j | 0 <= j < |r| ensures !Before(s[0], r[j]) {
        assert r[j] in multiset(r);
        if r[j] != x {
          assert r[j] in multiset(t);
          var k :| 0 <= k < |t| && t[k] == r[j];
          assert t[k] == s[k + 1];
        }
      }
      var full := [s[0]] + r;
      forall i, j | 0 <= i < j < |full| ensures !Before(full[i], full[j]) {
        if i > 0 {
          assert full[i] == r[i - 1] && full[j] == r[j - 1];
        } else {
          assert full[j] == r[j - 1];
        }
      }
    }
  }

  /** `sorted(issues, key=lambda x: (x.line, x.span[0]), reverse=True)`:
      a stable insertion sort, issues at the same position keeping their
      order. */
  function SortIssues(issues: seq<ValeIssue>): (r: seq<ValeIssue>)
    ensures multiset(r) == multiset(issues)
    ensures forall x :: x in r <==> x in issues
    decreases |issues|
  {
    if issues == [] then []
    else
      var init := issues[..|issues| - 1];
      assert issues == init + [issues[|issues| - 1]];
      var r := InsertDescending(SortIssues(init), issues[|issues| - 1]);
      assert forall x :: x in r <==> x in multiset(r);
      assert forall x :: x in issues <==> x in multiset(issues);
      r
  }

  /** The sort puts the issues in reverse position order and is a
      permutation of them. */
  lemma {:induction false} SortIssuesSorted(issues: seq<ValeIssue>)
    ensures NonIncreasing(SortIssues(issues))
    ensures |SortIssues(issues)| == |issues|
    ensures forall x :: x in SortIssues(issues) <==> x in issues
    decreases |issues|
  {
    var r := SortIssues(issues);
    assert |r| == |multiset(r)| == |multiset(issues)| == |issues|;
    forall x ensures x in r <==> x in issues {
      assert x in r <==> x in multiset(r);
    }
    if issues != [] {
      SortIssuesSorted(issues[..|issues| - 1]);
      InsertSorted(SortIssues(issues[..|issues| - 1]), issues[|issues| - 1]);
    }
  }

  /** Two issues at the same position, which the sort key cannot tell apart. */
  predicate SamePlace(a: ValeIssue, b: ValeIssue) {
    a.line == b.line && a.span.first == b.span.first
  }

  /** The issues of `s` at the position of `y`, in their order in `s`. */
  function AtPlace(s: seq<ValeIssue>, y: ValeIssue): (r: seq<ValeIssue>)
    ensures |r| <= |s|
    ensures forall i :: 0 <= i < |r| ==> SamePlace(r[i], y)
  {
    if s == [] then [] else (if SamePlace(s[0], y) then [s[0]] else []) + AtPlace(s[1..], y)
  }

  lemma {:induction false} AtPlaceConcat(a: seq<ValeIssue>, b: seq<ValeIssue>, y: ValeIssue)
    ensures AtPlace(a + b, y) == AtPlace(a, y) + AtPlace(b, y)
  {
    if a == [] {
      assert a + b == b;
    } else {
      assert (a + b)[1..] == a[1..] + b;
      AtPlaceConcat(a[1..], b, y);
    }
  }

  /** No issue of `s` at the position of `y`: nothing is picked. */
  lemma {:induction false} AtPlaceNone(s: seq<ValeIssue>, y: ValeIssue)
    requires forall k :: 0 <= k < |s| ==> !SamePlace(s[k], y)
    ensures AtPlace(s, y) == []
  {
    if s != [] {
      AtPlaceNone(s[1..], y);
    }
  }

  /** Inserting `x` puts it after the issues at its own position, so the
      issues at any one position keep their order, `x` last among its own. */
  lemma {:induction false} InsertStable(s: seq<ValeIssue>, x: ValeIssue, y: ValeIssue)
    requires NonIncreasing(s)
    ensures AtPlace(InsertDescending(s, x), y) == AtPlace(s, y) + (if SamePlace(x, y) then [x] else [])
    decreases |s|
  {
    var tail := if SamePlace(x, y) then [x] else [];
    if s == [] {
      assert AtPlace([x], y) == tail + AtPlace([], y);
    } else if Before(s[0], x) {
      assert InsertDescending(s, x) == [x] + s;
      assert ([x] + s)[1..] == s;
      if SamePlace(x, y) {
        forall k | 0 <= k < |s| ensures !SamePlace(s[k], y) {
          if k > 0 {
            assert !Before(s[0], s[k]);
          }
        }
        AtPlaceNone(s, y);
      }
    } else {
      var t := s[1..];
      forall i, j | 0 <= i < j < |t| ensures !Before(t[i], t[j]) {
        assert t[i] == s[i + 1] && t[j] == s[j + 1];
      }
      InsertStable(t, x, y);
      var r := [s[0]] + InsertDescending(t, x);
      assert InsertDescending(s, x) == r;
      assert r[1..] == InsertDescending(t, x);
      var h := if SamePlace(s[0], y) then [s[0]] else [];
      assert AtPlace(r, y) == h + AtPlace(r[1..], y);
      assert AtPlace(s, y) == h + AtPlace(t, y);
      assert AtPlace(r, y) == h + (AtPlace(t, y) + tail);
    }
  }

  /** The sort inserts the last issue into the sorted others. */
  lemma SortIssuesLast(issues: seq<ValeIssue>)
    requires issues != []
    ensures SortIssues(issues) == InsertDescending(SortIssues(issues[..|issues| - 1]), issues[|issues| - 1])
  {
  }

  /** The sort is stable: at every position, the issues come in the order
      they were given in. */
  lemma {:induction false} SortStable(issues: seq<ValeIssue>, y: ValeIssue)
    ensures AtPlace(SortIssues(issues), y) == AtPlace(issues, y)
    decreases |issues|
  {
    if issues != [] {
      var init, x := issues[..|issues| - 1], issues[|issues| - 1];
      assert issues == init + [x];
      AtPlaceLast(init, x, y);
      var sorted := SortIssues(init);
      SortIssuesLast(issues);
      SortStable(init, y);
      SortIssuesSorted(init);
      InsertStable(sorted, x, y);
    }
  }

  /** Appending an issue appends it to the issues at its own position. */
  lemma AtPlaceLast(init: seq<ValeIssue>, x: ValeIssue, y: ValeIssue)
    ensures AtPlace(init + [x], y) == AtPlace(init, y) + (if SamePlace(x, y) then [x] else [])
  {
    AtPlaceConcat(init, [x], y);
    var tail := if SamePlace(x, y) then [x] else [];
    assert [x][1..] == [];
    assert AtPlace([x], y) == tail + [];
    assert tail + [] == tail;
  }

  /** The number of auto-fixable issues. */
  function AutoCount(issues: seq<ValeIssue>): (n: nat)
    ensures n <= |issues|
    decreases |issues|
  {
    if issues == [] then 0
    else AutoCount(issues[..|issues| - 1]) + (if CanAutoFix(issues[|issues| - 1]) then 1 else 0)
  }

  lemma {:induction false} AutoCountConcat(a: seq<ValeIssue>, b: seq<ValeIssue>)
    ensures AutoCount(a + b) == AutoCount(a) + AutoCount(b)
    decreases |b|
  {
    if b == [] {
      assert a + b == a;
    } else {
      AutoCountConcat(a, b[..|b| - 1]);
      assert (a + b)[..|a + b| - 1] == a + b[..|b| - 1];
    }
  }

  /** Reordering does not change how many issues are auto-fixable. */
  lemma {:induction false} AutoCountPermutation(a: seq<ValeIssue>, b: seq<ValeIssue>)
    requires multiset(a) == multiset(b)
    ensures AutoCount(a) == AutoCount(b)
    decreases |a|
  {
    if a != [] {
      var init, x := a[..|a| - 1], a[|a| - 1];
      assert a == init + [x];
      assert x in multiset(b);
      var k :| 0 <= k < |b| && b[k] == x;
      var rest := b[..k] + b[k + 1..];
      RemoveOne(init, x, b, k);
      AutoCountPermutation(init, rest);
      AutoCountRemove(b[..k], x, b[k + 1..]);
      AutoCountConcat(init, [x]);
      AutoCountOne(x);
    }
  }

  /** Taking the same element out of two permutations of each other leaves
      permutations of each other. */
  lemma RemoveOne<T>(init: seq<T>, x: T, b: seq<T>, k: nat)
    requires k < |b| && b[k] == x && multiset(init + [x]) == multiset(b)
    ensures b == b[..k] + [x] + b[k + 1..]
    ensures multiset(init) == multiset(b[..k] + b[k + 1..])
  {
    assert b == b[..k] + [x] + b[k + 1..];
    assert multiset(b) == multiset(b[..k]) + multiset{x} + multiset(b[k + 1..]);
    assert multiset(init + [x]) == multiset(init) + multiset{x};
    forall y ensures multiset(init)[y] == multiset(b[..k] + b[k + 1..])[y] {
      assert multiset(init + [x])[y] == multiset(b)[y];
    }
  }

  /** Taking one issue out lowers the count by one exactly when that issue
      is fixable. */
  lemma AutoCountRemove(p: seq<ValeIssue>, x: ValeIssue, q: seq<ValeIssue>)
    ensures AutoCount(p + [x] + q) == AutoCount(p + q) + (if CanAutoFix(x) then 1 else 0)
  {
    AutoCountConcat(p + [x], q);
    AutoCountConcat(p, [x]);
    AutoCountConcat(p, q);
    AutoCountOne(x);
  }

  lemma AutoCountOne(x: ValeIssue)
    ensures AutoCount([x]) == if CanAutoFix(x) then 1 else 0
  {
    assert [x][..0] == [];
  }

  /** One call of `fix_issue` recorded in `fix_results`. */
  datatype Attempt = Attempt(issue: ValeIssue, result: FixResult)

  /** The state the loop of `fix_file` builds: the text, the attempts in
      order and the issues left for manual review. */
  datatype Pass = Pass(content: string, attempts: seq<Attempt>, manual: seq<ValeIssue>)

  /** The number of successful attempts. */
  function Successes(attempts: seq<Attempt>): (n: nat)
    ensures n <= |attempts|
    decreases |attempts|
  {
    if attempts == [] then 0
    else Successes(attempts[..|attempts| - 1])
         + (if attempts[|attempts| - 1].result.success then 1 else 0)
  }

  predicate AllWellFormed(issues: seq<ValeIssue>) {
    forall x | x in issues :: WellFormed(x)
  }

  /** `fix_issue` of a fixer using the regular-expression engine `re`, as a
      value. */
  function IssueFix(re: RegexEngine): (string, ValeIssue) --> Fixed {
    (c: string, x: ValeIssue) requires WellFormed(x) => WellFormedNeverRaises(c, x); FixOutcome(c, x, re)
  }

  /** `fix` behaves as `fix_issue` does on every well-formed issue. */
  ghost predicate Implements(fix: (string, ValeIssue) --> Fixed, re: RegexEngine) {
    forall c: string, x: ValeIssue {:trigger FixOutcome(c, x, re)} ::
      WellFormed(x) ==> fix.requires(c, x) && !Raises(c, x) && fix(c, x) == FixOutcome(c, x, re)
  }

  lemma IssueFixImplements(re: RegexEngine)
    ensures Implements(IssueFix(re), re)
  {
    forall c: string, x: ValeIssue | WellFormed(x)
      ensures IssueFix(re).requires(c, x) && !Raises(c, x) && IssueFix(re)(c, x) == FixOutcome(c, x, re)
    {
      WellFormedNeverRaises(c, x);
    }
  }

  /** The loop of `fix_file` over `issues` in the given order, with `fix`
      applying one issue: each auto-fixable issue is attempted on the text
      as the previous attempts left it, the others are set aside. Every
      auto-fixable issue is attempted once and every other one set aside
      once, in order. */
  function FixPass(content: string, issues: seq<ValeIssue>, fix: (string, ValeIssue) --> Fixed)
    : (p: Pass)
    requires forall c: string, x: ValeIssue :: x in issues ==> fix.requires(c, x)
    ensures |p.attempts| == AutoCount(issues) && |p.manual| == |issues| - AutoCount(issues)
    ensures forall k :: 0 <= k < |p.attempts| ==> CanAutoFix(p.attempts[k].issue)
    ensures forall k :: 0 <= k < |p.manual| ==> !CanAutoFix(p.manual[k])
    decreases |issues|
  {
    if issues == [] then Pass(content, [], [])
    else
      var init := issues[..|issues| - 1];
      assert forall x :: x in init ==> x in issues;
      var prev := FixPass(content, init, fix);
      var issue := issues[|issues| - 1];
      if CanAutoFix(issue) then
        var f := fix(prev.content, issue);
        Pass(f.content, prev.attempts + [Attempt(issue, f.result)], prev.manual)
      else Pass(prev.content, prev.attempts, prev.manual + [issue])
  }

  /** The pass over `issues[..k + 1]`, when `issues[k]` is auto-fixable, is
      the pass over `issues[..k]` followed by the attempt on `issues[k]`. */
  lemma FixPassAttempt(content: string, issues: seq<ValeIssue>, k: nat,
                       fix: (string, ValeIssue) --> Fixed)
    requires forall c: string, x: ValeIssue :: x in issues ==> fix.requires(c, x)
    requires k < |issues| && CanAutoFix(issues[k])
    ensures forall c: string, x: ValeIssue :: x in issues[..k + 1] ==> fix.requires(c, x)
    ensures forall c: string, x: ValeIssue :: x in issues[..k] ==> fix.requires(c, x)
    ensures var prev := FixPass(content, issues[..k], fix);
            var next := FixPass(content, issues[..k + 1], fix);
            var f := fix(prev.content, issues[k]);
            next.content == f.content && next.attempts == prev.attempts + [Attempt(issues[k], f.result)]
            && next.manual == prev.manual
            && Successes(next.attempts) == Successes(prev.attempts) + (if f.result.success then 1 else 0)
  {
    assert issues[..k + 1][..k] == issues[..k];
    assert forall x :: x in issues[..k] ==> x in issues;
    assert forall x :: x in issues[..k + 1] ==> x in issues;
    var prev := FixPass(content, issues[..k], fix);
    var f := fix(prev.content, issues[k]);
    var attempts := prev.attempts + [Attempt(issues[k], f.result)];
    assert attempts[..|prev.attempts|] == prev.attempts;
  }

  /** The pass over `issues[..k + 1]`, when `issues[k]` is not auto-fixable,
      is the pass over `issues[..k]` with `issues[k]` set aside. */
  lemma FixPassSetAside(content: string, issues: seq<ValeIssue>, k: nat,
                        fix: (string, ValeIssue) --> Fixed)
    requires forall c: string, x: ValeIssue :: x in issues ==> fix.requires(c, x)
    requires k < |issues| && !CanAutoFix(issues[k])
    ensures forall c: string, x: ValeIssue :: x in issues[..k + 1] ==> fix.requires(c, x)
    ensures forall c: string, x: ValeIssue :: x in issues[..k] ==> fix.requires(c, x)
    ensures var prev := FixPass(content, issues[..k], fix);
            var next := FixPass(content, issues[..k + 1], fix);
            next.content == prev.content && next.attempts == prev.attempts
            && next.manual == prev.manual + [issues[k]]
  {
    assert issues[..k + 1][..k] == issues[..k];
    assert forall x :: x in issues[..k] ==> x in issues;
    assert forall x :: x in issues[..k + 1] ==> x in issues;
  }

  /** Every issue of a well-formed list can be given to `fix_issue`. */
  lemma WellFormedFixable(issues: seq<ValeIssue>, re: RegexEngine)
    requires AllWellFormed(issues)
    ensures forall c: string, x: ValeIssue :: x in issues ==> IssueFix(re).requires(c, x)
  {
  }

  /** The counts `fix_file` reports: fixed and skipped add up to the number
      of auto-fixable issues in the file, whatever order they were
      processed in, and the manual-review count is the rest. */
  lemma FileCounts(content: string, issues: seq<ValeIssue>, re: RegexEngine)
    requires AllWellFormed(issues)
    ensures forall c: string, x: ValeIssue :: x in SortIssues(issues) ==> IssueFix(re).requires(c, x)
    ensures var p := FixPass(content, SortIssues(issues), IssueFix(re));
            Successes(p.attempts) + (|p.attempts| - Successes(p.attempts)) == AutoCount(issues)
            && |p.manual| == |issues| - AutoCount(issues)
  {
    SortIssuesSorted(issues);
    WellFormedFixable(SortIssues(issues), re);
    AutoCountPermutation(SortIssues(issues), issues);
  }

  /** A pass in which no attempt succeeds leaves the text as it was, so
      `fix_file` writes nothing then. */
  lemma {:induction false} NothingFixedNothingChanged(content: string, issues: seq<ValeIssue>,
                                                      re: RegexEngine)
    requires AllWellFormed(issues)
    ensures forall c: string, x: ValeIssue :: x in issues ==> IssueFix(re).requires(c, x)
    ensures Successes(FixPass(content, issues, IssueFix(re)).attempts) == 0
            ==> FixPass(content, issues, IssueFix(re)).content == content
    decreases |issues|
  {
    if issues != [] {
      var k := |issues| - 1;
      assert issues[..k + 1] == issues;
      assert forall x :: x in issues[..k] ==> x in issues;
      NothingFixedNothingChanged(content, issues[..k], re);
      if CanAutoFix(issues[k]) {
        FixPassAttempt(content, issues, k, IssueFix(re));
      } else {
        FixPassSetAside(content, issues, k, IssueFix(re));
      }
    }
  }

  // ------------------------------------------------------------------
  // The fixer

  /** What `fix_file` returns: an error for a missing file, or its counts. */
  datatype FileReport = FileMissing | Counts(fixed: nat, skipped: nat, manualReview: nat)

  /** `ValeIssueFixer`: the issues parsed so far, per file, and what fixing
      has recorded. */
  class ValeIssueFixer {
    const dryRun: bool
    var issuesByFile: map<string, seq<ValeIssue>>
    var fixResults: seq<Attempt>
    var manualReviewIssues: seq<ValeIssue>

    constructor(dryRun: bool)
      ensures this.dryRun == dryRun
      ensures issuesByFile == map[] && fixResults == [] && manualReviewIssues == []
    {
      this.dryRun := dryRun;
      issuesByFile := map[];
      fixResults := [];
      manualReviewIssues := [];
    }

    /** `parse_issues(vale_output)`: the kept issues of every file are
        appended to that file's list, in output order. */
    method ParseIssues(output: seq<FileFindings>)
      modifies this
      ensures issuesByFile == Parsed(old(issuesByFile), output)
      ensures fixResults == old(fixResults) && manualReviewIssues == old(manualReviewIssues)
    {
      for i := 0 to |output|
        invariant issuesByFile == Parsed(old(issuesByFile), output[..i])
        invariant fixResults == old(fixResults) && manualReviewIssues == old(manualReviewIssues)
      {
        var entry := output[i];
        assert output[..i + 1][..i] == output[..i];
        for k := 0 to |entry.findings|
          invariant issuesByFile
                    == AddFindings(Parsed(old(issuesByFile), output[..i]), entry.path, entry.findings[..k])
          invariant fixResults == old(fixResults) && manualReviewIssues == old(manualReviewIssues)
        {
          var finding := entry.findings[k];
          assert entry.findings[..k + 1][..k] == entry.findings[..k];
          if Included(finding.check) {
            issuesByFile := issuesByFile[entry.path := Lookup(issuesByFile, entry.path)
                                                       + [ToIssue(entry.path, finding)]];
          }
        }
        assert entry.findings[..|entry.findings|] == entry.findings;
      }
      assert output[..|output|] == output;
    }

    /** `_apply_replacement`, overwriting the issue's line in the list of lines. */
    method ApplyReplacement(content: string, issue: ValeIssue, replacement: string)
      returns (fixed: Fixed)
      requires !ReplacementRaises(content, issue, replacement)
      ensures fixed == ReplacementFix(content, issue, replacement)
    {
      var lines := Split(content, '\n');
      var idx := LineIndex(issue.line, |lines|);
      if idx.None? {
        return Failure(content, issue, replacement, LineNotFound);
      }
      var line := lines[idx.value];
      var spot := Locate(line, issue.span, issue.matched);
      if spot.None? {
        return Failure(content, issue, replacement, NotLocated);
      }
      var start, end := spot.value.start, spot.value.end;
      var actual := PySlice(line, start, end);
      var repl := MatchCase(actual, replacement);
      lines := lines[idx.value := PySlice(line, 0, start) + repl + PySlice(line, end, |line|)];
      fixed := Fixed(Join(lines, "\n"), FixResult(true, actual, repl, Replaced));
    }

    /** `_apply_regex_edit`. */
    method ApplyRegexEdit(content: string, issue: ValeIssue, re: RegexEngine) returns (fixed: Fixed)
      requires HasParams(issue)
      ensures fixed == RegexEditFix(content, issue, re)
    {
      var ps := issue.actionParams.value;
      if |ps| < 3 {
        return Failure(content, issue, "", InvalidEditParams);
      }
      var pattern, replacement := ps[1], ps[2];
      var lines := Split(content, '\n');
      var idx := LineIndex(issue.line, |lines|);
      if idx.None? {
        return Failure(content, issue, "", LineNotFound);
      }
      var line := lines[idx.value];
      var newLine := re.subFirst(pattern, replacement, line);
      if newLine == line {
        return Failure(content, issue, "", PatternDidNotMatch);
      }
      lines := lines[idx.value := newLine];
      fixed := Fixed(Join(lines, "\n"),
                     FixResult(true, issue.matched, re.subAll(pattern, replacement, issue.matched),
                               AppliedRegex));
    }

    /** `_fix_double_spaces`. */
    method FixDoubleSpaces(content: string, issue: ValeIssue) returns (fixed: Fixed)
      ensures fixed == SpacingFix(content, issue)
    {
      var lines := Split(content, '\n');
      var idx := LineIndex(issue.line, |lines|);
      if idx.None? {
        return Failure(content, issue, "", LineNotFound);
      }
      var line := lines[idx.value];
      var newLine := CollapseSpaces(line);
      if newLine == line {
        return Failure(content, issue, "", NoDoubleSpaces);
      }
      lines := lines[idx.value := newLine];
      fixed := Fixed(Join(lines, "\n"),
                     FixResult(true, issue.matched, Replace(issue.matched, "  ", " "), FixedSpacing));
    }

    /** `_fix_using`. */
    method FixUsing(content: string, issue: ValeIssue) returns (fixed: Fixed)
      ensures fixed == UsingFix(content, issue)
    {
      var lines := Split(content, '\n');
      var idx := LineIndex(issue.line, |lines|);
      if idx.None? {
        return Failure(content, issue, "", LineNotFound);
      }
      var line := lines[idx.value];
      var found := SearchUsing(line);
      if found.None? {
        return Failure(content, issue, "", UsingNotFound);
      }
      var u := found.value.1;
      lines := lines[idx.value := ByUsing(line, u)];
      fixed := Fixed(Join(lines, "\n"),
                     FixResult(true, issue.matched, Replace(issue.matched, " using", " by using"),
                               ChangedUsing));
    }

    /** `fix_issue(issue, content)`. */
    method FixIssue(issue: ValeIssue, content: string, re: RegexEngine) returns (fixed: Fixed)
      requires !Raises(content, issue)
      ensures fixed == FixOutcome(content, issue, re)
    {
      if Excluded(issue) {
        fixed := Failure(content, issue, "", Skipped);
      } else if issue.actionName == Some("replace") && HasParams(issue) {
        fixed := ApplyReplacement(content, issue, issue.actionParams.value[0]);
      } else if issue.actionName == Some("edit") && HasParams(issue) {
        fixed := ApplyRegexEdit(content, issue, re);
      } else if issue.check == "RedHat.Spacing" {
        fixed := FixDoubleSpaces(content, issue);
      } else if issue.check == "RedHat.Using" {
        fixed := FixUsing(content, issue);
      } else {
        fixed := Failure(content, issue, "", NoAutomaticFix);
      }
    }

    /** The state of the loop of `fix_file` after the first `k` sorted
        issues: the text, the counts and the attempts and manual issues
        recorded so far are those of the pass over `sorted[..k]`. */
    ghost predicate After(original: string, sorted: seq<ValeIssue>, k: nat,
                          fix: (string, ValeIssue) --> Fixed,
                          content: string, fixedCount: nat, skippedCount: nat,
                          attempts: seq<Attempt>, manual: seq<ValeIssue>)
      requires k <= |sorted|
      requires forall c: string, x: ValeIssue :: x in sorted ==> fix.requires(c, x)
    {
      assert forall x :: x in sorted[..k] ==> x in sorted;
      var p := FixPass(original, sorted[..k], fix);
      content == p.content && attempts == p.attempts && manual == p.manual
      && fixedCount == Successes(attempts) && skippedCount == |attempts| - fixedCount
    }

    /** One round of the loop of `fix_file`, on `sorted[k]`: an auto-fixable
        issue is attempted with `fix_issue`, the attempt recorded and counted
        as fixed or skipped; any other issue is set aside for manual review. */
    method Attend(original: string, sorted: seq<ValeIssue>, k: nat, re: RegexEngine,
                  ghost fix: (string, ValeIssue) --> Fixed,
                  content: string, fixedCount: nat, skippedCount: nat,
                  ghost attempts: seq<Attempt>, ghost manual: seq<ValeIssue>,
                  ghost baseAttempts: seq<Attempt>, ghost baseManual: seq<ValeIssue>)
      returns (next: string, nextFixed: nat, nextSkipped: nat,
               ghost nextAttempts: seq<Attempt>, ghost nextManual: seq<ValeIssue>)
      requires k < |sorted| && AllWellFormed(sorted) && Implements(fix, re)
      requires forall c: string, x: ValeIssue :: x in sorted ==> fix.requires(c, x)
      requires After(original, sorted, k, fix, content, fixedCount, skippedCount, attempts, manual)
      requires fixResults == baseAttempts + attempts
      requires manualReviewIssues == baseManual + manual
      modifies this
      ensures After(original, sorted, k + 1, fix, next, nextFixed, nextSkipped, nextAttempts, nextManual)
      ensures fixResults == baseAttempts + nextAttempts
      ensures manualReviewIssues == baseManual + nextManual
      ensures issuesByFile == old(issuesByFile)
    {
      var issue := sorted[k];
      next, nextFixed, nextSkipped := content, fixedCount, skippedCount;
      if CanAutoFix(issue) {
        WellFormedNeverRaises(content, issue);
        var fixed := FixIssue(issue, content, re);
        AfterAttempt(original, sorted, k, fix, re, content, fixedCount, skippedCount, attempts, manual, fixed);
        next := fixed.content;
        if fixed.result.success {
          nextFixed := fixedCount + 1;
        } else {
          nextSkipped := skippedCount + 1;
        }
        nextAttempts, nextManual := attempts + [Attempt(issue, fixed.result)], manual;
        fixResults := fixResults + [Attempt(issue, fixed.result)];
      } else {
        AfterSetAside(original, sorted, k, fix, content, fixedCount, skippedCount, attempts, manual);
        nextAttempts, nextManual := attempts, manual + [issue];
        manualReviewIssues := manualReviewIssues + [issue];
      }
    }

    /** An attempted issue moves the pass on by its attempt and its count. */
    lemma AfterAttempt(original: string, sorted: seq<ValeIssue>, k: nat,
                       fix: (string, ValeIssue) --> Fixed, re: RegexEngine,
                       content: string, fixedCount: nat, skippedCount: nat,
                       attempts: seq<Attempt>, manual: seq<ValeIssue>, fixed: Fixed)
      requires k < |sorted| && AllWellFormed(sorted) && Implements(fix, re)
      requires forall c: string, x: ValeIssue :: x in sorted ==> fix.requires(c, x)
      requires After(original, sorted, k, fix, content, fixedCount, skippedCount, attempts, manual)
      requires CanAutoFix(sorted[k]) && !Raises(content, sorted[k])
      requires fixed == FixOutcome(content, sorted[k], re)
      ensures After(original, sorted, k + 1, fix, fixed.content,
                    fixedCount + (if fixed.result.success then 1 else 0),
                    skippedCount + (if fixed.result.success then 0 else 1),
                    attempts + [Attempt(sorted[k], fixed.result)], manual)
    {
      FixPassAttempt(original, sorted, k, fix);
    }

    /** An issue set aside moves the pass on by that issue alone. */
    lemma AfterSetAside(original: string, sorted: seq<ValeIssue>, k: nat,
                        fix: (string, ValeIssue) --> Fixed,
                        content: string, fixedCount: nat, skippedCount: nat,
                        attempts: seq<Attempt>, manual: seq<ValeIssue>)
      requires k < |sorted|
      requires forall c: string, x: ValeIssue :: x in sorted ==> fix.requires(c, x)
      requires After(original, sorted, k, fix, content, fixedCount, skippedCount, attempts, manual)
      requires !CanAutoFix(sorted[k])
      ensures After(original, sorted, k + 1, fix, content, fixedCount, skippedCount,
                    attempts, manual + [sorted[k]])
    {
      FixPassSetAside(original, sorted, k, fix);
    }

    /** The loop of `fix_file` over the sorted issues, counting the fixed
        and the skipped ones. */
    method FixInOrder(original: string, sorted: seq<ValeIssue>, re: RegexEngine,
                      ghost fix: (string, ValeIssue) --> Fixed)
      returns (content: string, fixedCount: nat, skippedCount: nat)
      requires AllWellFormed(sorted) && Implements(fix, re)
      requires forall c: string, x: ValeIssue :: x in sorted ==> fix.requires(c, x)
      modifies this
      ensures issuesByFile == old(issuesByFile)
      ensures var p := FixPass(original, sorted, fix);
              content == p.content && fixedCount == Successes(p.attempts)
              && skippedCount == |p.attempts| - fixedCount
              && fixResults == old(fixResults) + p.attempts
              && manualReviewIssues == old(manualReviewIssues) + p.manual
    {
      content, fixedCount, skippedCount := original, 0, 0;
      ghost var attempts: seq<Attempt>, manual: seq<ValeIssue> := [], [];
      assert fixResults == old(fixResults) + attempts;
      assert manualReviewIssues == old(manualReviewIssues) + manual;
      for k := 0 to |sorted|
        invariant After(original, sorted, k, fix, content, fixedCount, skippedCount, attempts, manual)
        invariant fixResults == old(fixResults) + attempts
        invariant manualReviewIssues == old(manualReviewIssues) + manual
        invariant issuesByFile == old(issuesByFile)
      {
        content, fixedCount, skippedCount, attempts, manual :=
          Attend(original, sorted, k, re, fix, content, fixedCount, skippedCount,
                 attempts, manual, old(fixResults), old(manualReviewIssues));
      }
      assert sorted[..|sorted|] == sorted;
    }

    /** `fix_file(file_path, issues)` on the file's text (`None` when the file
        does not exist). The issues are processed in reverse position
        order; the new text is returned as written only when not in dry-run
        mode and the text changed. */
    method FixFile(issues: seq<ValeIssue>, existing: Option<string>, re: RegexEngine)
      returns (report: FileReport, written: Option<string>)
      requires AllWellFormed(issues)
      modifies this
      ensures issuesByFile == old(issuesByFile)
      ensures existing.None? ==> report == FileMissing && written.None?
                                 && fixResults == old(fixResults)
                                 && manualReviewIssues == old(manualReviewIssues)
      ensures existing.Some? ==>
                var p := FixPass(existing.value, SortIssues(issues), IssueFix(re));
                && report == Counts(Successes(p.attempts), |p.attempts| - Successes(p.attempts),
                                    |issues| - AutoCount(issues))
                && fixResults == old(fixResults) + p.attempts
                && manualReviewIssues == old(manualReviewIssues) + p.manual
                && written == (if !dryRun && p.content != existing.value then Some(p.content) else None)
      ensures report.Counts? ==> report.fixed + report.skipped == AutoCount(issues)
                                 && report.manualReview == |issues| - AutoCount(issues)
    {
      if existing.None? {
        return FileMissing, None;
      }
      report, written := FixText(issues, existing.value, re);
    }

    /** `fix_file` once the file has been read. */
    method FixText(issues: seq<ValeIssue>, original: string, re: RegexEngine)
      returns (report: FileReport, written: Option<string>)
      requires AllWellFormed(issues)
      modifies this
      ensures issuesByFile == old(issuesByFile)
      ensures var p := FixPass(original, SortIssues(issues), IssueFix(re));
              && report == Counts(Successes(p.attempts), |p.attempts| - Successes(p.attempts),
                                  |issues| - AutoCount(issues))
              && fixResults == old(fixResults) + p.attempts
              && manualReviewIssues == old(manualReviewIssues) + p.manual
              && written == (if !dryRun && p.content != original then Some(p.content) else None)
      ensures report.fixed + report.skipped == AutoCount(issues)
              && report.manualReview == |issues| - AutoCount(issues)
    {
      var sorted := SortIssues(issues);
      FileCounts(original, issues, re);
      IssueFixImplements(re);
      var content, fixedCount, skippedCount := FixInOrder(original, sorted, re, IssueFix(re));
      report := Counts(fixedCount, skippedCount, |issues| - AutoCount(issues));
      written := if !dryRun && content != original then Some(content) else None;
    }
  }
}
