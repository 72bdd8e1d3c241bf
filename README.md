# AsciiDoc documentation tools, modelled in Dafny

This project models the text logic of five Python tools that maintain an
AsciiDoc documentation repository (modules, assemblies and shared
snippets) against the CQA 2.1 content rules and a jobs-to-be-done (JTBD)
mapping:

- `scripts/cqa_jtbd_validate.py` (module `CqaValidate`) classifies each
  file by its `:_mod-docs-content-type:` attribute and reports violations:
  - an unknown content type;
  - a missing `[role="_abstract"]` marker, or no blank line after the
    level-0 title;
  - a short description outside 50 to 300 characters, or one with
    self-referential wording;
  - text between the include statements of an assembly;
  - a procedure with more than ten steps.
  It then tallies passed and failed files over the corpus. It also
  collects the paths the JTBD mapping names.
- `scripts/cqa_fix_shortdesc.py` (module `CqaFixShortdesc`) repairs short
  descriptions:
  - it adds an abstract block after the headings of files that lack one,
    taking the text from an override table;
  - it shortens paragraphs over 300 characters at a word boundary and
    marks them with an ellipsis;
  - it pads paragraphs under 50 characters with a fixed clause.
- `scripts/jtbd_apply_mapping.py` (module `JtbdApply`):
  - it builds the path-to-job tables from the mapping;
  - it chooses a short description for an assembly from the job (focus,
    then outcomes, then the "so I can" clause of the job statement, each
    clamped to 300 characters);
  - it inserts the `// JTBD job:` provenance block, splices the new
    paragraph, and tags topics.
- `fix_vale_issues.py` (module `ValeFixer`, class `ValeIssueFixer`) keeps
  the `RedHat.` and `AsciiDocDITA.` findings of a Vale run. It sorts each
  file's issues into reverse position order and fixes the ones it can:
  - a suggested replacement, with the case of the first letter kept;
  - a regex edit;
  - collapsing double spaces;
  - "using" becomes "by using".
  Every other issue is kept for manual review.
- `replace_shared_snippets.py` (module `Snippets`):
  - it recognises snippet files by name and directory;
  - it shifts heading levels and strips the snippet markers from a
    snippet's text;
  - it replaces `include::` directives with that text, honouring
    `leveloffset`;
  - it records which documents include which snippet.

Two shared modules hold what the tools have in common. `Text` (text.dfy)
holds the Python string operations, each modelled on ASCII. It also holds
a generic way to run a hand-written regular-expression matcher:
- the first match (`re.search`);
- counting matches (`re.findall`);
- substituting every match (`re.sub`).
`AsciiDoc` (asciidoc.dfy) holds the markup patterns used by more than one
tool. `JtbdMapping` (jtbd_types.dfy) is the mapping as its YAML loader
returns it.

Each regular expression is a matcher function `(text, position) ->
Option<end>`. It is written out with Python's greedy and backtracking
behaviour, and `re.MULTILINE` anchors try line starts only. Where a
pattern's `\s` also matches a line break, the model keeps that behaviour
(`get_content_type`, the level-0 title). Where the code and its
documentation differ, the model follows the code. Three such quirks are
stated as lemmas:
- the length fixes of `cqa_fix_shortdesc.py` splice from the line break
  after the marker, so the new text joins the marker line
  (`CqaFixShortdesc.SpliceJoinsMarkerLine`);
- `update_assembly` splices with offsets found before the provenance
  block was inserted (`JtbdApply.StaleSplice`);
- `_fix_using` is not idempotent, since "by using" matches its own
  pattern (`ValeFixer.UsingFixAgain`).

Code that changes state step by step is modelled with methods. Each
method is proved equal to a specification function:
- the loops of the validator, the fixers and the snippet scan;
- the `ValeIssueFixer` class, whose fields `issues_by_file`,
  `fix_results` and `manual_review_issues` are updated in place.
The properties are stated about those functions as lemmas.

## Model

| member | source | states |
|---|---|---|
| Text.Lower | fix_vale_issues.py:229 | `str.lower()` on ASCII: same length, every character lower-cased on its own |
| Text.Upper | scripts/cqa_jtbd_validate.py:86 | `str.upper()` on ASCII: no lower-case letter is left, and whitespace stays exactly where it was |
| Text.Find | fix_vale_issues.py:231 | `str.find`: the result is an occurrence at or after `from` with none before it; `None` only when there is no occurrence at all |
| Text.Take | scripts/cqa_jtbd_validate.py:188 | `s[:n]`: the first `min(n, len(s))` characters |
| Text.LineEnd | scripts/cqa_jtbd_validate.py:106-108 | the end of the current line: the next `\n`, or the end of the text, with no `\n` before it |
| Text.Strip | scripts/cqa_jtbd_validate.py:86 | `str.strip()`: no whitespace at either end, and the result is a contiguous slice of the input after its leading whitespace |
| Text.StripEmpty | scripts/cqa_jtbd_validate.py:110 | `line.strip() == ""` exactly when the line is all whitespace |
| Text.RStripChar | scripts/jtbd_apply_mapping.py:169 | `rstrip(c)`: a prefix of the input that does not end in `c`, everything removed being `c` |
| Text.JoinSplit | fix_vale_issues.py:213-250 | `"\n".join(content.split("\n"))` gives the content back |
| Text.SplitJoin | scripts/cqa_fix_shortdesc.py:28-50 | splitting a join of newline-free lines gives the lines back |
| Text.SplitLines | scripts/cqa_jtbd_validate.py:173 | `splitlines()` gives lines free of line breaks |
| Text.RSplitHead | scripts/cqa_fix_shortdesc.py:56 | `rsplit(maxsplit=1)[0]` of a non-blank text is non-empty and does not end in whitespace |
| Text.RSplitHeadCut | scripts/cqa_fix_shortdesc.py:56 | with a space before the last word, the head is a prefix of the text, at least two characters shorter, and followed by whitespace |
| Text.RSplitHeadOneWord | scripts/cqa_fix_shortdesc.py:56 | a text with no whitespace is its own head |
| Text.BaseName | scripts/cqa_jtbd_validate.py:328 | `Path(p).name` holds no `/` |
| Text.ReplaceNewlines | scripts/cqa_fix_shortdesc.py:23 | `replace("\n", " ")` keeps the length and leaves no line break |
| Text.ReplaceNewlinesSpaces | scripts/cqa_fix_shortdesc.py:23 | that replacement leaves a text all whitespace exactly when it was |
| Text.NatToString | scripts/cqa_jtbd_validate.py:137 | `str(n)` is a non-empty run of digits |
| Text.DigitsValueOfNat | scripts/cqa_jtbd_validate.py:137 | `int(str(n)) == n` |
| Text.FirstMatch | scripts/cqa_jtbd_validate.py:85 | `re.search`: the match found is at a candidate position, and no earlier candidate matches; `None` only when no candidate matches |
| Text.FirstMatchAt | scripts/cqa_jtbd_validate.py:85 | the search stops at the first candidate position where the pattern matches |
| Text.CountMatchesLines | scripts/cqa_jtbd_validate.py:194 | `len(re.findall(...))` of a `^` multiline pattern that reads each line alone, over lines joined by newlines, is the number of lines it matches at their start |
| Text.CountMatchesLine | scripts/cqa_jtbd_validate.py:194 | over one line, `findall` counts the match at its start, if any, then goes on from the next line start |
| Text.SubAllIdentity | replace_shared_snippets.py:210 | `re.sub` with a replacement that returns its match gives the text back |
| Text.SubAllNoMatch | replace_shared_snippets.py:267 | `re.sub` without a match leaves the text unchanged |
| Text.SubAllShrinks | replace_shared_snippets.py:210 | replacements no longer than their matches do not lengthen the text |
| AsciiDoc.TitleAt | scripts/cqa_jtbd_validate.py:46 | a level-0 title match starts with `=` and ends at a line end |
| AsciiDoc.TitleLine | scripts/cqa_jtbd_validate.py:46 | `=`s, a space and text form a title that runs to the end of that line |
| JtbdMapping.AssemblyPathsOfMembership | scripts/cqa_jtbd_validate.py:74-77 | a path is collected from an assembly list exactly when it is non-empty and some entry names it |
| JtbdMapping.AssemblyPathsMembership | scripts/cqa_jtbd_validate.py:73-77 | a path is an assembly path of the mapping exactly when it is non-empty and some job lists it |
| JtbdMapping.TopicPathsMembership | scripts/cqa_jtbd_validate.py:78-79 | a path is a topic path exactly when some job lists it as a topic |
| CqaValidate.GetContentType | scripts/cqa_jtbd_validate.py:83-86 | the content type is upper-cased and has no surrounding whitespace |
| CqaValidate.NoContentTypeLine | scripts/cqa_jtbd_validate.py:48-50 | without a content-type attribute at any line start there is no content type |
| CqaValidate.ContentTypeOfFirstLine | scripts/cqa_jtbd_validate.py:83-86 | with a value on the first content-type line, the type is that value stripped and upper-cased |
| CqaValidate.ContentTypeMatch | scripts/cqa_jtbd_validate.py:48-50 | the pattern's first match is on the first content-type line, and its group starts after the whitespace that follows the attribute |
| CqaValidate.FindRoleAbstract | scripts/cqa_jtbd_validate.py:47 | the marker that is found spans exactly the marker text |
| CqaValidate.ShortdescParagraph | scripts/cqa_jtbd_validate.py:89-115 | `(None, -1, -1)` exactly when there is no marker; the offsets are ordered after the marker; a text found is non-empty, on one line and stripped |
| CqaValidate.GetShortdescParagraph | scripts/cqa_jtbd_validate.py:89-115 | the two loops compute the short-description paragraph and its offsets |
| CqaValidate.SkipLineBreaks | scripts/cqa_jtbd_validate.py:99-101 | the first loop stops at the first character that is neither `\n` nor `\r` |
| CqaValidate.IsBlankLine | scripts/cqa_jtbd_validate.py:110 | a line is blank exactly when it is all whitespace |
| CqaValidate.CollectParagraph | scripts/cqa_jtbd_validate.py:104-113 | the second loop collects exactly the paragraph's lines and stops at its end |
| CqaValidate.ParagraphLinesNoNewline | scripts/cqa_jtbd_validate.py:106-109 | no collected line holds a line break |
| CqaValidate.ParagraphLinesSpan | scripts/cqa_jtbd_validate.py:104-113 | the collected lines, joined by line breaks, are exactly the text from the start to the end of the paragraph |
| CqaValidate.ParagraphLinesSplit | scripts/cqa_jtbd_validate.py:104-113 | the collected lines are the `split("\n")` of that text |
| CqaValidate.ParagraphLinesEmpty | scripts/cqa_jtbd_validate.py:110-111 | nothing is collected exactly when the paragraph ends where it starts |
| CqaValidate.ParagraphText | scripts/cqa_jtbd_validate.py:114 | the joined text is non-empty, on one line and stripped |
| CqaValidate.CheckBlankLineAfterTitle | scripts/cqa_jtbd_validate.py:118-128 | passes exactly when there is no title or marker, the gap between them is blank, or the gap opens with a blank line; fails with the fixed message otherwise |
| CqaValidate.BlankLineOpensGap | scripts/cqa_jtbd_validate.py:126 | an empty line right after the title satisfies the blank-line pattern |
| CqaValidate.TextRightAfterTitle | scripts/cqa_jtbd_validate.py:126-127 | text on the line after the title fails the blank-line check |
| CqaValidate.CheckShortdescLength | scripts/cqa_jtbd_validate.py:131-140 | passes exactly for 50 to 300 characters; the message says missing, too short or too long, with the length |
| CqaValidate.CheckSelfReferential | scripts/cqa_jtbd_validate.py:143-149 | fails exactly when the text has self-referential wording, with the fixed message |
| CqaValidate.SelfRefMentionsThis | scripts/cqa_jtbd_validate.py:53-57 | self-referential text always contains "this" |
| CqaValidate.ThisDocumentDescribesMatched | scripts/cqa_jtbd_validate.py:53-57 | "this document describes" matches the first alternative of the pattern |
| CqaValidate.ThisDocumentDescribesReported | scripts/cqa_jtbd_validate.py:143-149 | "This document describes", between word boundaries, fails the check in any case |
| CqaValidate.ClassifyLine | scripts/cqa_jtbd_validate.py:176-187 | tells an include line apart, and otherwise reports the line exactly when it is not tolerated |
| CqaValidate.ScanLine | scripts/cqa_jtbd_validate.py:175-188 | one pass of the loop extends the issue list and the include flag to one more line |
| CqaValidate.CheckAssemblyNoTextBetweenIncludes | scripts/cqa_jtbd_validate.py:166-189 | the issues are those of the line-by-line specification; the check passes exactly when there are none |
| CqaValidate.IncludeIssuesStep | scripts/cqa_jtbd_validate.py:175-188 | a line adds one issue, numbered from 1, exactly when it is reported; the flag is set by the first include line |
| CqaValidate.SeenIncludeAfter | scripts/cqa_jtbd_validate.py:174-179 | the flag is set exactly when an include line has been read |
| CqaValidate.IncludeIssuesClean | scripts/cqa_jtbd_validate.py:166-189 | no issue exactly when every non-include line after the first include is tolerated |
| CqaValidate.NoIssueBeforeFirstInclude | scripts/cqa_jtbd_validate.py:174-180 | nothing is reported before the first include line |
| CqaValidate.StepCountBound | scripts/cqa_jtbd_validate.py:192-194 | each counted step marker takes at least five characters |
| CqaValidate.CountProcedureSteps | scripts/cqa_jtbd_validate.py:192-194 | the step count is at most a fifth of the length |
| CqaValidate.StepLineShape | scripts/cqa_jtbd_validate.py:52 | a line `. ` + digits + `. ` + text, the text not starting with whitespace, is a numbered step: the marker matches at its start and ends inside it |
| CqaValidate.RejectedStepExtend | scripts/cqa_jtbd_validate.py:52 | a line starting with `.` at which the marker fails before the line ends gives no match, whatever follows the line |
| CqaValidate.PlainStepLine | scripts/cqa_jtbd_validate.py:52 | an ordinary step, `.`, whitespace and text not starting with a digit (`. Open the file.`), is not a numbered step and no marker can start at it |
| CqaValidate.StepsReadWithinLine | scripts/cqa_jtbd_validate.py:52 | on a numbered step, or a line no marker can start at, the marker reads the line alone, whatever text comes before it and whether a newline or nothing follows |
| CqaValidate.StepHits | scripts/cqa_jtbd_validate.py:52 | on such lines, the lines the marker matches at their start are exactly the numbered steps |
| CqaValidate.StepsCounted | scripts/cqa_jtbd_validate.py:192-194 | for lines that are numbered steps, or lines at which the marker fails before the line ends (block titles such as `.Procedure`, ordinary steps such as `. Open the file.`, any line not starting with `.`), the count of their newline-joined text is the number of numbered steps among them |
| CqaValidate.OnlyStepsCounted | scripts/cqa_jtbd_validate.py:192-194 | n numbered-step lines joined by newlines count n steps |
| CqaValidate.TypeErrors | scripts/cqa_jtbd_validate.py:203-204 | a `content_type` error exactly for a present, non-empty, unknown type |
| CqaValidate.ShortdescReports | scripts/cqa_jtbd_validate.py:212-222 | `shortdesc` errors only, and none exactly when every check run passes |
| CqaValidate.ShortdescBlockErrors | scripts/cqa_jtbd_validate.py:207-222 | the short-description block reports only `shortdesc` errors |
| CqaValidate.ProcedureErrors | scripts/cqa_jtbd_validate.py:224-229 | a `procedure` error exactly for a procedure of more than ten steps |
| CqaValidate.AppendShortdescReports | scripts/cqa_jtbd_validate.py:212-222 | the appends produce exactly the failed checks, in order |
| CqaValidate.CheckShortdescBlock | scripts/cqa_jtbd_validate.py:207-222 | the block's statements produce its specification's errors |
| CqaValidate.ValidateModule | scripts/cqa_jtbd_validate.py:197-234 | `validate_module` reports the type, short-description and procedure errors, in that order |
| CqaValidate.ModuleErrors | scripts/cqa_jtbd_validate.py:197-234 | a module's errors are all `content_type`, `shortdesc` or `procedure` ones, and there are none exactly when its type is missing, empty or a known one, its short description passes every check and it is not a procedure with too many steps |
| CqaValidate.CountsOfModuleErrors | scripts/cqa_jtbd_validate.py:197-234 | the errors of each check add up over the three parts |
| CqaValidate.UnknownContentTypeReported | scripts/cqa_jtbd_validate.py:203-204 | one `content_type` error exactly for a present, non-empty, unknown type |
| CqaValidate.NoShortdescCheckForOtherTypes | scripts/cqa_jtbd_validate.py:208 | types that need no short description get no `shortdesc` error |
| CqaValidate.MissingMarkerReportedAlone | scripts/cqa_jtbd_validate.py:207-210 | a missing marker is the one and only `shortdesc` error |
| CqaValidate.StepLimitReported | scripts/cqa_jtbd_validate.py:224-229 | one `procedure` error exactly for a procedure of more than ten steps |
| CqaValidate.CompliantModulePasses | scripts/cqa_jtbd_validate.py:197-234 | a module of a known type that meets every rule gets no error |
| CqaValidate.ShortdescBlockPasses | scripts/cqa_jtbd_validate.py:207-222 | a short description that passes each check gives no error |
| CqaValidate.AssemblyTypeErrors | scripts/cqa_jtbd_validate.py:240-242 | a `content_type` error exactly when the type is not `ASSEMBLY` |
| CqaValidate.IncludeViolations | scripts/cqa_jtbd_validate.py:245-246 | one `no_text_between_includes` violation per issue, carrying the issue |
| CqaValidate.AppendIncludeViolations | scripts/cqa_jtbd_validate.py:245-246 | the loop appends exactly those violations |
| CqaValidate.ValidateAssembly | scripts/cqa_jtbd_validate.py:237-250 | `validate_assembly` reports the type error, the include issues, then the module checks as an `ASSEMBLY` |
| CqaValidate.CountIncludeViolations | scripts/cqa_jtbd_validate.py:245-246 | the include violations count for their own check only |
| CqaValidate.AssemblyErrors | scripts/cqa_jtbd_validate.py:237-250 | an assembly's errors are module-check errors or `no_text_between_includes` ones, and there are none exactly when its type is `ASSEMBLY`, no two includes lack text between them and its short description passes every check |
| CqaValidate.CountsOfAssemblyErrors | scripts/cqa_jtbd_validate.py:237-250 | the errors of each check add up over the three parts |
| CqaValidate.AssemblyTypeErrorCount | scripts/cqa_jtbd_validate.py:240-242 | an assembly gets exactly one `content_type` error unless its type is `ASSEMBLY` |
| CqaValidate.AssemblyIncludeErrorCount | scripts/cqa_jtbd_validate.py:244-246 | an assembly gets one `no_text_between_includes` error per issue |
| CqaValidate.AssemblyNameRouting | scripts/cqa_jtbd_validate.py:328 | the routing test on the file name comes down to containing `assembly_` |
| CqaValidate.Failures | scripts/cqa_jtbd_validate.py:333-336 | every failed entry carries a non-empty error list |
| CqaValidate.TallyCoversCheckedFiles | scripts/cqa_jtbd_validate.py:309-336 | passed plus failed is the number of checked files |
| CqaValidate.TallyFailedEntries | scripts/cqa_jtbd_validate.py:333-334 | each failed entry is a checked file's path with exactly its errors |
| CqaValidate.ValidateFile | scripts/cqa_jtbd_validate.py:313-331 | an unreadable file gives a `read` error; a readable one is validated as an assembly or a module by its name |
| CqaValidate.TallyFile | scripts/cqa_jtbd_validate.py:312-336 | one pass of the loop extends the tally to one more file |
| CqaValidate.ValidateCorpus | scripts/cqa_jtbd_validate.py:297-336 | the loop computes the tally of its specification, and passed plus failed is the number of checked files |
| CqaValidate.CollectMappedPaths | scripts/cqa_jtbd_validate.py:70-80 | the collected set is the mapping's non-empty assembly paths and its topic paths |
| CqaFixShortdesc.AbstractLineAt | scripts/cqa_fix_shortdesc.py:11 | a marker-line match is the marker followed by whitespace up to a line end |
| CqaFixShortdesc.MarkerLineMatches | scripts/cqa_fix_shortdesc.py:11 | the marker matches exactly when the rest of its line is whitespace |
| CqaFixShortdesc.ParagraphFrom | scripts/cqa_fix_shortdesc.py:19-23 | the paragraph runs to the first `\n\n` or the end of the text; its text is on one line, stripped, and empty only for a blank span |
| CqaFixShortdesc.FirstParagraph | scripts/cqa_fix_shortdesc.py:14-24 | no paragraph is found exactly when no marker line matches |
| CqaFixShortdesc.FirstParagraphFrom | scripts/cqa_fix_shortdesc.py:14-24 | the paragraph starts where the first marker line's match ends |
| CqaFixShortdesc.FirstParagraphPlaced | scripts/cqa_fix_shortdesc.py:14-24 | the paragraph found lies in the text, starts on a line break, and a non-empty one starts with text |
| CqaFixShortdesc.Splice | scripts/cqa_fix_shortdesc.py:84 | everything before the start and after the end is kept, and the new text is placed between them |
| CqaFixShortdesc.MarkerThenText | scripts/cqa_fix_shortdesc.py:19 | a bare marker line matches up to its line break |
| CqaFixShortdesc.FirstMarkerThenText | scripts/cqa_fix_shortdesc.py:19 | the first such marker line is the search's match |
| CqaFixShortdesc.SpliceJoinsMarkerLine | scripts/cqa_fix_shortdesc.py:19-23 | when text follows the marker line directly, the paragraph's span starts on the marker line's own line break |
| CqaFixShortdesc.ParagraphAfterNewline | scripts/cqa_fix_shortdesc.py:20-23 | a span that starts on a line break followed by text gives a non-empty paragraph |
| CqaFixShortdesc.HeadingNotTitleTail | scripts/cqa_fix_shortdesc.py:34-39 | a heading line is never skipped as part of the title's tail |
| CqaFixShortdesc.AbstractBlock | scripts/cqa_fix_shortdesc.py:44-47 | the four inserted lines: blank, marker, at most 300 characters of the description, blank |
| Text.SkipWhile | scripts/cqa_fix_shortdesc.py:37-43 | the first element at or after i that fails the test, every element before it passing; this gives the end of the run of title-tail lines after a heading and the character runs of the patterns |
| CqaFixShortdesc.HeadingLineIff | scripts/cqa_fix_shortdesc.py:34 | `^=+\s+` matches a line exactly when it starts with one or more `=` followed by whitespace |
| CqaFixShortdesc.TitleTailIff | scripts/cqa_fix_shortdesc.py:39 | a line after the title is kept with it exactly when it is blank or, without leading whitespace, starts with `:` or `//` |
| CqaFixShortdesc.WithBlocksCount | scripts/cqa_fix_shortdesc.py:26-50 | every input line comes out, plus one block per heading |
| CqaFixShortdesc.WithEmptyBlock | scripts/cqa_fix_shortdesc.py:26-50 | inserting empty blocks gives the lines back |
| CqaFixShortdesc.WithoutHeadings | scripts/cqa_fix_shortdesc.py:26-50 | without headings nothing is inserted |
| CqaFixShortdesc.AbstractedLineCount | scripts/cqa_fix_shortdesc.py:26-50 | the output has four more lines per heading |
| CqaFixShortdesc.AbstractedNoHeading | scripts/cqa_fix_shortdesc.py:26-50 | a text without headings comes back unchanged |
| CqaFixShortdesc.CopyTail | scripts/cqa_fix_shortdesc.py:37-43 | the inner loop copies exactly the run of tail lines |
| CqaFixShortdesc.InsertStep | scripts/cqa_fix_shortdesc.py:31-49 | one turn of the outer loop moves on and keeps the output on track with the specification |
| CqaFixShortdesc.InsertBlocks | scripts/cqa_fix_shortdesc.py:29-49 | the loop's output is the specification's line list |
| CqaFixShortdesc.AddAbstract | scripts/cqa_fix_shortdesc.py:26-50 | `add_abstract` joins that line list with line breaks |
| CqaFixShortdesc.ShortenParagraph | scripts/cqa_fix_shortdesc.py:52-57 | short text is kept; long text becomes a prefix of at most the limit plus one, with no whitespace before the ellipsis that ends it |
| CqaFixShortdesc.ShortenAtWordBoundary | scripts/cqa_fix_shortdesc.py:56-57 | with a word break inside the limit, the cut falls at whitespace, below the limit |
| CqaFixShortdesc.ShortenOneWord | scripts/cqa_fix_shortdesc.py:56-57 | with no whitespace inside the limit, the result is the first `limit` characters and the ellipsis |
| CqaFixShortdesc.ExpandParagraph | scripts/cqa_fix_shortdesc.py:93 | padding gives at most 300 characters, and the full clause when it fits |
| CqaFixShortdesc.ExpandTooShort | scripts/cqa_fix_shortdesc.py:92-94 | paragraphs under 9 characters stay too short after padding |
| CqaFixShortdesc.ExpandRange | scripts/cqa_fix_shortdesc.py:92-94 | a too-short paragraph of at least 9 characters is padded into the allowed range |
| CqaFixShortdesc.AbstractFix | scripts/cqa_fix_shortdesc.py:68-77 | the abstract repair needs no marker, an override text and a title, and it changes the text |
| CqaFixShortdesc.SpliceChanges | scripts/cqa_fix_shortdesc.py:83-84 | splicing one-line text over a non-blank paragraph changes the text |
| CqaFixShortdesc.ShortenedOneLine | scripts/cqa_fix_shortdesc.py:81-82 | shortening a one-line paragraph is defined and stays on one line |
| CqaFixShortdesc.LongFix | scripts/cqa_fix_shortdesc.py:79-87 | the long repair applies only to a paragraph over 300 characters, and it changes the text |
| CqaFixShortdesc.ShortFix | scripts/cqa_fix_shortdesc.py:89-98 | the short repair applies only to a non-empty paragraph under 50 characters, and it changes the text |
| CqaFixShortdesc.FixWritesAtMostOne | scripts/cqa_fix_shortdesc.py:59-100 | `fix_file` writes a file at most once, and never writes back what it read |
| CqaFixShortdesc.OneOfThree | scripts/cqa_fix_shortdesc.py:59-100 | repairs with exclusive conditions on the paragraph make at most one write |
| CqaFixShortdesc.FixFile | scripts/cqa_fix_shortdesc.py:59-100 | reports a modification exactly when some repair applies, and writes its result unless in dry-run mode |
| CqaFixShortdesc.RepairAbstract | scripts/cqa_fix_shortdesc.py:68-77 | the abstract branch modifies exactly when its repair applies |
| CqaFixShortdesc.RepairLength | scripts/cqa_fix_shortdesc.py:79-98 | the length branches modify exactly when one of their repairs applies, in the order of the source |
| CqaFixShortdesc.RepairLong | scripts/cqa_fix_shortdesc.py:79-87 | the long branch modifies exactly when its repair applies |
| CqaFixShortdesc.RepairShort | scripts/cqa_fix_shortdesc.py:89-98 | the short branch modifies exactly when its repair applies |
| CqaFixShortdesc.FindFile | scripts/cqa_fix_shortdesc.py:160 | finds a file of the tree at that path, or reports that there is none |
| CqaFixShortdesc.OverrideWrite | scripts/cqa_fix_shortdesc.py:159-163 | an override path is written only when its file exists, and the write changes it |
| CqaFixShortdesc.FixOverride | scripts/cqa_fix_shortdesc.py:159-163 | one turn of the first pass counts and writes exactly that change |
| CqaFixShortdesc.FixOverridden | scripts/cqa_fix_shortdesc.py:158-163 | the first pass counts the fixed override paths and writes them unless in dry-run mode |
| CqaFixShortdesc.CorrectionAt | scripts/cqa_fix_shortdesc.py:176-192 | the second pass's repair changes the text |
| CqaFixShortdesc.CorrectionAtSplit | scripts/cqa_fix_shortdesc.py:176-192 | its `elif` writes what the two length repairs would write |
| CqaFixShortdesc.Correction | scripts/cqa_fix_shortdesc.py:172-192 | a correction changes the text |
| CqaFixShortdesc.CorrectionWrites | scripts/cqa_fix_shortdesc.py:172-192 | a correction is the length writes of the content |
| CqaFixShortdesc.CorrectionAsFixFile | scripts/cqa_fix_shortdesc.py:170-192 | on a path without an override, the second pass writes what `fix_file` writes |
| CqaFixShortdesc.FileCorrection | scripts/cqa_fix_shortdesc.py:166-192 | files skipped for a `website` component of their absolute path (the resolved root's components followed by the relative ones) or for an override are never corrected, and a correction changes the file |
| CqaFixShortdesc.WebsiteRootCorrectsNothing | scripts/cqa_fix_shortdesc.py:166-167 | when the resolved repository root itself has a `website` component, the second pass writes nothing |
| CqaFixShortdesc.WrittenSound | scripts/cqa_fix_shortdesc.py:166-192 | every written file is a file of the tree, written with its repair |
| CqaFixShortdesc.WrittenCount | scripts/cqa_fix_shortdesc.py:166-192 | at most one write per file, and none when no file needs a repair |
| CqaFixShortdesc.CorrectFile | scripts/cqa_fix_shortdesc.py:166-192 | one step of the second pass computes the file's correction |
| CqaFixShortdesc.CorrectLengths | scripts/cqa_fix_shortdesc.py:165-192 | the second pass counts the corrected files and writes them unless in dry-run mode |
| JtbdApply.Stored | scripts/jtbd_apply_mapping.py:64 | the stored entry keeps the reference's focus |
| JtbdApply.BindJob | scripts/jtbd_apply_mapping.py:59-67 | one job's loops bind its assemblies and its topics |
| JtbdApply.BuildPathToJob | scripts/jtbd_apply_mapping.py:54-68 | the loops build the two tables of the specification |
| JtbdApply.BindAssembliesKeys | scripts/jtbd_apply_mapping.py:60-64 | binding adds exactly the non-empty assembly paths |
| JtbdApply.BindTopicsKeys | scripts/jtbd_apply_mapping.py:65-67 | binding adds exactly the topic paths |
| JtbdApply.AssemblyTable | scripts/jtbd_apply_mapping.py:54-68 | the assembly table's keys are exactly the mapping's non-empty assembly paths |
| JtbdApply.TopicTable | scripts/jtbd_apply_mapping.py:54-68 | the topic table's keys are exactly the mapping's topic paths |
| JtbdApply.HasBlockIff | scripts/jtbd_apply_mapping.py:114 | the two-part test for an existing block holds exactly when the text contains the job's `// JTBD job:` tag, since the tag begins with the block marker |
| JtbdApply.BindAssembliesAt | scripts/jtbd_apply_mapping.py:60-64 | a path the job lists gets the job and the entry of its last occurrence; other paths are untouched |
| JtbdApply.AssemblyTableLastJob | scripts/jtbd_apply_mapping.py:58-64 | a path listed by several jobs maps to the last of them |
| JtbdApply.BindTopicsAt | scripts/jtbd_apply_mapping.py:65-67 | a topic the job lists maps to it; other topics are untouched |
| JtbdApply.TopicTableLastJob | scripts/jtbd_apply_mapping.py:58-67 | a topic listed by several jobs maps to the last of them |
| JtbdApply.Clamp | scripts/jtbd_apply_mapping.py:78-79 | at most 300 characters; short text is kept; long text becomes a prefix of itself that ends in "." |
| JtbdApply.ClampableFrom | scripts/jtbd_apply_mapping.py:79 | text that starts with a non-space character can always be clamped |
| JtbdApply.StatementClause | scripts/jtbd_apply_mapping.py:92-94 | the clause starts with "So you can " |
| JtbdApply.FirstFit | scripts/jtbd_apply_mapping.py:71-100 | a chosen text has at least 50 characters |
| JtbdApply.FirstFitPrecedence | scripts/jtbd_apply_mapping.py:76-100 | the choice is the clamp of the first source long enough after clamping; with no choice, every clamped source is too short |
| JtbdApply.FitsCons | scripts/jtbd_apply_mapping.py:76-100 | trying one source and then the rest |
| JtbdApply.Choose | scripts/jtbd_apply_mapping.py:76-100 | a chosen text has 50 to 300 characters |
| JtbdApply.ChooseDefined | scripts/jtbd_apply_mapping.py:76-100 | each test the chain reaches is on a text that can be clamped |
| JtbdApply.ChoosePrecedence | scripts/jtbd_apply_mapping.py:76-100 | the chain picks focus, then outcomes, then the statement clause, the first long enough once clamped |
| JtbdApply.FirstFitOfThree | scripts/jtbd_apply_mapping.py:76-100 | the first fit among three optional texts, tried in order |
| JtbdApply.JobShortdesc | scripts/jtbd_apply_mapping.py:71-100 | `job_shortdesc` returns 50 to 300 characters, or nothing |
| JtbdApply.JobShortdescPrecedence | scripts/jtbd_apply_mapping.py:71-100 | `job_shortdesc` is the first fit over focus, outcomes and statement |
| JtbdApply.Reclamp | scripts/jtbd_apply_mapping.py:138-141 | the second length pass keeps presence, caps at 300, and keeps text already in range |
| JtbdApply.ReclampKeeps | scripts/jtbd_apply_mapping.py:137-141 | the second pass leaves an in-range choice unchanged |
| JtbdApply.NewShortdesc | scripts/jtbd_apply_mapping.py:136-141 | the re-clamping in `update_assembly` never changes `job_shortdesc`'s choice, which lies in 50 to 300 |
| JtbdApply.CloseAt | scripts/jtbd_apply_mapping.py:36 | `\n\s*\n` as `re` matches it holds exactly where a line break is followed by a whitespace-only line |
| JtbdApply.NoCloseInRun | scripts/jtbd_apply_mapping.py:36 | a whitespace run without a line break cannot close the paragraph |
| JtbdApply.TryNewlines | scripts/jtbd_apply_mapping.py:35-38 | backtracking over the line breaks of the run finds a group that starts after one of them |
| JtbdApply.TryNewlinesSpec | scripts/jtbd_apply_mapping.py:35-38 | the lazy group ends at the first close, and no close is missed |
| JtbdApply.ParagraphMatchAt | scripts/jtbd_apply_mapping.py:35-38 | a match is at a marker, followed by whitespace and a line break |
| JtbdApply.ParagraphMatchSpec | scripts/jtbd_apply_mapping.py:35-38 | the group is closed by the first whitespace-only line after it |
| JtbdApply.Flatten | scripts/jtbd_apply_mapping.py:108 | flattening leaves no line break, and is empty only for a blank group |
| JtbdApply.FirstParagraph | scripts/jtbd_apply_mapping.py:103-109 | nothing is found exactly when no position matches; a paragraph found is on one line and lies after a line break |
| JtbdApply.FirstParagraphCloses | scripts/jtbd_apply_mapping.py:103-109 | the paragraph found is closed by the first whitespace-only line |
| JtbdApply.NeedsBlankLine | scripts/jtbd_apply_mapping.py:35-38 | without a whitespace-only line after a line break, no paragraph is found |
| JtbdApply.Block | scripts/jtbd_apply_mapping.py:116-120 | the block starts with the `// JTBD job:` tag of the job |
| JtbdApply.ContentTypeLineAt | scripts/jtbd_apply_mapping.py:122 | matches exactly at a content-type attribute, up to its line end |
| JtbdApply.InsertPos | scripts/jtbd_apply_mapping.py:122-124 | the insertion point is missing exactly when no line is a content-type line |
| JtbdApply.EnsureJtbdCommentBlock | scripts/jtbd_apply_mapping.py:112-126 | a text with the block is kept; otherwise the block is inserted after the first content-type line, or at the top, and nothing else changes |
| JtbdApply.EnsuredHasBlock | scripts/jtbd_apply_mapping.py:112-126 | after ensuring, the text has the block |
| JtbdApply.EnsureIdempotent | scripts/jtbd_apply_mapping.py:112-126 | ensuring twice is ensuring once |
| JtbdApply.StaleSplice | scripts/jtbd_apply_mapping.py:151-152 | the splice uses offsets from the text before the block was inserted, so after an insertion it keeps the tail from `end - len(block) - 1` |
| JtbdApply.BlockShift | scripts/jtbd_apply_mapping.py:136-152 | past the inserted block, the new text is the old one shifted by the block's length |
| JtbdApply.UpdateAssembly | scripts/jtbd_apply_mapping.py:129-157 | modified exactly when the block was missing or the paragraph is replaced; the result is the ensured text, or the stale splice of the new short description |
| JtbdApply.TopicTag | scripts/jtbd_apply_mapping.py:166-167 | the tag looked for is the appended comment without its line breaks |
| JtbdApply.AddTopicJtbdComment | scripts/jtbd_apply_mapping.py:160-172 | no change exactly when the tag is present; otherwise trailing line breaks are removed and the comment appended |
| JtbdApply.TopicCommentIdempotent | scripts/jtbd_apply_mapping.py:160-172 | adding the comment a second time changes nothing |
| JtbdApply.EndsWithComment | scripts/jtbd_apply_mapping.py:167 | a text that ends with the comment contains its tag |
| ValeFixer.Kept | fix_vale_issues.py:151-171 | the kept issues belong to the file and come from included checks |
| ValeFixer.KeptMembers | fix_vale_issues.py:153-157 | an issue is kept exactly when it comes from a finding of an included check |
| ValeFixer.KeptOrder | fix_vale_issues.py:151-171 | filtering keeps the output order |
| ValeFixer.AddFindingsSpec | fix_vale_issues.py:152-171 | a file's list grows by exactly its kept issues, and other files are untouched |
| ValeFixer.ParsedSpec | fix_vale_issues.py:149-171 | after parsing, each file's list is the old list followed by its kept issues, in output order |
| ValeFixer.ParsedKeys | fix_vale_issues.py:149-171 | a file has an entry after parsing exactly when it had one or an issue was kept for it |
| ValeFixer.Failure | fix_vale_issues.py:203-208 | a failure leaves the text unchanged |
| ValeFixer.LineIndex | fix_vale_issues.py:214-216 | a line past the end is rejected; otherwise the index is in range, and it is `line - 1` for line 1 on (line 0 picks the last line, as Python's `lines[-1]` does) |
| ValeFixer.SetLineLines | fix_vale_issues.py:248-250 | overwriting one line with a newline-free line changes only that line |
| ValeFixer.Locate | fix_vale_issues.py:224-241 | the span is used when it holds the match regardless of case; otherwise the first case-insensitive occurrence, or nothing when there is none |
| ValeFixer.MatchCase | fix_vale_issues.py:243-245 | the first letter is upper-cased exactly when the original starts upper-case and the replacement lower-case; the rest is kept; an empty replacement is returned as given unless the original starts upper-case (where Python indexes it and raises) |
| ValeFixer.ReplacementFix | fix_vale_issues.py:210-255 | on every input where Python does not raise, a failed replacement leaves the text unchanged |
| ValeFixer.ReplacementLines | fix_vale_issues.py:210-255 | on every input where Python does not raise: fails exactly when the line is out of range or the match is not found; otherwise only that line changes, with the case-matched replacement |
| ValeFixer.RegexEditFix | fix_vale_issues.py:257-298 | a failed edit leaves the text unchanged |
| ValeFixer.RegexEditLines | fix_vale_issues.py:257-298 | succeeds exactly when there are three parameters and the substitution changes the line, which is then the only line changed |
| ValeFixer.DoubleSpaceAt | fix_vale_issues.py:300-332 | matches exactly at two spaces and takes the whole run |
| ValeFixer.CollapseFrom | fix_vale_issues.py:300-332 | collapsing leaves no two adjacent spaces, keeps the first character, shortens when there was a match, and adds no line break |
| ValeFixer.CollapseSpec | fix_vale_issues.py:300-332 | collapsing leaves no double space, and changes a line exactly when it had one |
| ValeFixer.SpacingFix | fix_vale_issues.py:300-332 | a failed spacing fix leaves the text unchanged |
| ValeFixer.SpacingFixLines | fix_vale_issues.py:300-332 | succeeds exactly when the line has a double space; then only that line changes, collapsed |
| ValeFixer.SpacingFixTwice | fix_vale_issues.py:300-332 | fixing the fixed text again fails |
| ValeFixer.UsingAt | fix_vale_issues.py:334-370 | a match is a word, whitespace and "using" in any case, followed by whitespace, punctuation or the end |
| ValeFixer.SearchUsing | fix_vale_issues.py:334-370 | the first match in the line, or none anywhere |
| ValeFixer.UsingFix | fix_vale_issues.py:334-370 | a failed "using" fix leaves the text unchanged |
| ValeFixer.UsingFixLines | fix_vale_issues.py:334-370 | succeeds exactly when the line matches; then only that line changes, with "using" replaced by "by using" |
| ValeFixer.ByUsingMatches | fix_vale_issues.py:334-370 | "by using" matches the pattern itself |
| ValeFixer.UsingFixAgain | fix_vale_issues.py:334-370 | the fix is not idempotent: applied to its own output it succeeds again |
| ValeFixer.AutoFixableWithoutAction | fix_vale_issues.py:63-78 | an issue without an action is auto-fixable only through the check list and its parameters, and then `fix_issue` reports "no automatic fix" exactly when the check is neither `RedHat.Spacing` nor `RedHat.Using` |
| ValeFixer.FixOutcome | fix_vale_issues.py:173-208 | every failure leaves the text unchanged; excluded issues are skipped; "no automatic fix" exactly when no branch of the dispatch applies |
| ValeFixer.InsertDescending | fix_vale_issues.py:383 | inserting adds exactly that issue |
| ValeFixer.InsertSorted | fix_vale_issues.py:383 | inserting keeps the list in reverse position order |
| ValeFixer.SortIssues | fix_vale_issues.py:383 | the sort is a permutation of the issues |
| ValeFixer.SortIssuesSorted | fix_vale_issues.py:383 | the sorted list is in reverse (line, column) order and holds the same issues |
| ValeFixer.InsertStable | fix_vale_issues.py:383 | inserting an issue puts it after the issues already at its position, and leaves the other positions' order alone |
| ValeFixer.SortStable | fix_vale_issues.py:383 | `sorted` is stable even with `reverse=True`: at every position, the issues come out in the order they came in |
| ValeFixer.AutoCount | fix_vale_issues.py:63-78 | the auto-fixable issues are at most all of them |
| ValeFixer.AutoCountConcat | fix_vale_issues.py:372-407 | the counts add up over concatenation |
| ValeFixer.AutoCountPermutation | fix_vale_issues.py:372-407 | reordering does not change the count |
| ValeFixer.AutoCountRemove | fix_vale_issues.py:372-407 | taking an issue out lowers the count by one exactly when it is auto-fixable |
| ValeFixer.Successes | fix_vale_issues.py:372-407 | the successes are at most the attempts |
| ValeFixer.IssueFixImplements | fix_vale_issues.py:173-208 | the fixer's `fix_issue` is the specification on every well-formed issue, and never raises there |
| ValeFixer.FixPass | fix_vale_issues.py:372-407 | each auto-fixable issue is attempted, and each other issue is set aside for manual review |
| ValeFixer.FixPassAttempt | fix_vale_issues.py:372-407 | an attempted issue applies its fix to the current text and records its result |
| ValeFixer.FixPassSetAside | fix_vale_issues.py:372-407 | an issue set aside changes only the manual-review list |
| ValeFixer.FileCounts | fix_vale_issues.py:372-407 | fixed plus skipped is the number of auto-fixable issues; manual review gets the rest |
| ValeFixer.NothingFixedNothingChanged | fix_vale_issues.py:372-407 | a pass with no success leaves the text unchanged, so nothing is written |
| ValeFixer.ValeIssueFixer.constructor | fix_vale_issues.py:99-105 | the fixer starts with no issues, no results and no issues for manual review |
| ValeFixer.ValeIssueFixer.ParseIssues | fix_vale_issues.py:149-171 | `parse_issues` updates the issue table as its specification says, and nothing else |
| ValeFixer.ValeIssueFixer.ApplyReplacement | fix_vale_issues.py:210-255 | on every input where Python does not raise, the method computes the replacement fix |
| ValeFixer.ValeIssueFixer.ApplyRegexEdit | fix_vale_issues.py:257-298 | the method computes the regex edit |
| ValeFixer.ValeIssueFixer.FixDoubleSpaces | fix_vale_issues.py:300-332 | the method computes the spacing fix |
| ValeFixer.ValeIssueFixer.FixUsing | fix_vale_issues.py:334-370 | the method computes the "using" fix |
| ValeFixer.ValeIssueFixer.FixIssue | fix_vale_issues.py:173-208 | on every text and issue where Python does not raise, the dispatch computes `fix_issue`'s outcome |
| ValeFixer.WellFormedNeverRaises | fix_vale_issues.py:243-245 | an issue whose match is non-empty and, when its first suggestion is empty, does not start with a letter never makes `fix_issue` raise, whatever the text |
| ValeFixer.LocatedLikeMatch | fix_vale_issues.py:228-241 | the located text is as long as the match and starts with an uppercase letter only if the match starts with a letter |
| ValeFixer.ValeIssueFixer.Attend | fix_vale_issues.py:372-407 | one round of the loop keeps the fixer's lists and counts in step with the pass |
| ValeFixer.ValeIssueFixer.FixInOrder | fix_vale_issues.py:372-407 | the loop gives the pass's text and counts, and appends its attempts and manual issues to the fixer |
| ValeFixer.ValeIssueFixer.FixFile | fix_vale_issues.py:372-407 | a missing file is reported and nothing changes; otherwise the counts add up, the lists grow by the pass, and a changed text is written unless in dry-run mode |
| ValeFixer.ValeIssueFixer.FixText | fix_vale_issues.py:372-407 | the same once the file has been read |
| Snippets.DollarBody | replace_shared_snippets.py:40-43 | what `.*...$` can cover: the name, or the name without a final line break; nothing if there is an earlier line break |
| Snippets.IsSnippetByName | replace_shared_snippets.py:58-60 | on a name without line breaks: a snippet name exactly when it starts with `snippet_` or `snippet-` and ends with `.adoc`, or ends with `_snippet.adoc` or `-snippet.adoc`, ignoring case |
| Snippets.SnippetNameFinalNewline | replace_shared_snippets.py:41-42 | a final line break does not change the verdict |
| Snippets.SnippetsDirJoin | replace_shared_snippets.py:74-76 | a joined path is in a snippets directory exactly when one of its halves is |
| Snippets.IsInSnippetsDir | replace_shared_snippets.py:74-76 | a single component is in a snippets directory exactly when it is `snippets` |
| Snippets.Level | replace_shared_snippets.py:224 | the level is the length of the run of `=` at the start |
| Snippets.AdjustLines | replace_shared_snippets.py:216-230 | each line is adjusted on its own, and the line count is kept |
| Snippets.AdjustLineLevel | replace_shared_snippets.py:223-230 | a heading moves by the offset and keeps its text |
| Snippets.AdjustLine | replace_shared_snippets.py:223-230 | lines that do not start with `=` are never touched, and no line break is introduced |
| Snippets.AdjustHeadingLevels | replace_shared_snippets.py:216-230 | with a non-zero offset, the lines of the result are the original lines, each adjusted on its own |
| Snippets.AdjustLineCompose | replace_shared_snippets.py:223-230 | shifting a line by a non-negative `a`, then by `b`, is shifting it by `a + b` |
| Snippets.AdjustCompose | replace_shared_snippets.py:216-230 | shifting a text by a non-negative `a`, then by `b`, is shifting it by `a + b` |
| Snippets.AdjustHeadingLines | replace_shared_snippets.py:216-230 | the shifted text has the same lines, each adjusted on its own |
| Snippets.HeaderAt | replace_shared_snippets.py:47-48 | a header match is non-empty and in the text |
| Snippets.SnippetCommentAt | replace_shared_snippets.py:49 | a `// snippet` match ends at a line end |
| Snippets.StripMarkers | replace_shared_snippets.py:207-210 | removing the markers never lengthens the text |
| Snippets.ReadSnippetContent | replace_shared_snippets.py:196-213 | the snippet's text is no longer than the file's, and has no surrounding whitespace |
| Snippets.NoMarkersOnlyTrimmed | replace_shared_snippets.py:196-213 | without markers at any line start, stripping the headers changes nothing |
| Snippets.NoMarkersKept | replace_shared_snippets.py:207-210 | without markers at any line start, the three substitutions give the text back |
| Snippets.HeaderAtShift | replace_shared_snippets.py:47-48 | a header pattern reads the text after a position alone: after any text, it matches as it does on its own, moved by the length of that text |
| Snippets.SnippetCommentAtShift | replace_shared_snippets.py:49 | the snippet comment pattern reads the text after a position alone in the same way |
| Snippets.NoMarkersAfter | replace_shared_snippets.py:47-49 | after whole lines, a text without markers has none at any of its line starts |
| Snippets.NewlineNoMarkers | replace_shared_snippets.py:47-49 | a line break before a text without markers adds no marker |
| Snippets.ModDocsLine | replace_shared_snippets.py:47 | the line `:_mod-docs-content-type: SNIPPET` matches the first pattern, up to the end of `SNIPPET` |
| Snippets.ContentTypeLine | replace_shared_snippets.py:47-48 | the line `:_content-type: SNIPPET` does not match the first pattern and matches the second, up to the end of `SNIPPET` |
| Snippets.CommentLine | replace_shared_snippets.py:47-49 | a `// snippet` line followed by text matches neither header pattern, and the comment pattern matches it up to its line break |
| Snippets.CommentOnlyMatch | replace_shared_snippets.py:47-49 | in the `// snippet` line alone, only the comment pattern matches, from the start to the end |
| Snippets.MarkersOnFirstLineOnly | replace_shared_snippets.py:47-49 | in a first line followed by a text without markers, no marker starts after the first line start |
| Snippets.ModDocsLineRemoved | replace_shared_snippets.py:207-210 | a first line the first pattern matches up to its line break is removed, leaving the line break and the body |
| Snippets.ContentTypeLineRemoved | replace_shared_snippets.py:207-210 | the same for a first line only the second pattern matches |
| Snippets.CommentLineRemoved | replace_shared_snippets.py:207-210 | the same for a first line only the comment pattern matches |
| Snippets.LineBreakTrimmed | replace_shared_snippets.py:213 | trimming drops the line break the removal leaves |
| Snippets.ModDocsHeaderRemoved | replace_shared_snippets.py:196-213 | a snippet of a `:_mod-docs-content-type: SNIPPET` line and a body without markers reads as the trimmed body |
| Snippets.ContentTypeHeaderRemoved | replace_shared_snippets.py:196-213 | the same for a `:_content-type: SNIPPET` first line |
| Snippets.SnippetCommentRemoved | replace_shared_snippets.py:196-213 | the same for a `// snippet` first line, when the body is empty or does not start with whitespace |
| Snippets.CommentOnlyLine | replace_shared_snippets.py:196-213 | a snippet that is only the `// snippet` line reads as empty |
| Snippets.CloseAfter | replace_shared_snippets.py:252 | the first `]` on the same line |
| Snippets.TargetAt | replace_shared_snippets.py:252 | the options lie after the name and end at a `]` |
| Snippets.IncludeAt | replace_shared_snippets.py:251-254 | a directive match has its options after `include::` and a closing `]` |
| Snippets.InlineSnippet | replace_shared_snippets.py:233-278 | the result reports a replacement exactly when the new text differs from the old, as `new_content != content` does; a text is left unchanged unless some line starts with a directive for the snippet |
| Snippets.DirectiveReplaced | replace_shared_snippets.py:251-267 | `include::<dir><name>[<opts>]<rest>` becomes the snippet's text, shifted as the options ask, followed by the rest |
| Snippets.InlineKeepsTextBefore | replace_shared_snippets.py:267 | the text before the first line that starts with a directive for the snippet is kept unchanged at the front of the result |
| Snippets.IncludeAtStart | replace_shared_snippets.py:251-254 | a laid-out directive is matched with its options between `[` and `]` |
| Snippets.InlineLeadingDirective | replace_shared_snippets.py:267 | a leading directive is replaced and the rest of its line kept |
| Snippets.InlineFrom | replace_shared_snippets.py:267 | with no directive for the snippet at a line start from the given position on, the substitution keeps the rest of the text |
| Snippets.LevelOffsetOf | replace_shared_snippets.py:259-261 | `leveloffset=N` and `leveloffset=+N` both give `N` |
| Snippets.NoLevelOffset | replace_shared_snippets.py:259-265 | options without `leveloffset=` leave the snippet unchanged |
| Snippets.LevelOffset | replace_shared_snippets.py:259-261 | the offset is the one read at the first position where `leveloffset=` and digits occur, and there is none exactly when no position gives one |
| Snippets.Replacement | replace_shared_snippets.py:256-265 | the replacement has the snippet's lines, those that are not headings unchanged; without a level offset it is the snippet itself |
| Snippets.IncludeLine | replace_shared_snippets.py:37 | an include line starts with `include::`, a non-empty `[`-free target and `[`, and its directive is a prefix of the line ending with `]` |
| Snippets.SnippetNames | replace_shared_snippets.py:144 | every name maps to a snippet of that name, and every snippet's name is a key |
| Snippets.SnippetNamesLast | replace_shared_snippets.py:144 | a name stands for the last snippet with that name |
| Snippets.SeenHas | replace_shared_snippets.py:168-170 | every `.adoc` file walked earlier is among those processed |
| Snippets.Usage | replace_shared_snippets.py:143 | the usage map has exactly one entry per snippet |
| Snippets.UsesOfMember | replace_shared_snippets.py:188 | a use is filed under a snippet exactly when a hit records it |
| Snippets.HitsMember | replace_shared_snippets.py:152-188 | a hit is found exactly when some line of a scanned file records it |
| Snippets.IncludeLineOf | replace_shared_snippets.py:37 | a line `include::T[O]...` with a non-empty `[`-free target and options without `]` or a line break is matched, with target `T` and the directive ending at the first `]` |
| Snippets.IncludedLineRecorded | replace_shared_snippets.py:176-187 | such a line of a scanned file, whose target's base name names a snippet, files that snippet a use with the file, the directive and the 1-based line number |
| Snippets.UsageIff | replace_shared_snippets.py:137-193 | a use is recorded for a snippet exactly when a line of a scanned, non-snippet file includes it |
| Snippets.RecordsFacts | replace_shared_snippets.py:164-188 | a recorded use names its non-snippet file, a 1-based line number and the directive that starts the line, whose target has the snippet's name |
| Snippets.ScannedOnce | replace_shared_snippets.py:165-170 | a resolved path is scanned at most once |
| Snippets.ScanLine | replace_shared_snippets.py:180-188 | one line extends the usage map by that line's hit |
| Snippets.ScanFile | replace_shared_snippets.py:176-188 | the inner loop extends the usage map by the file's hits |
| Snippets.Visit | replace_shared_snippets.py:160-188 | one walked file keeps the scan's state in step with its specification |
| Snippets.FindSnippetUsage | replace_shared_snippets.py:137-193 | the loops compute the usage map of the specification |
| Snippets.UsageFinal | replace_shared_snippets.py:137-193 | once the walk ends, the state is the usage map |

## Left out

- Running Vale, and the cache of its output (fix_vale_issues.py:107-144), are outside the model. Vale's JSON output is a parameter (`FileFindings`).
- `fix_all` (fix_vale_issues.py:409-434) is outside the model. It runs Vale, calls `parse_issues`, then calls `fix_file` for each file and prints progress, and each of those steps is modelled on its own. The reporting and printing (fix_vale_issues.py:436-529) are also outside.
- The texts of `FixResult` messages are modelled as kinds (`ValeFixer.Message`) rather than formatted strings.
- ValeFixer.WellFormed: `_apply_replacement` raises `IndexError` when the located text is empty, or when it starts with an uppercase letter and the first suggestion is empty (`ReplacementRaises`). A single replacement and `fix_issue` require exactly that this does not happen. The pass over a file cannot know the text each issue will meet, so it requires the stronger `WellFormed`, a condition on the issue alone, which `WellFormedNeverRaises` shows excludes the exception on every text. The exception itself is not modelled.
- ValeFixer.RegexEditFix: Python's `re.sub(..., count=1)` on an arbitrary pattern from Vale is a parameter (`RegexEngine`), so what the edit does to a line is not modelled beyond that engine.
- File reading and writing are not modelled. A file's text is a parameter (`Option` when it may be missing), and a write is a returned text. Dry-run mode suppresses the returned writes.
- Non-ASCII text is not modelled: `\w`, `\s`, `str.lower` and `str.upper` are modelled on ASCII only, with no Unicode case folding. `splitlines` is modelled for `\n` only.
- Directory walks (`os.walk`, `rglob`), `Path.resolve` and symbolic links are not modelled. The walk is a given sequence of files (`Snippets.WalkedFile`) carrying their resolved paths.
- Parts of replace_shared_snippets.py (79-134, 281-635) are not part of this model:
  - `is_snippet_by_content`;
  - `find_snippet_files`;
  - the broken-include check;
  - the command handlers;
  - logging;
  - file deletion.
- YAML loading is not modelled (scripts/cqa_jtbd_validate.py:60-67, scripts/jtbd_apply_mapping.py:46-51): the mapping is a `JtbdMapping.Job` sequence. The override table's data (scripts/cqa_fix_shortdesc.py:107-156) is a `map` parameter.
- The Prerequisites branch of `validate_module` (scripts/cqa_jtbd_validate.py:230-232) is left out, because it appends nothing.
- Other parts of the scripts are not modelled, because they are I/O and reporting:
  - the `main` loops of scripts/jtbd_apply_mapping.py (214-232);
  - the JSON and printed report of scripts/cqa_jtbd_validate.py (338-373);
  - its JTBD-only mode (321-326);
  - `rel_path`.
- CqaFixShortdesc.ShortenParagraph and JtbdApply.Clamp: `rsplit(maxsplit=1)[0]` raises `IndexError` when the cut prefix is all whitespace. The model requires a non-blank prefix instead (`JtbdApply.Clampable`, `JtbdApply.Fits`).
- CqaValidate.CountProcedureSteps: the count is tied to the numbered-step lines (`StepsCounted`) when every line is a `StepLine`. A `StepLine` is a numbered step, or a line at which the marker fails before the line ends. These are:
  - a line not starting with `.`;
  - `.` followed by a non-space, as in `.Procedure`;
  - `.` and whitespace followed by a non-digit, as in `. Open the file.`;
  - a number followed by something other than `.`;
  - a number and `.` followed by a non-space.
  The lines left out are those where the attempt reaches the line's end, so that `\s` reads on across the line break:
  - `.` alone or followed only by whitespace;
  - `. ` and digits alone;
  - `. 1.` followed by nothing or only by whitespace.

  There the pattern's count can depend on the next line, for example `. ` followed by `1. x`, and the model states only the length bound.
- CqaValidate.ParagraphEnd: only the bounds of the end offset are stated. Its relation to the lines is stated by `ParagraphLinesSpan` instead.
- CqaValidate.ContentTypeValueAt, CqaValidate.StepAt, CqaValidate.SelfRefAt, CqaValidate.ThisPhraseAt, CqaValidate.InThisPhraseAt, Snippets.HeaderAt and Snippets.TargetAt: these pattern matchers state only where a match lies. Their meaning is stated through lemmas about them and about the functions that use them:
  - `StepLineShape`, `PlainStepLine`, `RejectedStepExtend` and `StepsReadWithinLine` for `StepAt`;
  - `ModDocsLine`, `ContentTypeLine`, `HeaderAtShift` and the removal lemmas for `HeaderAt`;
  - `TargetAtDown`, `IncludeAtStart` and `DirectiveReplaced` for `TargetAt`.
- Snippets.InlineSnippet: a change implies that some line starts with a directive for the snippet. The converse is not stated, because a directive whose replacement equals its own text changes nothing.
- Snippets.ReadSnippetContent: the removal of a marker is stated for a marker on the first line followed by a body without markers (`ModDocsHeaderRemoved`, `ContentTypeHeaderRemoved`, `SnippetCommentRemoved`), and for text without markers (`NoMarkersOnlyTrimmed`). Several markers, or a marker after the first line, are covered only by the length bound and the trimming, because each such layout needs its own proof about the substitutions.
- Snippets.StripMarkers: its own contract states only the length bound. What it removes is stated by `ModDocsLineRemoved`, `ContentTypeLineRemoved`, `CommentLineRemoved` and `NoMarkersKept`, for the layouts above.
- Snippets.SnippetCommentRemoved: a body that starts with whitespace is not covered. There the comment pattern's trailing `\s*` reaches into the body and the match ends at its last line break. The trimmed result is the same, but the model does not state it.
