/** The JTBD mapping applier: the path tables built from the mapping, the
    choice of a job-focused short description, the provenance comment
    block, and the rewrites of an assembly and of a topic. */
module JtbdApply {
  import opened Text
  import opened AsciiDoc
  import opened JtbdMapping

  const ShortdescMin: nat := 50
  const ShortdescMax: nat := 300

  /** What marks an existing provenance block. */
  const JtbdBlockStart: string := "// JTBD job:"

  /** The clause of a job statement the third candidate is taken from. */
  const SoICan: string := " so I can "

  /** The clause the second length pass appends to a short candidate. */
  const PadClause: string := " See the section for steps and options."

  // ------------------------------------------------------------------
  // The path tables

  /** What the assembly table stores for a path: the job, and the
      reference's record (an empty record for a bare path). */
  datatype Binding = Binding(job: Job, entry: AssemblyRef)

  function Stored(a: AssemblyRef): (r: AssemblyRef)
    ensures FocusOf(r) == FocusOf(a)
  {
    if a.Entry? then a else Entry([], [])
  }

  /** The assembly table after binding the non-empty paths of `refs`, in
      order, to `job`. */
  function BindAssemblies(m: map<string, Binding>, job: Job, refs: seq<AssemblyRef>): map<string, Binding>
    decreases |refs|
  {
    if refs == [] then m
    else
      var a := refs[|refs| - 1];
      var m0 := BindAssemblies(m, job, refs[..|refs| - 1]);
      if a.path != [] then m0[a.path := Binding(job, Stored(a))] else m0
  }

  /** The topic table after binding every path of `topics`, in order, to `job`. */
  function BindTopics(m: map<string, Job>, job: Job, topics: seq<string>): map<string, Job>
    decreases |topics|
  {
    if topics == [] then m
    else BindTopics(m, job, topics[..|topics| - 1])[topics[|topics| - 1] := job]
  }

  /** The table `build_path_to_job` returns for assemblies: every non-empty
      assembly path of the mapping, and nothing else, is a key. */
  function AssemblyTable(jobs: seq<Job>): (r: map<string, Binding>)
    ensures r.Keys == AssemblyPaths(jobs)
    decreases |jobs|
  {
    if jobs == [] then map[]
    else
      var last := jobs[|jobs| - 1];
      var init := AssemblyTable(jobs[..|jobs| - 1]);
      BindAssembliesKeys(init, last, last.assemblies);
      BindAssemblies(init, last, last.assemblies)
  }

  /** The table `build_path_to_job` returns for topics: every topic path of
      the mapping, and nothing else, is a key. */
  function TopicTable(jobs: seq<Job>): (r: map<string, Job>)
    ensures r.Keys == TopicPaths(jobs)
    decreases |jobs|
  {
    if jobs == [] then map[]
    else
      var last := jobs[|jobs| - 1];
      var init := TopicTable(jobs[..|jobs| - 1]);
      BindTopicsKeys(init, last, last.topics);
      BindTopics(init, last, last.topics)
  }

  /** One pass of the inner loops: binds one job's assemblies and topics. */
  method BindJob(asm: map<string, Binding>, topics: map<string, Job>, job: Job)
    returns (asm': map<string, Binding>, topics': map<string, Job>)
    ensures asm' == BindAssemblies(asm, job, job.assemblies)
    ensures topics' == BindTopics(topics, job, job.topics)
  {
    asm' := asm;
    var k := 0;
    while k < |job.assemblies|
      invariant k <= |job.assemblies|
      invariant asm' == BindAssemblies(asm, job, job.assemblies[..k])
    {
      var a := job.assemblies[k];
      assert job.assemblies[..k + 1][..k] == job.assemblies[..k];
      if a.path != [] {
        asm' := asm'[a.path := Binding(job, Stored(a))];
      }
      k := k + 1;
    }
    assert job.assemblies[..k] == job.assemblies;
    topics' := topics;
    k := 0;
    while k < |job.topics|
      invariant k <= |job.topics|
      invariant topics' == BindTopics(topics, job, job.topics[..k])
    {
      assert job.topics[..k + 1][..k] == job.topics[..k];
      topics' := topics'[job.topics[k] := job];
      k := k + 1;
    }
    assert job.topics[..k] == job.topics;
  }

  /** `build_path_to_job`: fills both tables job by job. */
  method BuildPathToJob(jobs: seq<Job>) returns (asm: map<string, Binding>, topics: map<string, Job>)
    ensures asm == AssemblyTable(jobs) && topics == TopicTable(jobs)
  {
    asm, topics := map[], map[];
    var j := 0;
    while j < |jobs|
      invariant j <= |jobs|
      invariant asm == AssemblyTable(jobs[..j]) && topics == TopicTable(jobs[..j])
    {
      assert jobs[..j + 1][..j] == jobs[..j];
      asm, topics := BindJob(asm, topics, jobs[j]);
      j := j + 1;
    }
    assert jobs[..j] == jobs;
  }

  /** Binding adds exactly the non-empty paths of the references. */
  lemma {:induction false} BindAssembliesKeys(m: map<string, Binding>, job: Job, refs: seq<AssemblyRef>)
    ensures BindAssemblies(m, job, refs).Keys == m.Keys + AssemblyPathsOf(refs)
    decreases |refs|
  {
    if refs != [] {
      BindAssembliesKeys(m, job, refs[..|refs| - 1]);
    }
  }

  lemma {:induction false} BindTopicsKeys(m: map<string, Job>, job: Job, topics: seq<string>)
    ensures BindTopics(m, job, topics).Keys == m.Keys + ElementsOf(topics)
    decreases |topics|
  {
    if topics != [] {
      var init := topics[..|topics| - 1];
      BindTopicsKeys(m, job, init);
      assert ElementsOf(topics) == ElementsOf(init) + {topics[|topics| - 1]} by {
        forall t | t in ElementsOf(topics) ensures t in ElementsOf(init) + {topics[|topics| - 1]} {
          var k :| 0 <= k < |topics| && topics[k] == t;
          if k < |init| { assert init[k] == t; }
        }
        forall t | t in ElementsOf(init) ensures t in ElementsOf(topics) {
          var k :| 0 <= k < |init| && init[k] == t;
          assert topics[k] == t;
        }
      }
    }
  }

  /** Binding a job's references overwrites exactly their paths: such a path
      goes to the job with the record of the last reference naming it, and
      any other path keeps its old binding. */
  lemma {:induction false} BindAssembliesAt(m: map<string, Binding>, job: Job, refs: seq<AssemblyRef>, p: string)
    ensures p !in AssemblyPathsOf(refs) ==>
      (p in BindAssemblies(m, job, refs) <==> p in m) &&
      (p in m ==> BindAssemblies(m, job, refs)[p] == m[p])
    ensures p in AssemblyPathsOf(refs) ==>
      p in BindAssemblies(m, job, refs) && BindAssemblies(m, job, refs)[p].job == job &&
      exists k :: 0 <= k < |refs| && refs[k].path == p &&
        BindAssemblies(m, job, refs)[p].entry == Stored(refs[k]) &&
        forall k' :: k < k' < |refs| ==> refs[k'].path != p
    decreases |refs|
  {
    if refs != [] {
      var init := refs[..|refs| - 1];
      var a := refs[|refs| - 1];
      BindAssembliesAt(m, job, init, p);
      AssemblyPathsOfMembership(refs, p);
      if p in AssemblyPathsOf(refs) {
        if a.path == p {
          assert refs[|refs| - 1].path == p;
        } else {
          assert p in AssemblyPathsOf(init);
          var k :| 0 <= k < |init| && init[k].path == p &&
            BindAssemblies(m, job, init)[p].entry == Stored(init[k]) &&
            forall k' :: k < k' < |init| ==> init[k'].path != p;
          assert refs[k] == init[k];
          forall k' | k < k' < |refs| ensures refs[k'].path != p {
            if k' < |init| { assert refs[k'] == init[k']; }
          }
        }
      }
    }
  }

  /** A path bound by several jobs ends up with the last of them: when job
      `j` names `p` and no later job does, the table maps `p` to job `j`. */
  lemma {:induction false} AssemblyTableLastJob(jobs: seq<Job>, j: nat, p: string)
    requires j < |jobs| && p in AssemblyPathsOf(jobs[j].assemblies)
    requires forall j' :: j < j' < |jobs| ==> p !in AssemblyPathsOf(jobs[j'].assemblies)
    ensures p in AssemblyTable(jobs) && AssemblyTable(jobs)[p].job == jobs[j]
    decreases |jobs|
  {
    var init := jobs[..|jobs| - 1];
    var last := jobs[|jobs| - 1];
    BindAssembliesAt(AssemblyTable(init), last, last.assemblies, p);
    if j < |jobs| - 1 {
      assert init[j] == jobs[j];
      forall j' | j < j' < |init| ensures p !in AssemblyPathsOf(init[j'].assemblies) {
        assert init[j'] == jobs[j'];
      }
      AssemblyTableLastJob(init, j, p);
    }
  }

  lemma {:induction false} BindTopicsAt(m: map<string, Job>, job: Job, topics: seq<string>, p: string)
    ensures p in ElementsOf(topics) ==> p in BindTopics(m, job, topics) && BindTopics(m, job, topics)[p] == job
    ensures p !in ElementsOf(topics) ==>
      (p in BindTopics(m, job, topics) <==> p in m) &&
      (p in m ==> BindTopics(m, job, topics)[p] == m[p])
    decreases |topics|
  {
    if topics != [] {
      var init := topics[..|topics| - 1];
      BindTopicsAt(m, job, init, p);
      if p in ElementsOf(topics) && topics[|topics| - 1] != p {
        var k :| 0 <= k < |topics| && topics[k] == p;
        assert init[k] == p;
      }
      if p in ElementsOf(init) {
        var k :| 0 <= k < |init| && init[k] == p;
        assert topics[k] == p;
      }
    }
  }

  /** A topic listed under several jobs maps to the last of them. */
  lemma {:induction false} TopicTableLastJob(jobs: seq<Job>, j: nat, p: string)
    requires j < |jobs| && p in ElementsOf(jobs[j].topics)
    requires forall j' :: j < j' < |jobs| ==> p !in ElementsOf(jobs[j'].topics)
    ensures p in TopicTable(jobs) && TopicTable(jobs)[p] == jobs[j]
    decreases |jobs|
  {
    var init := jobs[..|jobs| - 1];
    var last := jobs[|jobs| - 1];
    BindTopicsAt(TopicTable(init), last, last.topics, p);
    if j < |jobs| - 1 {
      assert init[j] == jobs[j];
      forall j' | j < j' < |init| ensures p !in ElementsOf(init[j'].topics) {
        assert init[j'] == jobs[j'];
      }
      TopicTableLastJob(init, j, p);
    }
  }

  // ------------------------------------------------------------------
  // Choosing a short description

  /** `rsplit` below raises when the first 299 characters are all
      whitespace; a text is clampable when that cannot happen. */
  predicate Clampable(x: string) {
    |x| > ShortdescMax ==> !AllSpace(x[..ShortdescMax - 1])
  }

  /** Text over the maximum is cut to its first 299 characters, their last
      word is dropped and "." is appended. */
  function Clamp(x: string): (r: string)
    requires Clampable(x)
    ensures |r| <= ShortdescMax
    ensures |x| <= ShortdescMax ==> r == x
    ensures |x| > ShortdescMax ==> r != [] && r[|r| - 1] == '.'
    ensures |x| > ShortdescMax && !IsSpace(x[0]) ==> r[..|r| - 1] == x[..|r| - 1]
  {
    if |x| > ShortdescMax then
      var y := x[..ShortdescMax - 1];
      RSplitHeadLength(y);
      RSplitHeadPrefix(y);
      assert y[0] == x[0];
      RSplitHead(y) + "."
    else x
  }

  /** Text that starts with a non-space character is always clampable. */
  lemma ClampableFrom(x: string)
    requires x != [] && !IsSpace(x[0])
    ensures Clampable(x)
  {
    if |x| > ShortdescMax {
      assert x[..ShortdescMax - 1][0] == x[0];
    }
  }

  /** The trimmed `shortdesc_focus` of the reference. */
  function FocusText(entry: AssemblyRef): string {
    Strip(FocusOf(entry))
  }

  /** The first two outcomes joined by a space. */
  function OutcomesText(job: Job): string {
    Join(job.outcomes[..if |job.outcomes| < 2 then |job.outcomes| else 2], " ")
  }

  /** "So you can " and the text after the first " so I can " of the
      statement, trimmed and without trailing periods. */
  function StatementClause(statement: string): (r: string)
    requires Contains(statement, SoICan)
    ensures |r| >= 11 && r[..11] == "So you can "
  {
    var i := Find(statement, SoICan, 0).value;
    "So you can " + RStripChar(Strip(statement[i + |SoICan|..]), '.')
  }

  /** The combined outcomes, when the job has any. */
  function OutcomesOf(job: Job): Option<string> {
    if job.outcomes != [] then Some(OutcomesText(job)) else None
  }

  /** The statement clause, when the statement has " so I can ". */
  function ClauseOf(job: Job): Option<string> {
    if Contains(job.statement, SoICan) then Some(StatementClause(job.statement)) else None
  }

  /** The texts `job_shortdesc` tries, in its order of preference. */
  function Candidates(focus: string, outcomes: Option<string>, clause: Option<string>): seq<string> {
    (if focus != [] then [focus] else [])
    + (if outcomes.Some? then [outcomes.value] else [])
    + (if clause.Some? then [clause.value] else [])
  }

  function Sources(job: Job, entry: AssemblyRef): seq<string> {
    Candidates(FocusText(entry), OutcomesOf(job), ClauseOf(job))
  }

  /** Trying the sources in order raises nothing: each source reached is in
      the domain of `clamp`. */
  ghost predicate Fits(sources: seq<string>, clamp: string --> string)
    decreases |sources|
  {
    sources == [] ||
    (clamp.requires(sources[0]) && (|clamp(sources[0])| >= ShortdescMin || Fits(sources[1..], clamp)))
  }

  /** The first source whose clamped text is long enough, clamped: a
      reference for the order of preference. */
  function FirstFit(sources: seq<string>, clamp: string --> string): (r: Option<string>)
    requires Fits(sources, clamp)
    ensures r.Some? ==> |r.value| >= ShortdescMin
    decreases |sources|
  {
    if sources == [] then None
    else if |clamp(sources[0])| >= ShortdescMin then Some(clamp(sources[0]))
    else FirstFit(sources[1..], clamp)
  }

  /** The chosen text is the clamp of a source that is long enough, and every
      source before it is in the domain and too short once clamped; when
      nothing is chosen, every source is too short. */
  lemma {:induction false} FirstFitPrecedence(sources: seq<string>, clamp: string --> string)
    requires Fits(sources, clamp)
    ensures FirstFit(sources, clamp).Some? ==>
      exists k :: 0 <= k < |sources| && clamp.requires(sources[k]) && FirstFit(sources, clamp).value == clamp(sources[k]) &&
        forall j :: 0 <= j < k ==> clamp.requires(sources[j]) && |clamp(sources[j])| < ShortdescMin
    ensures FirstFit(sources, clamp).None? ==>
      forall k :: 0 <= k < |sources| ==> clamp.requires(sources[k]) && |clamp(sources[k])| < ShortdescMin
    decreases |sources|
  {
    if sources != [] && |clamp(sources[0])| < ShortdescMin {
      var rest := sources[1..];
      FirstFitPrecedence(rest, clamp);
      if FirstFit(rest, clamp).Some? {
        var k :| 0 <= k < |rest| && clamp.requires(rest[k]) && FirstFit(rest, clamp).value == clamp(rest[k]) &&
          forall j :: 0 <= j < k ==> clamp.requires(rest[j]) && |clamp(rest[j])| < ShortdescMin;
        assert sources[k + 1] == rest[k];
        forall j | 0 <= j < k + 1 ensures clamp.requires(sources[j]) && |clamp(sources[j])| < ShortdescMin {
          if j > 0 { assert sources[j] == rest[j - 1]; }
        }
      } else {
        forall k | 0 <= k < |sources| ensures clamp.requires(sources[k]) && |clamp(sources[k])| < ShortdescMin {
          if k > 0 { assert sources[k] == rest[k - 1]; }
        }
      }
    }
  }

  /** Trying a source and then the rest. */
  lemma FitsCons(x: string, rest: seq<string>, clamp: string --> string)
    ensures Fits([x] + rest, clamp) <==> clamp.requires(x) && (|clamp(x)| >= ShortdescMin || Fits(rest, clamp))
    ensures Fits([x] + rest, clamp) ==>
      FirstFit([x] + rest, clamp) == if |clamp(x)| >= ShortdescMin then Some(clamp(x)) else FirstFit(rest, clamp)
  {
    assert ([x] + rest)[0] == x;
    assert ([x] + rest)[1..] == rest;
  }

  /** The chain of tests in `job_shortdesc`: the focus, then the outcomes,
      then the statement clause, the first whose clamped text has at least
      50 characters winning. */
  function Choose(focus: string, outcomes: Option<string>, clause: Option<string>): (r: Option<string>)
    requires Fits(Candidates(focus, outcomes, clause), Clamp)
    ensures r.Some? ==> ShortdescMin <= |r.value| <= ShortdescMax
  {
    ChooseDefined(focus, outcomes, clause);
    if focus != [] && |Clamp(focus)| >= ShortdescMin then Some(Clamp(focus))
    else if outcomes.Some? && |Clamp(outcomes.value)| >= ShortdescMin then Some(Clamp(outcomes.value))
    else if clause.Some? && |Clamp(clause.value)| >= ShortdescMin then Some(Clamp(clause.value))
    else None
  }

  /** Each test the chain reaches is on a clampable text. */
  lemma ChooseDefined(focus: string, outcomes: Option<string>, clause: Option<string>)
    requires Fits(Candidates(focus, outcomes, clause), Clamp)
    ensures focus != [] ==> Clampable(focus)
    ensures (focus == [] || |Clamp(focus)| < ShortdescMin) && outcomes.Some? ==> Clampable(outcomes.value)
    ensures clause.Some? && (focus == [] || |Clamp(focus)| < ShortdescMin) && (outcomes.None? || |Clamp(outcomes.value)| < ShortdescMin) ==> Clampable(clause.value)
  {
    ChoosePrecedence(focus, outcomes, clause);
  }

  /** The chain agrees with the reference: it picks the first candidate
      whose clamped text is long enough. */
  lemma ChoosePrecedence(focus: string, outcomes: Option<string>, clause: Option<string>)
    requires Fits(Candidates(focus, outcomes, clause), Clamp)
    ensures focus != [] ==> Clampable(focus)
    ensures (focus == [] || |Clamp(focus)| < ShortdescMin) && outcomes.Some? ==> Clampable(outcomes.value)
    ensures clause.Some? && (focus == [] || |Clamp(focus)| < ShortdescMin) && (outcomes.None? || |Clamp(outcomes.value)| < ShortdescMin) ==> Clampable(clause.value)
    ensures FirstFit(Candidates(focus, outcomes, clause), Clamp) ==
      if focus != [] && |Clamp(focus)| >= ShortdescMin then Some(Clamp(focus))
      else if outcomes.Some? && |Clamp(outcomes.value)| >= ShortdescMin then Some(Clamp(outcomes.value))
      else if clause.Some? && |Clamp(clause.value)| >= ShortdescMin then Some(Clamp(clause.value))
      else None
  {
    var first := if focus != [] then Some(focus) else None;
    assert Candidates(focus, outcomes, clause) == Listed(first) + Listed(outcomes) + Listed(clause);
    FirstFitOfThree(first, outcomes, clause, Clamp);
  }

  function Listed(o: Option<string>): seq<string> {
    if o.Some? then [o.value] else []
  }

  /** The first fit among up to three texts, tried in order. */
  lemma FirstFitOfThree(a: Option<string>, b: Option<string>, c: Option<string>, clamp: string --> string)
    requires Fits(Listed(a) + Listed(b) + Listed(c), clamp)
    ensures a.Some? ==> clamp.requires(a.value)
    ensures (a.None? || |clamp(a.value)| < ShortdescMin) && b.Some? ==> clamp.requires(b.value)
    ensures c.Some? && (a.None? || |clamp(a.value)| < ShortdescMin) && (b.None? || |clamp(b.value)| < ShortdescMin) ==> clamp.requires(c.value)
    ensures FirstFit(Listed(a) + Listed(b) + Listed(c), clamp) ==
      if a.Some? && |clamp(a.value)| >= ShortdescMin then Some(clamp(a.value))
      else if b.Some? && |clamp(b.value)| >= ShortdescMin then Some(clamp(b.value))
      else if c.Some? && |clamp(c.value)| >= ShortdescMin then Some(clamp(c.value))
      else None
  {
    var cs := Listed(c);
    if c.Some? {
      FitsCons(c.value, [], clamp);
      assert cs == [c.value] + [];
    }
    var bs := Listed(b) + cs;
    if b.Some? {
      FitsCons(b.value, cs, clamp);
    } else {
      assert bs == cs;
    }
    var all := Listed(a) + Listed(b) + cs;
    assert all == Listed(a) + bs;
    if a.Some? {
      FitsCons(a.value, bs, clamp);
    } else {
      assert all == bs;
    }
  }

  /** `job_shortdesc`.  The existing paragraph is passed in and not looked at. */
  function JobShortdesc(job: Job, entry: AssemblyRef, existing: Option<string>): (r: Option<string>)
    requires Fits(Sources(job, entry), Clamp)
    ensures r.Some? ==> ShortdescMin <= |r.value| <= ShortdescMax
  {
    Choose(FocusText(entry), OutcomesOf(job), ClauseOf(job))
  }

  /** `job_shortdesc` picks the first of focus, outcomes and statement
      clause whose clamped text is long enough, whatever the existing
      paragraph is. */
  lemma JobShortdescPrecedence(job: Job, entry: AssemblyRef, existing: Option<string>)
    requires Fits(Sources(job, entry), Clamp)
    ensures JobShortdesc(job, entry, existing) == FirstFit(Sources(job, entry), Clamp)
  {
    ChoosePrecedence(FocusText(entry), OutcomesOf(job), ClauseOf(job));
  }

  /** The second length pass of `update_assembly`: a long text is clamped
      again and a short one padded with a fixed clause.  A text already
      within bounds is left alone, and a result is never over the maximum. */
  function Reclamp(s: Option<string>): (r: Option<string>)
    requires s.Some? ==> Clampable(s.value)
    ensures s.None? <==> r.None?
    ensures r.Some? ==> |r.value| <= ShortdescMax
    ensures s.Some? && ShortdescMin <= |s.value| <= ShortdescMax ==> r == s
  {
    match s
    case None => None
    case Some(x) =>
      var y := if x != [] && |x| > ShortdescMax then Clamp(x) else x;
      Some(if y != [] && |y| < ShortdescMin then Take(y + PadClause, ShortdescMax) else y)
  }

  // ------------------------------------------------------------------
  // Locating the paragraph after the marker

  /** The pattern `\n\s*\n` read plainly: a newline, then a line holding
      only whitespace. */
  predicate ClosesAt(s: string, e: nat) {
    e < |s| && s[e] == '\n' &&
    exists m :: e < m < |s| && s[m] == '\n' && AllSpace(s[e + 1..m])
  }

  /** The same pattern matched as `re` does: a newline, a greedy whitespace
      run, and a newline it gives back. */
  function CloseAt(s: string, e: nat): (r: Option<nat>)
    ensures r.Some? <==> ClosesAt(s, e)
  {
    if e < |s| && s[e] == '\n' then
      var j := SkipSpaces(s, e + 1);
      match LastWhere(s, e + 1, j, IsNewline)
      case Some(m) =>
        AllSpaceBetween(s, e + 1, m);
        Some(m)
      case None =>
        NoCloseInRun(s, e, j);
        None
    else None
  }

  lemma NoCloseInRun(s: string, e: nat, j: nat)
    requires e < |s| && j == SkipSpaces(s, e + 1)
    requires forall k :: e + 1 <= k < j ==> s[k] != '\n'
    ensures !exists m :: e < m < |s| && s[m] == '\n' && AllSpace(s[e + 1..m])
  {
    forall m | e < m < |s| && s[m] == '\n' ensures !AllSpace(s[e + 1..m]) {
      if j < m {
        assert s[e + 1..m][j - (e + 1)] == s[j];
      }
    }
  }

  /** Tries the newlines of the run `[a, hi)` from the last one down, as
      backtracking does: the group starts after the newline and ends at the
      first closing after it. */
  function TryNewlines(s: string, a: nat, hi: nat): (r: Option<(nat, nat)>)
    requires a <= hi <= |s|
    ensures r.Some? ==> a < r.value.0 <= hi && r.value.0 <= r.value.1 < |s| && s[r.value.0 - 1] == '\n'
    decreases hi - a
  {
    match LastWhere(s, a, hi, IsNewline)
    case None => None
    case Some(k) =>
      match FirstMatch(s, k + 1, CloseAt, false)
      case Some(m) => Some((k + 1, m.0))
      case None => TryNewlines(s, a, k)
  }

  /** What the backtracking finds: the group ends at the first closing after
      its start (the lazy group), and no later newline of the run is followed
      by any closing (the greedy run); when nothing is found, no newline of
      the run is followed by a closing. */
  lemma {:induction false} TryNewlinesSpec(s: string, a: nat, hi: nat)
    requires a <= hi <= |s|
    ensures TryNewlines(s, a, hi).Some? ==>
      var g := TryNewlines(s, a, hi).value;
      ClosesAt(s, g.1) && (forall e :: g.0 <= e < g.1 ==> !ClosesAt(s, e)) &&
      forall k, e :: g.0 <= k < hi && s[k] == '\n' && k < e < |s| ==> !ClosesAt(s, e)
    ensures TryNewlines(s, a, hi).None? ==>
      forall k, e :: a <= k < hi && s[k] == '\n' && k < e < |s| ==> !ClosesAt(s, e)
    decreases hi - a
  {
    match LastWhere(s, a, hi, IsNewline)
    case None =>
    case Some(k) =>
      var f := FirstMatch(s, k + 1, CloseAt, false);
      if f.None? {
        TryNewlinesSpec(s, a, k);
        assert forall e :: k < e < |s| ==> !ClosesAt(s, e) by {
          forall e | k < e < |s| ensures !ClosesAt(s, e) { assert CloseAt(s, e).None?; }
        }
      } else {
        forall e | k + 1 <= e < f.value.0 ensures !ClosesAt(s, e) { assert CloseAt(s, e).None?; }
        assert CloseAt(s, f.value.0).Some?;
      }
  }

  /** The lazy pattern `[role="_abstract"]\s*\n(.*?)\n\s*\n` tried at `p`:
      the start and end of the group. */
  function ParagraphMatchAt(s: string, p: nat): (r: Option<(nat, nat)>)
    ensures r.Some? ==> OccursAt(s, RoleAbstract, p)
    ensures r.Some? ==> p + |RoleAbstract| < r.value.0 <= r.value.1 < |s| && s[r.value.0 - 1] == '\n'
    ensures r.Some? ==> AllSpace(s[p + |RoleAbstract|..r.value.0])
  {
    if !OccursAt(s, RoleAbstract, p) then None
    else
      var a := p + |RoleAbstract|;
      var j := SkipSpaces(s, a);
      var r := TryNewlines(s, a, j);
      if r.Some? then
        AllSpaceBetween(s, a, r.value.0);
        r
      else r
  }

  /** At a marker, the group found is closed by the first whitespace-only
      line after it; no group is found when no newline of the whitespace
      after the marker is followed by a closing. */
  lemma ParagraphMatchSpec(s: string, p: nat)
    ensures ParagraphMatchAt(s, p).Some? ==>
      var g := ParagraphMatchAt(s, p).value;
      ClosesAt(s, g.1) && forall e :: g.0 <= e < g.1 ==> !ClosesAt(s, e)
    ensures OccursAt(s, RoleAbstract, p) && ParagraphMatchAt(s, p).None? ==>
      forall k, e :: p + |RoleAbstract| <= k < SkipSpaces(s, p + |RoleAbstract|) && s[k] == '\n' && k < e < |s| ==>
        !ClosesAt(s, e)
  {
    if OccursAt(s, RoleAbstract, p) {
      var a := p + |RoleAbstract|;
      TryNewlinesSpec(s, a, SkipSpaces(s, a));
    }
  }

  datatype Paragraph = NotFound | Found(para: string, start: nat, end: nat)

  /** A group with its newlines turned into spaces, trimmed. */
  function Flatten(group: string): (r: string)
    ensures '\n' !in r && |r| <= |group|
    ensures r == [] <==> AllSpace(group)
  {
    ReplaceNewlines(group);
    ReplaceNewlinesSpaces(group);
    StripNoNewline(Replace(group, "\n", " "));
    StripEmpty(Replace(group, "\n", " "));
    Strip(Replace(group, "\n", " "))
  }

  /** `first_paragraph_after_abstract`: the group of the first match,
      flattened, and where it lies. */
  function FirstParagraph(content: string): (r: Paragraph)
    ensures r.NotFound? <==> forall p: nat :: p <= |content| ==> ParagraphMatchAt(content, p).None?
    ensures r.Found? ==> 0 < r.start <= r.end < |content| && content[r.start - 1] == '\n'
    ensures r.Found? ==> '\n' !in r.para && |r.para| <= r.end - r.start
    ensures r.Found? ==> (r.para == [] <==> AllSpace(content[r.start..r.end]))
  {
    match FirstMatch(content, 0, ParagraphMatchAt, false)
    case None => NotFound
    case Some((_, span)) => Found(Flatten(content[span.0..span.1]), span.0, span.1)
  }

  /** The paragraph found is closed by a whitespace-only line, and by the
      first one after its start. */
  lemma FirstParagraphCloses(content: string)
    ensures FirstParagraph(content).Found? ==>
      var r := FirstParagraph(content);
      ClosesAt(content, r.end) && forall e :: r.start <= e < r.end ==> !ClosesAt(content, e)
  {
    match FirstMatch(content, 0, ParagraphMatchAt, false)
    case None =>
    case Some((p, span)) => ParagraphMatchSpec(content, p);
  }

  /** Without a whitespace-only line anywhere after a newline, no paragraph
      is found: unlike the other locators, the end of the text does not close
      a paragraph. */
  lemma NeedsBlankLine(content: string)
    requires forall e :: 0 <= e < |content| ==> !ClosesAt(content, e)
    ensures FirstParagraph(content).NotFound?
  {
    forall p: nat | p <= |content| ensures ParagraphMatchAt(content, p).None? {
      ParagraphMatchSpec(content, p);
    }
  }

  // ------------------------------------------------------------------
  // The provenance comment block

  function Tag(id: string): string {
    "// JTBD job: " + id
  }

  function Block(job: Job): (r: string)
    ensures |r| > |Tag(job.id)| && r[..|Tag(job.id)|] == Tag(job.id)
  {
    Tag(job.id) + "\n// Statement: " + job.statement + "\n// Persona: " + job.persona + "\n"
  }

  /** The test `ensure_jtbd_comment_block` starts with. */
  predicate HasBlock(content: string, job: Job) {
    Contains(content, JtbdBlockStart) && Contains(content, Tag(job.id))
  }

  /** The job's tag begins with the block marker, so the first test of
      `ensure_jtbd_comment_block` is implied by the second: a text has the
      block exactly when it contains the job's tag. */
  lemma HasBlockIff(content: string, job: Job)
    ensures HasBlock(content, job) <==> Contains(content, Tag(job.id))
  {
    var t := Tag(job.id);
    var at := Find(content, t, 0);
    if at.Some? {
      var i := at.value;
      assert content[i..i + |JtbdBlockStart|] == content[i..i + |t|][..|JtbdBlockStart|];
      ContainsAt(content, JtbdBlockStart, i);
    }
  }

  /** `^:_(?:mod-docs-)?content-type:.*$` (multi-line mode) at `p`: where
      the line ends. */
  function ContentTypeLineAt(s: string, p: nat): (r: Option<nat>)
    ensures r.Some? ==> p <= r.value <= |s| && (r.value == |s| || s[r.value] == '\n')
    ensures r.Some? <==> OccursAt(s, ":_content-type:", p) || OccursAt(s, ":_mod-docs-content-type:", p)
  {
    if OccursAt(s, ":_content-type:", p) || OccursAt(s, ":_mod-docs-content-type:", p) then
      Some(LineEnd(s, p))
    else None
  }

  /** Where the block goes: the end of the first content-type line. */
  function InsertPos(content: string): (r: Option<nat>)
    ensures r.Some? ==> r.value <= |content|
    ensures r.None? <==> forall p: nat :: IsLineStart(content, p) ==> ContentTypeLineAt(content, p).None?
  {
    match FirstMatch(content, 0, ContentTypeLineAt, true)
    case None => None
    case Some((_, e)) => Some(e)
  }

  /** `ensure_jtbd_comment_block`: the three-line block is inserted once,
      on a line of its own after the first content-type line, or at the top
      followed by a newline; a text that already has the job's block is
      returned as it is. */
  function EnsureJtbdCommentBlock(content: string, job: Job): (r: string)
    ensures HasBlock(content, job) ==> r == content
    ensures !HasBlock(content, job) ==> |r| == |content| + |Block(job)| + 1
    ensures !HasBlock(content, job) && InsertPos(content).Some? ==>
      var ip := InsertPos(content).value;
      r[..ip] == content[..ip] && r[ip] == '\n' && r[ip + 1..ip + 1 + |Block(job)|] == Block(job) &&
      r[ip + 1 + |Block(job)|..] == content[ip..]
    ensures !HasBlock(content, job) && InsertPos(content).None? ==>
      r[..|Block(job)|] == Block(job) && r[|Block(job)|] == '\n' && r[|Block(job)| + 1..] == content
  {
    if HasBlock(content, job) then content
    else
      match InsertPos(content)
      case Some(ip) => content[..ip] + "\n" + Block(job) + content[ip..]
      case None => Block(job) + "\n" + content
  }

  /** After the block is ensured, the text has it. */
  lemma EnsuredHasBlock(content: string, job: Job)
    ensures HasBlock(EnsureJtbdCommentBlock(content, job), job)
  {
    var r := EnsureJtbdCommentBlock(content, job);
    var b := Block(job);
    var t := Tag(job.id);
    if !HasBlock(content, job) {
      var at := match InsertPos(content) case Some(ip) => ip + 1 case None => 0;
      assert r[at..at + |b|] == b;
      assert r[at..at + |t|] == t by {
        assert r[at..at + |t|] == r[at..at + |b|][..|t|];
      }
      assert r[at..at + |JtbdBlockStart|] == JtbdBlockStart by {
        assert r[at..at + |JtbdBlockStart|] == r[at..at + |t|][..|JtbdBlockStart|];
      }
      ContainsAt(r, t, at);
      ContainsAt(r, JtbdBlockStart, at);
    }
  }

  /** Ensuring the block twice is ensuring it once. */
  lemma EnsureIdempotent(content: string, job: Job)
    ensures EnsureJtbdCommentBlock(EnsureJtbdCommentBlock(content, job), job) == EnsureJtbdCommentBlock(content, job)
  {
    EnsuredHasBlock(content, job);
  }

  // ------------------------------------------------------------------
  // Rewriting an assembly and a topic

  /** The short description `update_assembly` settles on: the second
      length pass keeps the choice of `job_shortdesc`, the first candidate
      whose clamped text is long enough. */
  function NewShortdesc(content: string, job: Job, entry: AssemblyRef): (r: Option<string>)
    requires Fits(Sources(job, entry), Clamp)
    ensures r == FirstFit(Sources(job, entry), Clamp)
    ensures r.Some? ==> ShortdescMin <= |r.value| <= ShortdescMax
  {
    var loc := FirstParagraph(content);
    var existing := if loc.Found? then Some(loc.para) else None;
    var chosen := JobShortdesc(job, entry, existing);
    JobShortdescPrecedence(job, entry, existing);
    ReclampKeeps(chosen);
    Reclamp(chosen)
  }

  /** A text already within bounds, or no text, passes the second pass
      unchanged. */
  lemma ReclampKeeps(s: Option<string>)
    requires s.Some? ==> ShortdescMin <= |s.value| <= ShortdescMax
    ensures s.Some? ==> Clampable(s.value)
    ensures Reclamp(s) == s
  {
  }

  /** The paragraph is replaced: there is a candidate, a paragraph was
      found, and they differ. */
  predicate Replaced(content: string, job: Job, entry: AssemblyRef)
    requires Fits(Sources(job, entry), Clamp)
  {
    var cand := NewShortdesc(content, job, entry);
    var loc := FirstParagraph(content);
    cand.Some? && cand.value != [] && loc.Found? && loc.para != cand.value
  }

  /** The splice of `update_assembly`, with offsets found in `content`
      applied to the text with the block.  When the block was already there
      the paragraph is replaced exactly; when it was just inserted before the
      paragraph, the text after the new paragraph resumes as many characters
      before the old paragraph's end as the block added. */
  function StaleSplice(content: string, job: Job, start: nat, end: nat, cand: string): (r: string)
    requires start <= end <= |content|
    ensures end <= |EnsureJtbdCommentBlock(content, job)|
    ensures |r| == |EnsureJtbdCommentBlock(content, job)| - (end - start) + |cand|
    ensures HasBlock(content, job) ==>
      r[..start] == content[..start] && r[start..start + |cand|] == cand && r[start + |cand|..] == content[end..]
    ensures !HasBlock(content, job) ==>
      var d := |Block(job)| + 1;
      var ip := if InsertPos(content).Some? then InsertPos(content).value else 0;
      ip + d <= start ==> end >= d && r[start + |cand|..] == content[end - d..]
  {
    var e := EnsureJtbdCommentBlock(content, job);
    BlockShift(content, job, end);
    assert (e[..start] + cand + e[end..])[start + |cand|..] == e[end..];
    e[..start] + cand + e[end..]
  }

  /** Past the inserted block, the text with the block is the old text
      shifted by the block's length and its newline. */
  lemma BlockShift(content: string, job: Job, end: nat)
    requires end <= |content|
    ensures !HasBlock(content, job) ==>
      var d := |Block(job)| + 1;
      var ip := if InsertPos(content).Some? then InsertPos(content).value else 0;
      ip + d <= end ==> EnsureJtbdCommentBlock(content, job)[end..] == content[end - d..]
  {
    var e := EnsureJtbdCommentBlock(content, job);
    if !HasBlock(content, job) {
      var d := |Block(job)| + 1;
      var ip := if InsertPos(content).Some? then InsertPos(content).value else 0;
      if ip + d <= end {
        assert e[ip + d..] == content[ip..];
        assert e[end..] == e[ip + d..][end - (ip + d)..];
      }
    }
  }

  /** `update_assembly` on the text of the file: the block is ensured, then
      the paragraph is replaced using the offsets found in the text as it was
      read, before the block went in. */
  method UpdateAssembly(content: string, job: Job, entry: AssemblyRef) returns (result: string, modified: bool)
    requires Fits(Sources(job, entry), Clamp)
    ensures modified <==> !HasBlock(content, job) || Replaced(content, job, entry)
    ensures !Replaced(content, job, entry) ==> result == EnsureJtbdCommentBlock(content, job)
    ensures Replaced(content, job, entry) ==>
      result == StaleSplice(content, job, FirstParagraph(content).start, FirstParagraph(content).end,
                            NewShortdesc(content, job, entry).value)
  {
    var loc := FirstParagraph(content);
    var cand := NewShortdesc(content, job, entry);
    modified := false;
    result := content;
    var withBlock := EnsureJtbdCommentBlock(result, job);
    if withBlock != result {
      result := withBlock;
      modified := true;
    }
    assert HasBlock(content, job) <==> withBlock == content;
    if cand.Some? && cand.value != [] && loc.Found? && loc.para != cand.value {
      result := StaleSplice(content, job, loc.start, loc.end, cand.value);
      modified := true;
    }
  }

  function TopicComment(id: string): string {
    "\n// JTBD job: " + id + "\n"
  }

  /** The text `add_topic_jtbd_comment` looks for: the stripped comment. */
  function TopicTag(id: string): (r: string)
    ensures 1 + |r| <= |TopicComment(id)| && TopicComment(id)[1..1 + |r|] == r
  {
    var c := TopicComment(id);
    assert LStrip(c[1..]) == c[1..] by { assert c[1..][0] == '/'; }
    Strip(c)
  }

  /** `add_topic_jtbd_comment` on the text of the topic: `None` when the
      comment is there already; otherwise the text without its trailing
      newlines, followed by the comment on a line of its own. */
  function AddTopicJtbdComment(content: string, id: string): (r: Option<string>)
    ensures r.None? <==> Contains(content, TopicTag(id))
    ensures r.Some? ==> |r.value| >= |TopicComment(id)| && r.value[|r.value| - |TopicComment(id)|..] == TopicComment(id)
    ensures r.Some? ==> var kept := r.value[..|r.value| - |TopicComment(id)|];
      |kept| <= |content| && kept == content[..|kept|] && (kept == [] || kept[|kept| - 1] != '\n') &&
      forall i :: |kept| <= i < |content| ==> content[i] == '\n'
  {
    if Contains(content, TopicTag(id)) then None
    else
      var kept := RStripChar(content, '\n');
      assert (kept + TopicComment(id))[..|kept|] == kept;
      Some(kept + TopicComment(id))
  }

  /** Adding the topic comment a second time changes nothing. */
  lemma TopicCommentIdempotent(content: string, id: string)
    requires AddTopicJtbdComment(content, id).Some?
    ensures AddTopicJtbdComment(AddTopicJtbdComment(content, id).value, id).None?
  {
    var r := AddTopicJtbdComment(content, id).value;
    EndsWithComment(r, id);
  }

  /** A text ending with the comment contains what the transform looks for. */
  lemma EndsWithComment(r: string, id: string)
    requires |r| >= |TopicComment(id)| && r[|r| - |TopicComment(id)|..] == TopicComment(id)
    ensures Contains(r, TopicTag(id))
  {
    var c := TopicComment(id);
    var t := TopicTag(id);
    var off := |r| - |c|;
    var u := r[off..];
    assert u[1..1 + |t|] == t;
    assert r[off + 1..off + 1 + |t|] == u[1..1 + |t|];
    assert OccursAt(r, t, off + 1);
    ContainsAt(r, t, off + 1);
  }
}
