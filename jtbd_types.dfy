/** The jobs-to-be-done mapping as the YAML loader hands it to the tools:
    a list of jobs, each naming the assemblies and topics it covers. */
module JtbdMapping {

  /** An entry of a job's `assemblies` list: either a bare path string, or a
      record with a `path` and an optional `shortdesc_focus` (the empty string
      when the key is absent; a record without `path` has the empty path). */
  datatype AssemblyRef =
    | Bare(path: string)
    | Entry(path: string, shortdescFocus: string)

  datatype Job = Job(
    id: string,
    statement: string,
    persona: string,
    outcomes: seq<string>,
    assemblies: seq<AssemblyRef>,
    topics: seq<string>)

  /** What `item.get("shortdesc_focus", "")` yields for the stored item: a
      bare path is stored as an empty record, so its focus is empty. */
  function FocusOf(a: AssemblyRef): string {
    if a.Entry? then a.shortdescFocus else ""
  }

  /** The non-empty assembly paths of a list of references, collected in
      list order (the shape of the tools' loops). */
  function AssemblyPathsOf(refs: seq<AssemblyRef>): set<string>
    decreases |refs|
  {
    if refs == [] then {}
    else
      var a := refs[|refs| - 1];
      AssemblyPathsOf(refs[..|refs| - 1]) + (if a.path != [] then {a.path} else {})
  }

  /** The non-empty assembly paths named by any job. */
  function AssemblyPaths(jobs: seq<Job>): set<string>
    decreases |jobs|
  {
    if jobs == [] then {}
    else AssemblyPaths(jobs[..|jobs| - 1]) + AssemblyPathsOf(jobs[|jobs| - 1].assemblies)
  }

  /** The topic paths named by any job (empty ones included). */
  function TopicPaths(jobs: seq<Job>): set<string>
    decreases |jobs|
  {
    if jobs == [] then {}
    else TopicPaths(jobs[..|jobs| - 1]) + ElementsOf(jobs[|jobs| - 1].topics)
  }

  function ElementsOf(s: seq<string>): set<string> {
    set k | 0 <= k < |s| :: s[k]
  }

  /** A path is collected from a reference list exactly when some reference
      carries it and it is not empty. */
  lemma {:induction false} AssemblyPathsOfMembership(refs: seq<AssemblyRef>, p: string)
    ensures p in AssemblyPathsOf(refs) <==>
      p != [] && exists k :: 0 <= k < |refs| && refs[k].path == p
    decreases |refs|
  {
    if refs != [] {
      var init := refs[..|refs| - 1];
      AssemblyPathsOfMembership(init, p);
      if p != [] && (exists k :: 0 <= k < |init| && init[k].path == p) {
        var k :| 0 <= k < |init| && init[k].path == p;
        assert refs[k].path == p;
      }
      if exists k :: 0 <= k < |refs| && refs[k].path == p {
        var k :| 0 <= k < |refs| && refs[k].path == p;
        if k < |init| { assert init[k].path == p; }
      }
    }
  }

  /** A path is an assembly path of the mapping exactly when some job lists
      it and it is not empty. */
  lemma {:induction false} AssemblyPathsMembership(jobs: seq<Job>, p: string)
    ensures p in AssemblyPaths(jobs) <==>
      p != [] && exists j, k :: 0 <= j < |jobs| && 0 <= k < |jobs[j].assemblies| &&
                               jobs[j].assemblies[k].path == p
    decreases |jobs|
  {
    if jobs != [] {
      var init := jobs[..|jobs| - 1];
      var last := jobs[|jobs| - 1];
      AssemblyPathsMembership(init, p);
      AssemblyPathsOfMembership(last.assemblies, p);
      if p in AssemblyPaths(jobs) {
        if p in AssemblyPaths(init) {
          var j, k :| 0 <= j < |init| && 0 <= k < |init[j].assemblies| && init[j].assemblies[k].path == p;
          assert jobs[j] == init[j];
        } else {
          var k :| 0 <= k < |last.assemblies| && last.assemblies[k].path == p;
          assert jobs[|jobs| - 1].assemblies[k].path == p;
        }
      }
      if p != [] && exists j, k :: 0 <= j < |jobs| && 0 <= k < |jobs[j].assemblies| &&
                                  jobs[j].assemblies[k].path == p {
        var j, k :| 0 <= j < |jobs| && 0 <= k < |jobs[j].assemblies| && jobs[j].assemblies[k].path == p;
        if j < |init| {
          assert init[j] == jobs[j];
        }
      }
    }
  }

  /** A path is a topic path of the mapping exactly when some job lists it. */
  lemma {:induction false} TopicPathsMembership(jobs: seq<Job>, p: string)
    ensures p in TopicPaths(jobs) <==>
      exists j, k :: 0 <= j < |jobs| && 0 <= k < |jobs[j].topics| && jobs[j].topics[k] == p
    decreases |jobs|
  {
    if jobs != [] {
      var init := jobs[..|jobs| - 1];
      var last := jobs[|jobs| - 1];
      TopicPathsMembership(init, p);
      if p in TopicPaths(jobs) {
        if p in TopicPaths(init) {
          var j, k :| 0 <= j < |init| && 0 <= k < |init[j].topics| && init[j].topics[k] == p;
          assert jobs[j] == init[j];
        } else {
          var k :| 0 <= k < |last.topics| && last.topics[k] == p;
          assert jobs[|jobs| - 1].topics[k] == p;
        }
      }
      if exists j, k :: 0 <= j < |jobs| && 0 <= k < |jobs[j].topics| && jobs[j].topics[k] == p {
        var j, k :| 0 <= j < |jobs| && 0 <= k < |jobs[j].topics| && jobs[j].topics[k] == p;
        if j < |init| {
          assert init[j] == jobs[j];
        } else {
          assert last.topics[k] == p;
        }
      }
    }
  }
}
