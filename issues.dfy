/** Choosing the issue to work on: the "in-work" labelling step, the selection rules of the
    generator, the label filters of the later versions, and the iteration control of the
    automatic development mode. Issue lists are what the GitHub API returned, in order;
    a failed request is None. */
module Issues {
  import opened Text

  /** An issue as the selection code reads it: its number, title and label names. */
  datatype Issue = Issue(number: nat, title: string, labels: seq<string>)

  const InWork := "in-work"

  // ------------------------------------------------- "in-work" labelling (grepo2_3.6.py)

  /** The label list sent back to GitHub: "in-work" is appended when it is missing. */
  function AddInWork(labels: seq<string>): (r: seq<string>)
    ensures InWork in r
    ensures InWork in labels ==> r == labels
    ensures InWork !in labels ==> r == labels + [InWork]
  {
    if InWork in labels then labels else labels + [InWork]
  }

  /** Labelling twice is labelling once, and the existing labels keep their order. */
  lemma AddInWorkIdempotent(labels: seq<string>)
    ensures AddInWork(AddInWork(labels)) == AddInWork(labels)
    ensures AddInWork(labels)[..|labels|] == labels
    ensures forall l :: l in AddInWork(labels) <==> l in labels || l == InWork
  {
    var r := AddInWork(labels);
    assert r[..|labels|] == labels;
  }

  /** What tui_codex_generate ends up with: the issue to work on and, when "in-work" had
      to be added, the new label list; or nothing to work on. */
  datatype Selection = NoIssue | Selected(issue: Issue, relabel: Option<seq<string>>)

  /** The first open "in-work" issue when the labelled query succeeds with one; otherwise
      the oldest open issue, labelled "in-work" if it is not yet; with neither, abort. */
  function SelectIssue(inWork: Option<seq<Issue>>, open: Option<seq<Issue>>): (s: Selection)
    ensures inWork.Some? && inWork.value != [] ==> s == Selected(inWork.value[0], None)
    ensures !(inWork.Some? && inWork.value != []) ==>
              (s.NoIssue? <==> open.None? || open.value == []) &&
              (s.Selected? ==> s.issue == open.value[0])
    ensures !(inWork.Some? && inWork.value != []) && s.Selected? ==>
              InWork in s.issue.labels || s.relabel.Some?
    ensures s.Selected? && s.relabel.Some? ==>
              InWork !in s.issue.labels && s.relabel.value == s.issue.labels + [InWork]
  {
    if inWork.Some? && inWork.value != [] then Selected(inWork.value[0], None)
    else if open.Some? && open.value != [] then
      var issue := open.value[0];
      if InWork in issue.labels then Selected(issue, None)
      else Selected(issue, Some(AddInWork(issue.labels)))
    else NoIssue
  }

  // ------------------------------------------------------ the overview issue filter

  /** The candidates of an auto-development round: every open issue except the overview
      issue, in order. Without an overview issue nothing is removed. */
  function WithoutOverview(issues: seq<Issue>, overview: Option<nat>): (r: seq<Issue>)
    ensures |r| <= |issues|
    ensures overview.None? ==> r == issues
  {
    if issues == [] then []
    else
      var rest := WithoutOverview(issues[1..], overview);
      if Some(issues[0].number) != overview then [issues[0]] + rest else rest
  }

  /** Exactly the issues other than the overview issue are kept. */
  lemma {:induction false} WithoutOverviewMembers(issues: seq<Issue>, overview: Option<nat>)
    ensures forall i :: i in WithoutOverview(issues, overview) <==> i in issues && Some(i.number) != overview
  {
    if issues != [] {
      WithoutOverviewMembers(issues[1..], overview);
      forall i | i in issues ensures i == issues[0] || i in issues[1..] {
        var k :| 0 <= k < |issues| && issues[k] == i;
        if k > 0 {
          assert issues[1..][k - 1] == i;
        }
      }
    }
  }

  /** The filter keeps the order: it distributes over concatenation. */
  lemma {:induction false} WithoutOverviewAppend(a: seq<Issue>, b: seq<Issue>, overview: Option<nat>)
    ensures WithoutOverview(a + b, overview) == WithoutOverview(a, overview) + WithoutOverview(b, overview)
    decreases |a|
  {
    if a == [] {
      assert a + b == b;
    } else {
      assert (a + b)[0] == a[0] && (a + b)[1..] == a[1..] + b;
      WithoutOverviewAppend(a[1..], b, overview);
    }
  }

  // ------------------------------------------- iteration control (grepo2_3.6.py)

  /** The iteration limit typed by the user: an empty answer means "5", and text int()
      rejects means 5 as well; any integer, also zero or negative, is taken as it is. */
  function IterationLimit(typed: string): (n: int)
    ensures typed != [] && PyInt(typed).Some? ==> n == PyInt(typed).value
    ensures typed != [] && PyInt(typed).None? ==> n == 5
  {
    var t := if typed == [] then "5" else typed;
    match PyInt(t)
    case Some(v) => v
    case None => 5
  }

  /** An empty answer gives the default. */
  lemma EmptyLimitIsFive()
    ensures IterationLimit([]) == 5
  {
    var five := NatToString(5);
    assert five == "5";
    PyIntRoundTrip(5);
  }

  /** One development round as the outside world answers it: the open issues (None when
      the request failed), whether Codex succeeded, whether the completion analysis
      succeeded, and whether the closing PATCH went through without raising. */
  datatype Round = Round(open: Option<seq<Issue>>, codexOk: bool, analysisOk: bool, closeOk: bool)

  /** An entry of completed_issues or failed_issues; partial marks "(teilweise)". */
  datatype Entry = Entry(number: nat, title: string, partial: bool)

  datatype RunState = RunState(iteration: nat, completed: seq<Entry>, failed: seq<Entry>)

  function Candidates(r: Round, overview: Option<nat>): seq<Issue> {
    if r.open.Some? then WithoutOverview(r.open.value, overview) else []
  }

  /** The bookkeeping of one round on its first candidate: a Codex failure is a failed
      issue; a success is completed when the analysis fails ("(teilweise)") or when the
      issue could be closed; a close that raises records nothing. */
  function Handle(s: RunState, issue: Issue, r: Round): (t: RunState)
    ensures t.iteration == s.iteration
    ensures |t.completed| + |t.failed| <= |s.completed| + |s.failed| + 1
    ensures s.completed <= t.completed && s.failed <= t.failed
  {
    var e := Entry(issue.number, issue.title, false);
    if !r.codexOk then s.(failed := s.failed + [e])
    else if !r.analysisOk then s.(completed := s.completed + [e.(partial := true)])
    else if r.closeOk then s.(completed := s.completed + [e])
    else s
  }

  /** The while loop of tui_auto_development_mode: round i (counted from 1) is asked for
      the open issues and stops the loop when none but the overview issue is left. */
  function AutoDev(maxIterations: int, overview: Option<nat>, rounds: nat -> Round, s: RunState): (t: RunState)
    ensures s.iteration <= t.iteration
    ensures s.completed <= t.completed && s.failed <= t.failed
    decreases maxIterations - s.iteration
  {
    if s.iteration >= maxIterations then s
    else
      var i := s.iteration + 1;
      var cands := Candidates(rounds(i), overview);
      if cands == [] then s.(iteration := i)
      else AutoDev(maxIterations, overview, rounds, Handle(s.(iteration := i), cands[0], rounds(i)))
  }

  method AutoDevelopment(maxIterations: int, overview: Option<nat>, rounds: nat -> Round)
    returns (iteration: nat, completed: seq<Entry>, failed: seq<Entry>)
    ensures RunState(iteration, completed, failed) == AutoDev(maxIterations, overview, rounds, RunState(0, [], []))
  {
    iteration, completed, failed := 0, [], [];
    while iteration < maxIterations
      invariant AutoDev(maxIterations, overview, rounds, RunState(iteration, completed, failed)) ==
                AutoDev(maxIterations, overview, rounds, RunState(0, [], []))
      decreases maxIterations - iteration
    {
      ghost var before := RunState(iteration, completed, failed);
      iteration := iteration + 1;
      var round := rounds(iteration);
      var filtered := if round.open.Some? then WithoutOverview(round.open.value, overview) else [];
      assert filtered == Candidates(round, overview);
      AutoDevStep(maxIterations, overview, rounds, before, iteration, filtered);
      if round.open.None? || filtered == [] {
        break;
      }
      var current := filtered[0];
      var entry := Entry(current.number, current.title, false);
      if round.codexOk {
        if round.analysisOk {
          if round.closeOk {
            completed := completed + [entry];
          }
        } else {
          completed := completed + [entry.(partial := true)];
        }
      } else {
        failed := failed + [entry];
      }
      assert RunState(iteration, completed, failed) == Handle(before.(iteration := iteration), current, round);
    }
  }

  /** The loop runs at most max(maxIterations, 0) rounds, records at most one entry per
      round, and never records the overview issue. */
  lemma {:induction false} AutoDevBounds(maxIterations: int, overview: Option<nat>, rounds: nat -> Round, s: RunState)
    ensures var t := AutoDev(maxIterations, overview, rounds, s);
            t.iteration >= s.iteration &&
            (t.iteration > s.iteration ==> t.iteration <= maxIterations) &&
            |t.completed| + |t.failed| - |s.completed| - |s.failed| <= t.iteration - s.iteration &&
            s.completed <= t.completed && s.failed <= t.failed
    decreases maxIterations - s.iteration
  {
    if s.iteration < maxIterations {
      var i := s.iteration + 1;
      var cands := Candidates(rounds(i), overview);
      if cands != [] {
        AutoDevBounds(maxIterations, overview, rounds, Handle(s.(iteration := i), cands[0], rounds(i)));
      }
    }
  }

  /** Entries are only ever made for candidates, so never for the overview issue. */
  lemma {:induction false} AutoDevSkipsOverview(maxIterations: int, overview: Option<nat>, rounds: nat -> Round, s: RunState)
    requires forall e :: e in s.completed + s.failed ==> Some(e.number) != overview
    ensures var t := AutoDev(maxIterations, overview, rounds, s);
            forall e :: e in t.completed + t.failed ==> Some(e.number) != overview
    decreases maxIterations - s.iteration
  {
    if s.iteration < maxIterations {
      var i := s.iteration + 1;
      var cands := Candidates(rounds(i), overview);
      if cands != [] {
        var t := Handle(s.(iteration := i), cands[0], rounds(i));
        WithoutOverviewMembers(rounds(i).open.value, overview);
        assert cands[0] in cands;
        forall e | e in t.completed + t.failed ensures Some(e.number) != overview {
          if e !in s.completed + s.failed {
            assert e.number == cands[0].number;
          }
        }
        AutoDevSkipsOverview(maxIterations, overview, rounds, t);
      }
    }
  }

  /** The loop ends early only on a round without candidates. */
  lemma {:induction false} AutoDevStopsWhenEmpty(maxIterations: int, overview: Option<nat>, rounds: nat -> Round, s: RunState)
    ensures var t := AutoDev(maxIterations, overview, rounds, s);
            t.iteration < maxIterations && t.iteration > s.iteration ==>
              Candidates(rounds(t.iteration), overview) == []
    decreases maxIterations - s.iteration
  {
    if s.iteration < maxIterations {
      var i := s.iteration + 1;
      var cands := Candidates(rounds(i), overview);
      if cands != [] {
        var next := Handle(s.(iteration := i), cands[0], rounds(i));
        AutoDevStopsWhenEmpty(maxIterations, overview, rounds, next);
        if i < maxIterations {
          AutoDevAdvances(maxIterations, overview, rounds, next);
        }
      }
    }
  }

  /** Every call below the limit runs at least one more round. */
  lemma AutoDevAdvances(maxIterations: int, overview: Option<nat>, rounds: nat -> Round, s: RunState)
    requires s.iteration < maxIterations
    ensures AutoDev(maxIterations, overview, rounds, s).iteration > s.iteration
  {
    var i := s.iteration + 1;
    var cands := Candidates(rounds(i), overview);
    AutoDevStep(maxIterations, overview, rounds, s, i, cands);
    if cands != [] {
      var next := Handle(s.(iteration := i), cands[0], rounds(i));
      assert AutoDev(maxIterations, overview, rounds, next).iteration >= i;
    }
  }

  /** One round of the loop below the limit. */
  lemma AutoDevStep(maxIterations: int, overview: Option<nat>, rounds: nat -> Round, s: RunState,
                    i: nat, cands: seq<Issue>)
    requires s.iteration < maxIterations && i == s.iteration + 1 && cands == Candidates(rounds(i), overview)
    ensures cands == [] ==> AutoDev(maxIterations, overview, rounds, s) == s.(iteration := i)
    ensures cands != [] ==>
              AutoDev(maxIterations, overview, rounds, s) ==
              AutoDev(maxIterations, overview, rounds, Handle(s.(iteration := i), cands[0], rounds(i)))
  {
  }

  /** A limit of zero or less runs no round. */
  lemma NoRoundsBelowOne(maxIterations: int, overview: Option<nat>, rounds: nat -> Round)
    requires maxIterations <= 0
    ensures AutoDev(maxIterations, overview, rounds, RunState(0, [], [])) == RunState(0, [], [])
  {
  }

  // ------------------------------------------------------ the later label filters

  function HasLabel(issue: Issue, name: string): bool {
    name in issue.labels
  }

  /** The issues labelled exactly "in-work", in order. */
  function InWorkIssues(issues: seq<Issue>): (r: seq<Issue>)
    ensures |r| <= |issues|
    ensures forall k :: 0 <= k < |r| ==> r[k] in issues && InWork in r[k].labels
    ensures forall i :: i in issues && InWork in i.labels ==> i in r
  {
    if issues == [] then []
    else
      var rest := InWorkIssues(issues[1..]);
      if InWork in issues[0].labels then [issues[0]] + rest else rest
  }

  /** The filter keeps the API's order: filtering a concatenation concatenates the filtered
      parts, so an "in-work" issue listed before another is offered before it. */
  lemma {:induction false} InWorkIssuesAppend(a: seq<Issue>, b: seq<Issue>)
    ensures InWorkIssues(a + b) == InWorkIssues(a) + InWorkIssues(b)
    decreases |a|
  {
    if a == [] {
      assert a + b == b;
    } else {
      assert (a + b)[0] == a[0] && (a + b)[1..] == a[1..] + b;
      InWorkIssuesAppend(a[1..], b);
    }
  }

  /** The issues offered by tui_codex_generate in grepo2_3.7.4.py and grepo2_3.7.4.3.py:
      the "in-work" ones if there are any, else all, and at most the first ten. */
  function OfferedIssues(issues: seq<Issue>): (r: seq<Issue>)
    ensures |r| <= 10 && |r| <= |issues|
    ensures InWorkIssues(issues) != [] ==> forall k :: 0 <= k < |r| ==> InWork in r[k].labels
    ensures var w := InWorkIssues(issues);
            w != [] ==> r == w[..if |w| < 10 then |w| else 10]
    ensures InWorkIssues(issues) == [] ==> r == issues[..if |issues| < 10 then |issues| else 10]
    ensures issues != [] ==> r != []
  {
    var shown := if InWorkIssues(issues) != [] then InWorkIssues(issues) else issues;
    shown[..if |shown| < 10 then |shown| else 10]
  }

  /** The labels grepo2_3.7.3.py treats as work in progress. */
  const WorkLabels := ["in-work", "in-progress", "working", "development", "coding"]

  predicate IsWorkIssue(issue: Issue) {
    exists l :: l in issue.labels && Lower(l) in WorkLabels
  }

  /** The work-label filter of tui_codex_generate in grepo2_3.7.3.py: label names are
      lower-cased and compared with the work labels; matching issues are kept in order. */
  method FilterWorkIssues(open: seq<Issue>) returns (inWork: seq<Issue>)
    ensures inWork == Filtered(open)
  {
    inWork := [];
    for k := 0 to |open|
      invariant inWork == Filtered(open[..k])
    {
      var issueLabels := LowerAll(open[k].labels);
      var any := AnyWorkLabel(issueLabels);
      WorkLabelAmong(open[k], issueLabels);
      FilteredSnoc(open, k);
      if any {
        inWork := inWork + [open[k]];
      }
    }
    assert open[..|open|] == open;
  }

  /** The any(...) over the work labels: whether one of them is among the names. */
  method AnyWorkLabel(lowered: seq<string>) returns (any: bool)
    ensures any <==> exists v :: 0 <= v < |WorkLabels| && WorkLabels[v] in lowered
  {
    any := false;
    for w := 0 to |WorkLabels|
      invariant any <==> exists v :: 0 <= v < w && WorkLabels[v] in lowered
    {
      if WorkLabels[w] in lowered {
        any := true;
      }
    }
  }

  /** Some work label is among the lower-cased names exactly for a work issue. */
  lemma WorkLabelAmong(issue: Issue, lowered: seq<string>)
    requires lowered == LowerAll(issue.labels)
    ensures (exists v :: 0 <= v < |WorkLabels| && WorkLabels[v] in lowered) <==> IsWorkIssue(issue)
  {
    LowerAllMembers(issue.labels);
  }

  function LowerAll(labels: seq<string>): (r: seq<string>)
    ensures |r| == |labels|
    ensures forall k :: 0 <= k < |labels| ==> r[k] == Lower(labels[k])
  {
    if labels == [] then [] else [Lower(labels[0])] + LowerAll(labels[1..])
  }

  lemma LowerAllMembers(labels: seq<string>)
    ensures forall w :: w in LowerAll(labels) <==> exists l :: l in labels && Lower(l) == w
  {
    var r := LowerAll(labels);
    forall w | w in r ensures exists l :: l in labels && Lower(l) == w {
      var k :| 0 <= k < |r| && r[k] == w;
      assert labels[k] in labels;
    }
    forall w | exists l :: l in labels && Lower(l) == w ensures w in r {
      var l :| l in labels && Lower(l) == w;
      var k :| 0 <= k < |labels| && labels[k] == l;
      assert r[k] == w;
    }
  }

  /** The work issues of a list, in order. */
  function Filtered(issues: seq<Issue>): (r: seq<Issue>)
    ensures |r| <= |issues|
    ensures forall k :: 0 <= k < |r| ==> r[k] in issues && IsWorkIssue(r[k])
    ensures forall i :: i in issues && IsWorkIssue(i) ==> i in r
    decreases |issues|
  {
    if issues == [] then []
    else
      var front := Filtered(issues[..|issues| - 1]);
      assert forall i :: i in issues[..|issues| - 1] ==> i in issues;
      var last := issues[|issues| - 1];
      if IsWorkIssue(last) then front + [last] else front
  }

  lemma FilteredSnoc(issues: seq<Issue>, k: nat)
    requires k < |issues|
    ensures Filtered(issues[..k + 1]) ==
            Filtered(issues[..k]) + (if IsWorkIssue(issues[k]) then [issues[k]] else [])
  {
    assert issues[..k + 1][..k] == issues[..k];
  }

  /** Label case does not matter: "In-Work" marks an issue as well. */
  lemma WorkLabelCaseInsensitive(number: nat, title: string)
    ensures IsWorkIssue(Issue(number, title, ["In-Work"]))
  {
    var labels := ["In-Work"];
    LowerInWork();
    assert labels[0] in labels && Lower(labels[0]) == WorkLabels[0];
  }

  lemma LowerInWork()
    ensures Lower("In-Work") == InWork
  {
  }
}
