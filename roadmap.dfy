/** The roadmap-to-issue parser of the GitHub project setup, in its two dialects: the strict
    one driven by regular expressions, and the loose one driven by prefix tests. Each dialect
    first classifies every line on its own, then folds the classified lines with the phase
    in force. */
module Roadmap {
  import opened Text

  /** One issue to create: the dictionary {"title", "body", "labels"}. */
  datatype IssueRecord = IssueRecord(title: string, body: string, labels: seq<string>)

  /** What one roadmap line is, independently of the lines around it. */
  datatype LineKind = PhaseLine(phase: string) | TaskLine(title: string, body: string) | OtherLine

  /** How many task lines there are. */
  function CountTasks(ks: seq<LineKind>): (n: nat)
    ensures n <= |ks|
    decreases |ks|
  {
    if ks == [] then 0 else CountTasks(ks[..|ks| - 1]) + (if ks[|ks| - 1].TaskLine? then 1 else 0)
  }

  // --------------------------------------------------------------- strict dialect

  /** The word PHASE under re.IGNORECASE; Unicode case folding lets the long s match S. */
  predicate PhaseWordAt(r: string) {
    |r| >= 5 && r[0] in {'P', 'p'} && r[1] in {'H', 'h'} && r[2] in {'A', 'a'} &&
    r[3] in {'S', 's', 'ſ'} && r[4] in {'E', 'e'}
  }

  /** The longest run of digits at the front. */
  function LeadingDigits(s: string): (d: string)
    ensures |d| <= |s| && d == s[..|d|] && AllDigits(d)
    ensures |d| == |s| || !IsDigit(s[|d|])
  {
    if s == [] || !IsDigit(s[0]) then [] else [s[0]] + LeadingDigits(s[1..])
  }

  /** The group of re.match(r'^\s*PHASE\s+(\d+)', line, re.IGNORECASE), or None. */
  function PhaseOf(line: string): (d: Option<string>)
    ensures d.Some? ==> |d.value| > 0 && AllDigits(d.value)
  {
    var r := LStrip(line);
    if !PhaseWordAt(r) then None
    else
      var after := r[5..];
      var t := LStrip(after);
      if |t| == |after| || t == [] || !IsDigit(t[0]) then None
      else Some(LeadingDigits(t))
  }

  /** A digit run followed by a non-digit is the leading digit run. */
  lemma {:induction false} LeadingDigitsOf(n: string, rest: string)
    requires AllDigits(n) && (rest == [] || !IsDigit(rest[0]))
    ensures LeadingDigits(n + rest) == n
    decreases |n|
  {
    if n == [] {
      assert n + rest == rest;
    } else {
      assert (n + rest)[0] == n[0] && (n + rest)[1..] == n[1..] + rest;
      LeadingDigitsOf(n[1..], rest);
      assert [n[0]] + n[1..] == n;
    }
  }

  /** PhaseOf read off its parts: the word after the leading whitespace, then a non-empty
      run of whitespace before a digit. */
  lemma PhaseOfUnfold(line: string, r: string, t: string)
    requires r == LStrip(line) && PhaseWordAt(r)
    requires t == LStrip(r[5..]) && |t| < |r[5..]| && t != [] && IsDigit(t[0])
    ensures PhaseOf(line) == Some(LeadingDigits(t))
  {
  }

  /** ^\s*PHASE\s+(\d+) matches a line made of whitespace, the word, at least one
      whitespace character and a digit run, and captures the whole digit run. */
  lemma PhaseOfMatches(w: string, p: string, v: string, n: string, rest: string)
    requires AllSpace(w) && |p| == 5 && PhaseWordAt(p)
    requires |v| > 0 && AllSpace(v)
    requires |n| > 0 && AllDigits(n) && (rest == [] || !IsDigit(rest[0]))
    ensures PhaseOf(w + p + v + n + rest) == Some(n)
  {
    var t := n + rest;
    var after := v + t;
    var r := p + after;
    PhaseWordPrefix(p, after);
    LStripSkips(w, r);
    assert r[5..] == after;
    assert t[0] == n[0];
    LStripSkips(v, t);
    LeadingDigitsOf(n, rest);
    PartsAssoc(w, p, v, n, rest);
    PhaseOfUnfold(w + r, r, t);
  }

  lemma PhaseWordPrefix(p: string, after: string)
    requires |p| == 5 && PhaseWordAt(p)
    ensures PhaseWordAt(p + after) && !IsSpace((p + after)[0])
  {
    var r := p + after;
    assert r[0] == p[0] && r[1] == p[1] && r[2] == p[2] && r[3] == p[3] && r[4] == p[4];
  }

  lemma PartsAssoc<T>(a: seq<T>, b: seq<T>, c: seq<T>, d: seq<T>, e: seq<T>)
    ensures a + b + c + d + e == a + (b + (c + (d + e)))
  {
  }

  /** Conversely, when the pattern matches, the line is made of those five parts and the
      captured group is the digit run. */
  lemma PhaseOfParts(line: string) returns (w: string, p: string, v: string, rest: string)
    requires PhaseOf(line).Some?
    ensures line == w + p + v + PhaseOf(line).value + rest
    ensures AllSpace(w) && |p| == 5 && PhaseWordAt(p)
    ensures |v| > 0 && AllSpace(v)
    ensures rest == [] || !IsDigit(rest[0])
  {
    var r, t := PhaseOfView(line);
    w, p, v, rest := PartsOfView(line, r, t, PhaseOf(line).value);
  }

  /** The pieces of a line, given the values PhaseOf computes on it. */
  lemma PartsOfView(line: string, r: string, t: string, d: string) returns (w: string, p: string, v: string, rest: string)
    requires r == LStrip(line) && PhaseWordAt(r) && t == LStrip(r[5..]) && |t| < |r[5..]|
    requires t != [] && IsDigit(t[0]) && d == LeadingDigits(t)
    ensures line == w + p + v + d + rest
    ensures AllSpace(w) && |p| == 5 && PhaseWordAt(p)
    ensures |v| > 0 && AllSpace(v)
    ensures rest == [] || !IsDigit(rest[0])
  {
    w := LStripPrefix(line);
    var after;
    p, after := PhaseWordSplit(r);
    v := LStripPrefix(after);
    rest := DigitsSplit(t);
    Regroup(line, w, r, p, v, after, t, d, rest);
  }

  /** A text starting with the phase word is that word followed by the rest. */
  lemma PhaseWordSplit(r: string) returns (p: string, after: string)
    requires PhaseWordAt(r)
    ensures r == p + after && after == r[5..] && |p| == 5 && PhaseWordAt(p)
  {
    p, after := r[..5], r[5..];
    assert PhaseWordAt(p) by {
      assert p[0] == r[0] && p[1] == r[1] && p[2] == r[2] && p[3] == r[3] && p[4] == r[4];
    }
    SliceParts(r, 5);
  }

  /** A text is its leading digit run followed by a rest that does not start with a digit. */
  lemma DigitsSplit(t: string) returns (rest: string)
    ensures t == LeadingDigits(t) + rest && (rest == [] || !IsDigit(rest[0]))
  {
    var d := LeadingDigits(t);
    rest := t[|d|..];
    SliceParts(t, |d|);
  }

  /** The intermediate values of PhaseOf on a matching line. */
  lemma PhaseOfView(line: string) returns (r: string, t: string)
    requires PhaseOf(line).Some?
    ensures r == LStrip(line) && PhaseWordAt(r) && t == LStrip(r[5..]) && |t| < |r[5..]|
    ensures t != [] && IsDigit(t[0]) && PhaseOf(line).value == LeadingDigits(t)
  {
    r := LStrip(line);
    t := LStrip(r[5..]);
  }

  /** The whitespace lstrip() removes, in front of what it leaves. */
  lemma LStripPrefix(s: string) returns (w: string)
    ensures s == w + LStrip(s) && AllSpace(w)
  {
    w := s[..|s| - |LStrip(s)|];
    SliceParts(s, |w|);
  }

  /** A non-empty sequence is its first element followed by the rest. */
  lemma HeadTail<T>(s: seq<T>)
    requires s != []
    ensures s == [s[0]] + s[1..]
  {
  }

  /** A sequence is its two slices at any cut. */
  lemma SliceParts<T>(s: seq<T>, i: nat)
    requires i <= |s|
    ensures s == s[..i] + s[i..]
  {
  }

  /** The text up to the first newline: what the regular expression "." can cover. */
  function UpToNewline(s: string): (r: string)
    ensures |r| <= |s| && r == s[..|r|]
    ensures !Contains(s, "\n") ==> r == s
  {
    var i := Find(s, "\n");
    if i < 0 then s else s[..i]
  }

  /** The text after the brackets of re.match(r'^\s*\[\s*\]', line), or None. */
  function AfterCheckbox(line: string): (a: Option<string>)
    ensures a.Some? ==> |a.value| < |line|
  {
    var r := LStrip(line);
    if r == [] || r[0] != '[' then None
    else
      var u := LStrip(r[1..]);
      if u == [] || u[0] != ']' then None else Some(u[1..])
  }

  /** The stripped group of r'^\s*\[\s*\]\s*(.+)'. When the rest of the line holds no
      visible character the match fails or captures only whitespace, and "" stands for both:
      neither yields a record. */
  function TaskContent(line: string): (c: Option<string>)
    ensures c.Some? <==> AfterCheckbox(line).Some?
    ensures c.Some? ==> |c.value| < |line| && Trimmed(c.value)
  {
    match AfterCheckbox(line)
    case None => None
    case Some(rest) =>
      var c := Strip(UpToNewline(LStrip(rest)));
      assert Trimmed(c);
      Some(c)
  }

  /** The checkbox pattern matches whitespace, '[', whitespace and ']' at the front of a
      line, and leaves the rest of the line. */
  lemma CheckboxMatches(w1: string, w2: string, rest: string)
    requires AllSpace(w1) && AllSpace(w2)
    ensures AfterCheckbox(w1 + "[" + w2 + "]" + rest) == Some(rest)
  {
    var u := "]" + rest;
    var r := "[" + (w2 + u);
    PartsAssoc(w1, "[", w2, "]", rest);
    LStripSkips(w1, r);
    assert r[1..] == w2 + u;
    LStripSkips(w2, u);
    assert u[1..] == rest;
    CheckboxUnfold(w1 + r, r, u);
  }

  /** AfterCheckbox read off its parts. */
  lemma CheckboxUnfold(line: string, r: string, u: string)
    requires r == LStrip(line) && r != [] && r[0] == '['
    requires u == LStrip(r[1..]) && u != [] && u[0] == ']'
    ensures AfterCheckbox(line) == Some(u[1..])
  {
  }

  /** Conversely, a line the checkbox pattern matches is made of those parts. */
  lemma CheckboxParts(line: string) returns (w1: string, w2: string)
    requires AfterCheckbox(line).Some?
    ensures line == w1 + "[" + w2 + "]" + AfterCheckbox(line).value
    ensures AllSpace(w1) && AllSpace(w2)
  {
    var r, u := CheckboxView(line);
    w1 := LStripPrefix(line);
    w2 := LStripPrefix(r[1..]);
    HeadTail(r);
    HeadTail(u);
    Regroup(line, w1, r, [r[0]], w2, r[1..], u, [u[0]], u[1..]);
  }

  /** Substituting the parts of the parts. */
  lemma Regroup<T>(line: seq<T>, w1: seq<T>, r: seq<T>, a: seq<T>, w2: seq<T>, x: seq<T>, u: seq<T>, b: seq<T>, rest: seq<T>)
    requires line == w1 + r && r == a + x && x == w2 + u && u == b + rest
    ensures line == w1 + a + w2 + b + rest
  {
    PartsAssoc(w1, a, w2, b, rest);
  }

  /** The intermediate values of AfterCheckbox on a matching line. */
  lemma CheckboxView(line: string) returns (r: string, u: string)
    requires AfterCheckbox(line).Some?
    ensures r == LStrip(line) && r != [] && r[0] == '['
    ensures u == LStrip(r[1..]) && u != [] && u[0] == ']'
    ensures AfterCheckbox(line).value == u[1..]
  {
    r := LStrip(line);
    u := LStrip(r[1..]);
  }

  /** The group of a checkbox line whose rest holds no newline, or ends at the line's one
      newline, as readlines() leaves it: the stripped rest. */
  lemma TaskContentOfLine(line: string, rest: string, nl: string)
    requires AfterCheckbox(line) == Some(rest + nl)
    requires !Contains(rest, "\n") && (nl == [] || nl == "\n")
    ensures TaskContent(line) == Some(Strip(rest))
  {
    GroupOfRest(rest, nl);
    var y := LStrip(rest + nl);
    TaskContentUnfold(line, rest + nl, y, UpToNewline(y));
  }

  /** The stripped group taken from a rest without a newline of its own. */
  lemma GroupOfRest(rest: string, nl: string)
    requires !Contains(rest, "\n") && (nl == [] || nl == "\n")
    ensures Strip(UpToNewline(LStrip(rest + nl))) == Strip(rest)
  {
    var w := LStripPrefix(rest);
    if LStrip(rest) == [] {
      BlankGroup(rest, nl);
    } else {
      TextGroup(rest, nl, w, LStrip(rest));
    }
  }

  /** GroupOfRest when the rest is whitespace. */
  lemma BlankGroup(rest: string, nl: string)
    requires (nl == [] || nl == "\n") && LStrip(rest) == []
    ensures Strip(UpToNewline(LStrip(rest + nl))) == Strip(rest)
  {
    assert rest[..|rest|] == rest;
    StripOfSpaces(rest);
    SpacesThenNewline(rest, nl);
    LStripSkips(rest + nl, []);
  }

  /** GroupOfRest when the rest holds a visible character. */
  lemma TextGroup(rest: string, nl: string, w: string, l: string)
    requires !Contains(rest, "\n") && (nl == [] || nl == "\n")
    requires rest == w + l && AllSpace(w) && l == LStrip(rest) && l != []
    ensures Strip(UpToNewline(LStrip(rest + nl))) == Strip(rest)
  {
    LStripBeforeNewline(rest, nl, w, l);
    NoNewlineSuffix(w, l);
    UpToNewlineOf(l, nl);
    StripOfLStripped(rest, l);
  }

  lemma LStripBeforeNewline(rest: string, nl: string, w: string, l: string)
    requires rest == w + l && AllSpace(w) && l != [] && !IsSpace(l[0])
    ensures LStrip(rest + nl) == l + nl
  {
    assert rest + nl == w + (l + nl) && (l + nl)[0] == l[0];
    LStripSkips(w, l + nl);
  }

  /** Stripping what lstrip() left is stripping the whole. */
  lemma StripOfLStripped(rest: string, l: string)
    requires l == LStrip(rest) && l != []
    ensures Strip(l) == Strip(rest)
  {
    assert [] + l == l;
    LStripSkips([], l);
  }

  /** TaskContent read off its parts. */
  lemma TaskContentUnfold(line: string, x: string, y: string, z: string)
    requires AfterCheckbox(line) == Some(x) && LStrip(x) == y && UpToNewline(y) == z
    ensures TaskContent(line) == Some(Strip(z))
  {
  }

  /** The end of a text without a newline holds none. */
  lemma NoNewlineSuffix(w: string, l: string)
    requires !Contains(w + l, "\n")
    ensures !Contains(l, "\n")
  {
    if Contains(l, "\n") {
      var j :| 0 <= j <= |l| - 1 && OccursAt(l, "\n", j);
      assert (w + l)[|w| + j..|w| + j + 1] == l[j..j + 1];
      OccursContains(w + l, "\n", |w| + j);
    }
  }

  lemma SpacesThenNewline(rest: string, nl: string)
    requires AllSpace(rest) && (nl == [] || nl == "\n")
    ensures AllSpace(rest + nl) && (rest + nl) + [] == rest + nl
  {
  }

  /** A text of whitespace strips to "". */
  lemma StripOfSpaces(s: string)
    requires AllSpace(s)
    ensures Strip(s) == []
  {
    LStripSkips(s, []);
    assert s + [] == s;
  }

  /** The text before a newline that ends it, or of a text without one, is the text. */
  lemma UpToNewlineOf(l: string, nl: string)
    requires !Contains(l, "\n") && (nl == [] || nl == "\n")
    ensures UpToNewline(l + nl) == l
  {
    if nl == [] {
      assert l + nl == l;
    } else {
      FindAfterFree(l, [], "\n");
      assert l + nl + [] == l + nl;
      assert (l + nl)[..|l|] == l;
    }
  }

  /** raw_title.strip().strip("*").strip(). */
  function TitleOf(rawTitle: string): (t: string)
    ensures |t| <= |rawTitle|
    ensures Trimmed(t)
  {
    Strip(StripChar(Strip(rawTitle), '*'))
  }

  /** What the title's strips may remove: whitespace and '*'. */
  predicate TitlePad(c: char) { IsSpace(c) || c == '*' }

  predicate AllPad(s: string) { forall k :: 0 <= k < |s| ==> TitlePad(s[k]) }

  /** The title is the raw title with only whitespace and '*' cut from its two ends: the
      three strips remove nothing inside. */
  lemma TitleOfTrims(raw: string) returns (front: string, back: string)
    ensures raw == front + TitleOf(raw) + back
    ensures AllPad(front) && AllPad(back)
  {
    var a, b := Strip(raw), StripChar(Strip(raw), '*');
    var w1, w1' := StripParts(raw);
    var s1, s1' := StarParts(a);
    var w2, w2' := StripParts(b);
    front, back := w1 + s1 + w2, w2' + s1' + w1';
    Nest(raw, a, b, TitleOf(raw), w1, w1', s1, s1', w2, w2');
    PadConcat(w1, s1, w2);
    PadConcat(w2', s1', w1');
  }

  /** strip() cuts whitespace off the two ends. */
  lemma StripParts(s: string) returns (p: string, q: string)
    ensures s == p + Strip(s) + q && AllPad(p) && AllPad(q)
  {
    var i, j := StripCuts(s);
    p, q := s[..i], s[j..];
    SpacesArePad(p);
    SpacesArePad(q);
    ThreeSlices(s, i, j);
  }

  lemma SpacesArePad(s: string)
    requires AllSpace(s)
    ensures AllPad(s)
  {
  }

  /** strip("*") cuts '*' off the two ends. */
  lemma StarParts(s: string) returns (p: string, q: string)
    ensures s == p + StripChar(s, '*') + q && AllPad(p) && AllPad(q)
  {
    var i, j := StripCharCuts(s, '*');
    p, q := s[..i], s[j..];
    StarRunIsPad(s, 0, i);
    StarRunIsPad(s, j, |s|);
    ThreeSlices(s, i, j);
  }

  lemma StarRunIsPad(s: string, a: nat, b: nat)
    requires a <= b <= |s| && forall k :: a <= k < b ==> s[k] == '*'
    ensures AllPad(s[a..b])
  {
    forall k | 0 <= k < b - a ensures TitlePad(s[a..b][k]) {
      assert s[a..b][k] == s[a + k];
    }
  }

  lemma ThreeSlices<T>(s: seq<T>, i: nat, j: nat)
    requires i <= j <= |s|
    ensures s == s[..i] + s[i..j] + s[j..]
  {
  }

  /** Parts of parts. */
  lemma Nest<T>(raw: seq<T>, a: seq<T>, b: seq<T>, t: seq<T>,
                w1: seq<T>, w1': seq<T>, s1: seq<T>, s1': seq<T>, w2: seq<T>, w2': seq<T>)
    requires raw == w1 + a + w1' && a == s1 + b + s1' && b == w2 + t + w2'
    ensures raw == (w1 + s1 + w2) + t + (w2' + s1' + w1')
  {
  }

  lemma PadConcat(x: string, y: string, z: string)
    requires AllPad(x) && AllPad(y) && AllPad(z)
    ensures AllPad(x + y + z)
  {
  }

  /** A line as the strict dialect sees it: the phase pattern is tried first, then the
      checkbox pattern with a ':' in its content. */
  function ClassifyStrict(line: string): (k: LineKind)
    ensures k.PhaseLine? <==> PhaseOf(line).Some?
    ensures k.PhaseLine? ==> |k.phase| > 0 && AllDigits(k.phase)
    ensures k.TaskLine? <==> PhaseOf(line).None? && TaskContent(line).Some? && Contains(TaskContent(line).value, ":")
    ensures k.TaskLine? ==> var (h, t) := SplitOnce(TaskContent(line).value, ":").value;
                            k == TaskLine(TitleOf(h), Strip(t))
  {
    match PhaseOf(line)
    case Some(d) => PhaseLine(d)
    case None =>
      match TaskContent(line)
      case None => OtherLine
      case Some(content) =>
        match SplitOnce(content, ":")
        case None => OtherLine
        case Some((rawTitle, rawBody)) => TaskLine(TitleOf(rawTitle), Strip(rawBody))
  }

  function StrictKinds(lines: seq<string>): (ks: seq<LineKind>)
    ensures |ks| == |lines|
  {
    seq(|lines|, i requires 0 <= i < |lines| => ClassifyStrict(lines[i]))
  }

  /** The phase in force after the classified lines, starting from phase0. */
  function StrictPhaseAfter(phase0: Option<string>, ks: seq<LineKind>): Option<string>
    decreases |ks|
  {
    if ks == [] then phase0
    else if ks[|ks| - 1].PhaseLine? then Some(ks[|ks| - 1].phase)
    else StrictPhaseAfter(phase0, ks[..|ks| - 1])
  }

  /** The record one classified line yields: only a task line under a phase yields one. */
  function StrictRecord(phase: Option<string>, k: LineKind): seq<IssueRecord> {
    if k.TaskLine? && phase.Some? then [IssueRecord(k.title, k.body, ["enhancement", "phase-" + phase.value])]
    else []
  }

  /** The records of the classified lines, in document order. */
  function StrictRecords(phase0: Option<string>, ks: seq<LineKind>): (rs: seq<IssueRecord>)
    ensures |rs| <= |ks|
    ensures forall k :: 0 <= k < |rs| ==> |rs[k].labels| == 2 && rs[k].labels[0] == "enhancement"
    decreases |ks|
  {
    if ks == [] then []
    else
      var front := ks[..|ks| - 1];
      StrictRecords(phase0, front) + StrictRecord(StrictPhaseAfter(phase0, front), ks[|ks| - 1])
  }

  /** The parse loop of the strict dialect over the lines readlines() returned. */
  method ParseRoadmapStrict(lines: seq<string>) returns (issues: seq<IssueRecord>)
    ensures issues == StrictRecords(None, StrictKinds(lines))
  {
    ghost var ks := StrictKinds(lines);
    issues := [];
    var currentPhase: Option<string> := None;
    for i := 0 to |lines|
      invariant currentPhase == StrictPhaseAfter(None, ks[..i])
      invariant issues == StrictRecords(None, ks[..i])
    {
      StrictStep(None, ks, i);
      var nextPhase, record := StrictLine(currentPhase, lines[i]);
      currentPhase := nextPhase;
      issues := issues + record;
    }
    assert ks[..|lines|] == ks;
  }

  /** The body of the strict parse loop for one line: a phase heading sets the phase, and
      a task line with a ':' under a phase yields its record. */
  method StrictLine(currentPhase: Option<string>, raw: string) returns (phase: Option<string>, record: seq<IssueRecord>)
    ensures phase == if ClassifyStrict(raw).PhaseLine? then Some(ClassifyStrict(raw).phase) else currentPhase
    ensures record == StrictRecord(currentPhase, ClassifyStrict(raw))
  {
    phase, record := currentPhase, [];
    var mPhase := PhaseOf(raw);
    if mPhase.Some? {
      assert ClassifyStrict(raw) == PhaseLine(mPhase.value);
      phase := mPhase;
      return;
    }
    var mIssue := TaskContent(raw);
    if mIssue.Some? && currentPhase.Some? {
      var parts := SplitOnce(mIssue.value, ":");
      if parts.None? {
        assert ClassifyStrict(raw) == OtherLine;
        return;
      }
      var (rawTitle, rawBody) := parts.value;
      var title := TitleOf(rawTitle);
      var body := Strip(rawBody);
      var labels := ["enhancement", "phase-" + currentPhase.value];
      assert ClassifyStrict(raw) == TaskLine(title, body);
      record := [IssueRecord(title, body, labels)];
    } else if mIssue.None? {
      assert ClassifyStrict(raw) == OtherLine;
    }
  }

  /** One more classified line: the phase and the records advance by that line alone. */
  lemma StrictStep(phase0: Option<string>, ks: seq<LineKind>, i: nat)
    requires i < |ks|
    ensures StrictPhaseAfter(phase0, ks[..i + 1]) ==
            if ks[i].PhaseLine? then Some(ks[i].phase) else StrictPhaseAfter(phase0, ks[..i])
    ensures StrictRecords(phase0, ks[..i + 1]) ==
            StrictRecords(phase0, ks[..i]) + StrictRecord(StrictPhaseAfter(phase0, ks[..i]), ks[i])
  {
    assert ks[..i + 1][..i] == ks[..i];
  }

  /** The phase after a concatenation is the phase the second part leaves, starting from
      the phase the first part leaves. */
  lemma {:induction false} StrictPhaseAppend(phase0: Option<string>, a: seq<LineKind>, b: seq<LineKind>)
    ensures StrictPhaseAfter(phase0, a + b) == StrictPhaseAfter(StrictPhaseAfter(phase0, a), b)
    decreases |b|
  {
    if b == [] {
      assert a + b == a;
    } else {
      StrictPhaseAppend(phase0, a, b[..|b| - 1]);
      assert (a + b)[..|a + b| - 1] == a + b[..|b| - 1];
    }
  }

  /** Folding a concatenation is folding the first part, then the second part under the
      phase the first part leaves behind. */
  lemma {:induction false} StrictRecordsAppend(phase0: Option<string>, a: seq<LineKind>, b: seq<LineKind>)
    ensures StrictRecords(phase0, a + b) ==
            StrictRecords(phase0, a) + StrictRecords(StrictPhaseAfter(phase0, a), b)
    decreases |b|
  {
    if b == [] {
      StrictAppendNothing(phase0, a, b);
    } else {
      var front, last := b[..|b| - 1], b[|b| - 1];
      StrictRecordsAppend(phase0, a, front);
      StrictAppendLast(phase0, a, front, last);
      FrontLast(b);
      StrictAppendAgain(phase0, a, b, front + [last]);
    }
  }

  /** The base case of StrictRecordsAppend: an empty second part adds no record. */
  lemma StrictAppendNothing(phase0: Option<string>, a: seq<LineKind>, b: seq<LineKind>)
    requires b == []
    ensures StrictRecords(phase0, a + b) ==
            StrictRecords(phase0, a) + StrictRecords(StrictPhaseAfter(phase0, a), b)
  {
    assert a + b == a;
    var x := StrictRecords(phase0, a);
    assert StrictRecords(StrictPhaseAfter(phase0, a), b) == [];
    assert x + [] == x;
  }

  /** The equation of StrictRecordsAppend carries over to an equal second part. */
  lemma StrictAppendAgain(phase0: Option<string>, a: seq<LineKind>, b: seq<LineKind>, b': seq<LineKind>)
    requires b == b'
    requires StrictRecords(phase0, a + b') ==
             StrictRecords(phase0, a) + StrictRecords(StrictPhaseAfter(phase0, a), b')
    ensures StrictRecords(phase0, a + b) ==
            StrictRecords(phase0, a) + StrictRecords(StrictPhaseAfter(phase0, a), b)
  {
  }

  /** The inductive step of StrictRecordsAppend: one more line at the end of b. */
  lemma StrictAppendLast(phase0: Option<string>, a: seq<LineKind>, front: seq<LineKind>, last: LineKind)
    requires StrictRecords(phase0, a + front) ==
             StrictRecords(phase0, a) + StrictRecords(StrictPhaseAfter(phase0, a), front)
    ensures StrictRecords(phase0, a + (front + [last])) ==
            StrictRecords(phase0, a) + StrictRecords(StrictPhaseAfter(phase0, a), front + [last])
  {
    var p := StrictPhaseAfter(phase0, a);
    SnocAssoc(a, front, last);
    StrictSnoc(phase0, a + front, last);
    StrictSnoc(p, front, last);
    StrictPhaseAppend(phase0, a, front);
    RegroupRight(StrictRecords(phase0, a), StrictRecords(p, front), StrictRecord(StrictPhaseAfter(p, front), last),
                 StrictRecords(phase0, (a + front) + [last]), StrictRecords(p, front + [last]));
  }

  /** The fold, unfolded once at its last line. */
  lemma StrictSnoc(phase0: Option<string>, front: seq<LineKind>, last: LineKind)
    ensures StrictRecords(phase0, front + [last]) ==
            StrictRecords(phase0, front) + StrictRecord(StrictPhaseAfter(phase0, front), last)
  {
    assert (front + [last])[..|front|] == front;
  }

  /** Without a PHASE line nothing is produced: task lines before the first phase are
      dropped. */
  lemma {:induction false} NoPhaseNoIssues(ks: seq<LineKind>)
    requires forall i :: 0 <= i < |ks| ==> !ks[i].PhaseLine?
    ensures StrictPhaseAfter(None, ks) == None
    ensures StrictRecords(None, ks) == []
    decreases |ks|
  {
    if ks != [] {
      NoPhaseNoIssues(ks[..|ks| - 1]);
    }
  }

  /** No line yields more than one record, and only task lines yield any. */
  lemma {:induction false} StrictRecordsAtMostTasks(phase0: Option<string>, ks: seq<LineKind>)
    ensures |StrictRecords(phase0, ks)| <= CountTasks(ks)
    decreases |ks|
  {
    if ks != [] {
      StrictRecordsAtMostTasks(phase0, ks[..|ks| - 1]);
    }
  }

  /** Once a phase is in force, every task line yields exactly one record. */
  lemma {:induction false} EveryTaskUnderPhase(phase0: Option<string>, ks: seq<LineKind>)
    requires phase0.Some?
    ensures StrictPhaseAfter(phase0, ks).Some?
    ensures |StrictRecords(phase0, ks)| == CountTasks(ks)
    decreases |ks|
  {
    if ks != [] {
      EveryTaskUnderPhase(phase0, ks[..|ks| - 1]);
    }
  }

  /** The phase in force is the one of the nearest preceding PHASE line. */
  lemma {:induction false} PhaseIsNearest(ks: seq<LineKind>, d: string)
    requires StrictPhaseAfter(None, ks) == Some(d)
    ensures exists i :: 0 <= i < |ks| && ks[i] == PhaseLine(d) &&
                        forall j :: i < j < |ks| ==> !ks[j].PhaseLine?
    decreases |ks|
  {
    var last := |ks| - 1;
    if !ks[last].PhaseLine? {
      var front := ks[..last];
      PhaseIsNearest(front, d);
      var i :| 0 <= i < |front| && front[i] == PhaseLine(d) &&
               forall j :: i < j < |front| ==> !front[j].PhaseLine?;
      assert ks[i] == front[i];
      forall j | i < j < |ks| ensures !ks[j].PhaseLine? {
        if j < last { assert ks[j] == front[j]; }
      }
    }
  }

  /** Every record carries exactly the labels "enhancement" and "phase-" + digits. */
  lemma {:induction false} StrictLabels(phase0: Option<string>, ks: seq<LineKind>)
    requires phase0.Some? ==> |phase0.value| > 0 && AllDigits(phase0.value)
    requires forall i :: 0 <= i < |ks| && ks[i].PhaseLine? ==> |ks[i].phase| > 0 && AllDigits(ks[i].phase)
    ensures forall r :: r in StrictRecords(phase0, ks) ==>
              |r.labels| == 2 && r.labels[0] == "enhancement" && |r.labels[1]| > 6 &&
              r.labels[1][..6] == "phase-" && AllDigits(r.labels[1][6..])
    decreases |ks|
  {
    if ks != [] {
      var front := ks[..|ks| - 1];
      StrictLabels(phase0, front);
      StrictPhaseShape(phase0, front);
      var p := StrictPhaseAfter(phase0, front);
      if ks[|ks| - 1].TaskLine? && p.Some? {
        var lab := "phase-" + p.value;
        assert lab[..6] == "phase-" && lab[6..] == p.value;
      }
    }
  }

  lemma {:induction false} StrictPhaseShape(phase0: Option<string>, ks: seq<LineKind>)
    requires phase0.Some? ==> |phase0.value| > 0 && AllDigits(phase0.value)
    requires forall i :: 0 <= i < |ks| && ks[i].PhaseLine? ==> |ks[i].phase| > 0 && AllDigits(ks[i].phase)
    ensures var p := StrictPhaseAfter(phase0, ks); p.Some? ==> |p.value| > 0 && AllDigits(p.value)
    decreases |ks|
  {
    if ks != [] && !ks[|ks| - 1].PhaseLine? {
      StrictPhaseShape(phase0, ks[..|ks| - 1]);
    }
  }

  /** The records of a roadmap file: those of its lines, with the labels shown above. */
  lemma ParsedLabels(lines: seq<string>)
    ensures forall r :: r in StrictRecords(None, StrictKinds(lines)) ==>
              |r.labels| == 2 && r.labels[0] == "enhancement" && |r.labels[1]| > 6 &&
              r.labels[1][..6] == "phase-" && AllDigits(r.labels[1][6..])
  {
    StrictLabels(None, StrictKinds(lines));
  }

  /** A checkbox line whose group is a colon-free head, ':' and a tail, and that is no phase
      heading, is a task line of that title and body. */
  lemma StrictTask(line: string, head: string, tail: string)
    requires PhaseOf(line).None? && TaskContent(line) == Some(head + ":" + tail)
    requires !Contains(head, ":")
    ensures ClassifyStrict(line) == TaskLine(TitleOf(head), Strip(tail))
  {
    FirstColonSplit(head + ":" + tail, head, tail);
  }

  /** A task's content is split at its first ':' only: a title without ':' keeps the rest,
      colons included, as the body. */
  lemma FirstColonSplit(content: string, title: string, body: string)
    requires content == title + ":" + body && !Contains(title, ":")
    ensures SplitOnce(content, ":") == Some((title, body))
  {
    SplitOnceUnique(title, body, ":");
  }

  // ---------------------------------------------------------------- loose dialect

  /** A line as the loose dialect sees it: "PHASE" in capitals at column 0 starts a phase
      named by the whole stripped line; a stripped line opening with "[ ]" whose rest holds
      a ':' is a task. */
  function ClassifyLoose(line: string): (k: LineKind)
    ensures k.PhaseLine? <==> StartsWith(line, "PHASE")
    ensures k.PhaseLine? ==> k.phase == Strip(line)
    ensures k.TaskLine? <==> !StartsWith(line, "PHASE") && StartsWith(Strip(line), "[ ]") &&
                             Contains(Strip(Strip(line)[3..]), ":")
    ensures k.TaskLine? ==> var (h, t) := SplitOnce(Strip(Strip(line)[3..]), ":").value;
                            k == TaskLine(Strip(h), Strip(t))
  {
    if StartsWith(line, "PHASE") then PhaseLine(Strip(line))
    else
      var stripped := Strip(line);
      if !StartsWith(stripped, "[ ]") then OtherLine
      else
        var task := Strip(stripped[3..]);
        match SplitOnce(task, ":")
        case None => OtherLine
        case Some((title, desc)) => TaskLine(Strip(title), Strip(desc))
  }

  /** A loose task line whose checked content has a ':' after a colon-free title yields
      that title and the rest as description, both stripped. */
  lemma LooseTask(line: string, head: string, tail: string)
    requires !StartsWith(line, "PHASE") && StartsWith(Strip(line), "[ ]")
    requires Strip(Strip(line)[3..]) == head + ":" + tail && !Contains(head, ":")
    ensures ClassifyLoose(line) == TaskLine(Strip(head), Strip(tail))
  {
    FirstColonSplit(head + ":" + tail, head, tail);
  }

  function LooseKinds(lines: seq<string>): (ks: seq<LineKind>)
    ensures |ks| == |lines|
  {
    seq(|lines|, i requires 0 <= i < |lines| => ClassifyLoose(lines[i]))
  }

  /** The phase name in force after the classified lines; "" before the first phase. */
  function LoosePhaseAfter(ks: seq<LineKind>): string
    decreases |ks|
  {
    if ks == [] then ""
    else if ks[|ks| - 1].PhaseLine? then ks[|ks| - 1].phase
    else LoosePhaseAfter(ks[..|ks| - 1])
  }

  /** The record one classified line yields under the phase name in force. */
  function LooseRecord(phase: string, k: LineKind): seq<IssueRecord> {
    if k.TaskLine? then [IssueRecord(k.title, "**Phase:** " + phase + "\n\n" + k.body, ["roadmap", "enhancement"])]
    else []
  }

  function LooseRecords(ks: seq<LineKind>): (rs: seq<IssueRecord>)
    ensures |rs| <= |ks|
    ensures forall k :: 0 <= k < |rs| ==> rs[k].labels == ["roadmap", "enhancement"]
    decreases |ks|
  {
    if ks == [] then []
    else
      var front := ks[..|ks| - 1];
      LooseRecords(front) + LooseRecord(LoosePhaseAfter(front), ks[|ks| - 1])
  }

  /** The loose dialect reads the file and splits it at '\n'. */
  method ParseRoadmapLoose(content: string) returns (issues: seq<IssueRecord>)
    ensures issues == LooseRecords(LooseKinds(Split(content, "\n")))
  {
    var lines := Split(content, "\n");
    issues := ParseLooseLines(lines);
  }

  /** The parse loop of the loose dialect over the lines of the file. */
  method ParseLooseLines(lines: seq<string>) returns (issues: seq<IssueRecord>)
    ensures issues == LooseRecords(LooseKinds(lines))
  {
    ghost var ks := LooseKinds(lines);
    var currentPhase := "";
    issues := [];
    for i := 0 to |lines|
      invariant currentPhase == LoosePhaseAfter(ks[..i])
      invariant issues == LooseRecords(ks[..i])
    {
      LooseStep(ks, i);
      assert ks[i] == ClassifyLoose(lines[i]);
      currentPhase, issues := LooseLine(lines[i], currentPhase, issues);
    }
    assert ks[..|lines|] == ks;
  }

  /** The body of the loose parse loop for one line: a PHASE line sets the phase name, a
      task line appends its record under the phase name in force. */
  method LooseLine(line: string, currentPhase: string, issues: seq<IssueRecord>)
    returns (phase: string, issues': seq<IssueRecord>)
    ensures phase == if ClassifyLoose(line).PhaseLine? then ClassifyLoose(line).phase else currentPhase
    ensures issues' == issues + LooseRecord(currentPhase, ClassifyLoose(line))
  {
    phase, issues' := currentPhase, issues;
    assert issues + [] == issues;
    if StartsWith(line, "PHASE") {
      phase := Strip(line);
    } else if StartsWith(Strip(line), "[ ]") {
      var task := Strip(Strip(line)[3..]);
      if Contains(task, ":") {
        var (title, desc) := SplitOnce(task, ":").value;
        assert ClassifyLoose(line) == TaskLine(Strip(title), Strip(desc));
        issues' := issues + [IssueRecord(Strip(title), "**Phase:** " + currentPhase + "\n\n" + Strip(desc),
                                         ["roadmap", "enhancement"])];
      } else {
        assert ClassifyLoose(line) == OtherLine;
      }
    } else {
      assert ClassifyLoose(line) == OtherLine;
    }
  }

  /** One more classified line: the phase name and the records advance by that line alone. */
  lemma LooseStep(ks: seq<LineKind>, i: nat)
    requires i < |ks|
    ensures LoosePhaseAfter(ks[..i + 1]) == if ks[i].PhaseLine? then ks[i].phase else LoosePhaseAfter(ks[..i])
    ensures LooseRecords(ks[..i + 1]) == LooseRecords(ks[..i]) + LooseRecord(LoosePhaseAfter(ks[..i]), ks[i])
  {
    assert ks[..i + 1][..i] == ks[..i];
  }

  /** Every task line yields exactly one record, before the first phase as well, and every
      record carries the fixed labels and names the phase in force in its body. */
  lemma {:induction false} LooseRecordsShape(ks: seq<LineKind>)
    ensures |LooseRecords(ks)| == CountTasks(ks)
    ensures forall r :: r in LooseRecords(ks) ==>
              r.labels == ["roadmap", "enhancement"] && StartsWith(r.body, "**Phase:** ")
    decreases |ks|
  {
    if ks != [] {
      var front := ks[..|ks| - 1];
      LooseRecordsShape(front);
      var k := ks[|ks| - 1];
      if k.TaskLine? {
        var body := "**Phase:** " + LoosePhaseAfter(front) + "\n\n" + k.body;
        assert body[..11] == "**Phase:** ";
      }
    }
  }

  /** A task before the first PHASE line keeps an empty phase name in its body. */
  lemma EarlyTaskHasEmptyPhase(ks: seq<LineKind>, title: string, body: string)
    requires forall i :: 0 <= i < |ks| ==> !ks[i].PhaseLine?
    ensures LooseRecords(ks + [TaskLine(title, body)]) ==
            LooseRecords(ks) + [IssueRecord(title, "**Phase:** \n\n" + body, ["roadmap", "enhancement"])]
  {
    NoLoosePhase(ks);
    LooseAppendOne(ks, TaskLine(title, body));
    EmptyPhaseBody(body);
  }

  lemma EmptyPhaseBody(body: string)
    ensures "**Phase:** " + "" + "\n\n" + body == "**Phase:** \n\n" + body
  {
  }

  /** Folding one more classified line. */
  lemma LooseAppendOne(ks: seq<LineKind>, k: LineKind)
    ensures LooseRecords(ks + [k]) == LooseRecords(ks) + LooseRecord(LoosePhaseAfter(ks), k)
  {
    assert (ks + [k])[..|ks|] == ks;
  }

  lemma {:induction false} NoLoosePhase(ks: seq<LineKind>)
    requires forall i :: 0 <= i < |ks| ==> !ks[i].PhaseLine?
    ensures LoosePhaseAfter(ks) == ""
    decreases |ks|
  {
    if ks != [] {
      NoLoosePhase(ks[..|ks| - 1]);
    }
  }

  /** The dialects disagree on a lower-case heading: the strict one starts phase 1, the
      loose one does not see a phase at all. */
  lemma LowerCaseHeading()
    ensures ClassifyStrict("phase 1") == PhaseLine("1")
    ensures !ClassifyLoose("phase 1").PhaseLine?
  {
    LowerCasePhaseOf();
    NotUpperPhase();
  }

  lemma NotUpperPhase()
    ensures !StartsWith("phase 1", "PHASE")
  {
    assert "phase 1"[0] == 'p' && "PHASE"[0] == 'P';
    assert "phase 1"[..5][0] != "PHASE"[0];
  }

  lemma LowerCasePhaseOf()
    ensures PhaseOf("phase 1") == Some("1")
  {
    var line := "phase 1";
    assert line[0] == 'p' && !IsSpace(line[0]);
    assert LStrip(line) == line;
    assert PhaseWordAt(line);
    var after := line[5..];
    assert after == " 1";
    OneDigitAfterSpace();
  }

  lemma OneDigitAfterSpace()
    ensures LStrip(" 1") == "1" && LeadingDigits("1") == "1"
  {
    LStripOneSpace();
    OneLeadingDigit();
  }

  lemma LStripOneSpace()
    ensures LStrip(" 1") == "1"
  {
    assert IsSpace(" 1"[0]) && " 1"[1..] == "1";
    assert !IsSpace("1"[0]);
  }

  lemma OneLeadingDigit()
    ensures LeadingDigits("1") == "1"
  {
    assert IsDigit("1"[0]) && "1"[1..] == [];
    assert LeadingDigits([]) == [];
    assert ['1'] + [] == "1";
  }
}
