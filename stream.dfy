/** The streaming chat-completion assembler of the roadmap generator: the response body
    arrives in chunks, is buffered and cut at '\n', and every "data:" line is decoded and its
    choices[0].delta.content appended. This is the data field of the event stream format of
    the WHATWG HTML Living Standard, section 9.2 (Server-sent events), restricted to one-line
    data fields. Two variants exist: one where "[DONE]" ends the stream, one where it only
    leaves the loop over the buffered lines. */
module Stream {
  import opened Text

  /** What json.loads(data)["choices"][0]["delta"].get("content") gives for one data field:
      Malformed for the JSONDecodeError (caught), ShapeError for a missing key or index
      (not caught), Delta("") when the content is missing or empty. */
  datatype Decoded = Malformed | ShapeError | Delta(text: string)

  /** The result of the generation: Aborted when an exception left the streaming block
      (nothing is written), else the text that goes into roadmap.md. */
  datatype Outcome = Aborted | Completed(content: string)

  /** What one complete line means. */
  datatype Event = Ignore | Done | Fail | Append(text: string)

  /** The handling of one line cut from the buffer: stripped, kept only when it starts with
      "data:", the rest stripped again and compared with "[DONE]", else decoded. */
  function EventOf(raw: string, decode: string -> Decoded): (e: Event)
    ensures !StartsWith(Strip(raw), "data:") ==> e == Ignore
    ensures e == Done <==> StartsWith(Strip(raw), "data:") && DataOf(raw) == "[DONE]"
    ensures e == Fail <==> StartsWith(Strip(raw), "data:") && DataOf(raw) != "[DONE]" &&
                           decode(DataOf(raw)) == ShapeError
    ensures StartsWith(Strip(raw), "data:") && DataOf(raw) != "[DONE]" ==>
              (decode(DataOf(raw)) == Malformed ==> e == Ignore) &&
              (decode(DataOf(raw)) == Delta([]) ==> e == Ignore) &&
              (decode(DataOf(raw)).Delta? && decode(DataOf(raw)).text != [] ==>
                 e == Append(decode(DataOf(raw)).text))
    ensures e.Append? ==> e.text != [] && StartsWith(Strip(raw), "data:") &&
                          decode(DataOf(raw)) == Delta(e.text)
  {
    var line := Strip(raw);
    if !StartsWith(line, "data:") then Ignore
    else
      var data := DataOf(raw);
      if data == "[DONE]" then Done
      else match decode(data)
        case Malformed => Ignore
        case ShapeError => Fail
        case Delta(s) => if s != [] then Append(s) else Ignore
  }

  /** The data field of a "data:" line: what follows the prefix, stripped. */
  function DataOf(raw: string): string
    requires StartsWith(Strip(raw), "data:")
  {
    Strip(Strip(raw)[5..])
  }

  /** The line handling of both variants, as a function a loop can be given. */
  function LineEvents(decode: string -> Decoded): (ev: string -> Event)
    ensures forall raw :: ev(raw) == EventOf(raw, decode)
  {
    raw => EventOf(raw, decode)
  }

  /** resp.raise_for_status() raises for client and server error codes. */
  predicate IsHttpError(status: nat) { 400 <= status < 600 }

  /** The text received so far: the chunks in arrival order. */
  function Concat(chunks: seq<string>): string
    decreases |chunks|
  {
    if chunks == [] then [] else Concat(chunks[..|chunks| - 1]) + chunks[|chunks| - 1]
  }

  // ------------------------------------------------------------ complete lines

  /** The newline-terminated lines of a text, without their '\n'. */
  function Lines(s: string): seq<string>
    decreases |s|
  {
    var i := Find(s, "\n");
    if i < 0 then [] else [s[..i]] + Lines(s[i + 1..])
  }

  /** What stays in the buffer: the text after the last '\n'. */
  function Pending(s: string): string
    decreases |s|
  {
    var i := Find(s, "\n");
    if i < 0 then s else Pending(s[i + 1..])
  }

  /** What stays in the buffer never holds a newline. */
  lemma {:induction false} PendingHasNoNewline(s: string)
    ensures !Contains(Pending(s), "\n")
    decreases |s|
  {
    var i := Find(s, "\n");
    FindContains(s, "\n");
    if i >= 0 {
      PendingHasNoNewline(s[i + 1..]);
    }
  }

  lemma NoNewlineBeforeFirst(s: string, i: int)
    requires 0 <= i && i == Find(s, "\n")
    ensures !Contains(s[..i], "\n")
  {
    forall j | 0 <= j <= i - 1 && OccursAt(s[..i], "\n", j) ensures false {
      assert s[..i][j..j + 1] == s[j..j + 1];
      assert OccursAt(s, "\n", j);
    }
  }

  /** A cut line never holds the separator. */
  lemma {:induction false} LinesHaveNoNewline(s: string)
    ensures forall k :: 0 <= k < |Lines(s)| ==> !Contains(Lines(s)[k], "\n")
    decreases |s|
  {
    var i := Find(s, "\n");
    if i >= 0 {
      NoNewlineBeforeFirst(s, i);
      LinesHaveNoNewline(s[i + 1..]);
      assert Lines(s) == [s[..i]] + Lines(s[i + 1..]);
    }
  }

  lemma FindInPrefix(a: string, b: string)
    requires Find(a, "\n") >= 0
    ensures Find(a + b, "\n") == Find(a, "\n")
  {
    var i := Find(a, "\n");
    assert (a + b)[i..i + 1] == a[i..i + 1];
    forall j | 0 <= j < i ensures !OccursAt(a + b, "\n", j) {
      assert (a + b)[j..j + 1] == a[j..j + 1];
      assert !OccursAt(a, "\n", j);
    }
    FindFirstIn(a + b, "\n", i);
  }

  /** The first newline of a stays the first one once b is appended, and cuts a + b into
      the same head and the rest of a followed by b. */
  lemma AppendCut(a: string, b: string, i: int)
    requires i == Find(a, "\n") >= 0
    ensures Find(a + b, "\n") == i
    ensures (a + b)[..i] == a[..i] && (a + b)[i + 1..] == a[i + 1..] + b
  {
    FindInPrefix(a, b);
    assert (a + b)[..i] == a[..i];
    assert (a + b)[i + 1..] == a[i + 1..] + b;
  }

  /** Appending text to a buffer: the lines already complete stay, and the new ones are
      those of the pending rest followed by the new text. */
  lemma {:induction false} LinesAppend(a: string, b: string)
    ensures Lines(a + b) == Lines(a) + Lines(Pending(a) + b)
    ensures Pending(a + b) == Pending(Pending(a) + b)
    decreases |a|
  {
    var i := Find(a, "\n");
    if i >= 0 {
      LinesAppend(a[i + 1..], b);
      LinesAppendStep(a, b, i);
    } else {
      assert Lines(a) == [] && Pending(a) == a;
      assert [] + Lines(a + b) == Lines(a + b);
    }
  }

  /** The inductive step of LinesAppend: past the first newline of a. */
  lemma LinesAppendStep(a: string, b: string, i: int)
    requires i == Find(a, "\n") >= 0
    requires Lines(a[i + 1..] + b) == Lines(a[i + 1..]) + Lines(Pending(a[i + 1..]) + b)
    requires Pending(a[i + 1..] + b) == Pending(Pending(a[i + 1..]) + b)
    ensures Lines(a + b) == Lines(a) + Lines(Pending(a) + b)
    ensures Pending(a + b) == Pending(Pending(a) + b)
  {
    var rest := a[i + 1..];
    AppendCut(a, b, i);
    LinesUnfold(a, i);
    LinesUnfold(a + b, i);
    PendingUnfold(a, i);
    PendingUnfold(a + b, i);
    RegroupLeft([a[..i]], Lines(rest), Lines(Pending(rest) + b), Lines(a + b), Lines(a));
  }

  /** Past the first newline, the lines are the one before it and those after it. */
  lemma LinesUnfold(s: string, i: int)
    requires i == Find(s, "\n") >= 0
    ensures Lines(s) == [s[..i]] + Lines(s[i + 1..])
  {
  }

  /** Past the first newline, what stays pending is what stays of the rest. */
  lemma PendingUnfold(s: string, i: int)
    requires i == Find(s, "\n") >= 0
    ensures Pending(s) == Pending(s[i + 1..])
  {
  }

  /** Text without a newline completes no line and stays pending. */
  lemma NoNewlineNoLines(s: string)
    requires !Contains(s, "\n")
    ensures Lines(s) == [] && Pending(s) == s
  {
    FindContains(s, "\n");
  }

  // ------------------------------------------------ reference: the lines of the stream

  /** The line-by-line state of the first variant: still reading, stopped by "[DONE]", or
      failed by an escaping exception. */
  datatype Progress = Going(content: string) | Finished(content: string) | Failed

  function Feed(p: Progress, e: Event): Progress {
    match p
    case Going(c) =>
      (match e
       case Ignore => p
       case Done => Finished(c)
       case Fail => Failed
       case Append(s) => Going(c + s))
    case _ => p
  }

  /** The lines fed one after the other, in order. */
  function FeedAll(p: Progress, lines: seq<string>, ev: string -> Event): Progress
    decreases |lines|
  {
    if lines == [] then p else FeedAll(Feed(p, ev(lines[0])), lines[1..], ev)
  }

  lemma FeedAllCons(p: Progress, line: string, lines: seq<string>, ev: string -> Event)
    ensures FeedAll(p, [line] + lines, ev) == FeedAll(Feed(p, ev(line)), lines, ev)
  {
    assert ([line] + lines)[1..] == lines;
  }

  lemma {:induction false} FeedAllAppend(p: Progress, a: seq<string>, b: seq<string>, ev: string -> Event)
    ensures FeedAll(p, a + b, ev) == FeedAll(FeedAll(p, a, ev), b, ev)
    decreases |a|
  {
    if a == [] {
      assert a + b == b;
    } else {
      assert (a + b)[0] == a[0] && (a + b)[1..] == a[1..] + b;
      FeedAllAppend(Feed(p, ev(a[0])), a[1..], b, ev);
    }
  }

  /** Once stopped or failed, further lines change nothing. */
  lemma {:induction false} FeedAllStuck(p: Progress, lines: seq<string>, ev: string -> Event)
    requires !p.Going?
    ensures FeedAll(p, lines, ev) == p
    decreases |lines|
  {
    if lines != [] {
      FeedAllStuck(p, lines[1..], ev);
    }
  }

  function ToOutcome(p: Progress): Outcome {
    if p.Failed? then Aborted else Completed(p.content)
  }

  /** The independent description of the first variant: the deltas of the data lines in
      order, up to the first "[DONE]"; a failing line before it aborts everything. */
  function Reference(lines: seq<string>, ev: string -> Event): (r: Outcome)
    ensures (forall k :: 0 <= k < |lines| ==> !ev(lines[k]).Fail?) ==> r.Completed?
    decreases |lines|
  {
    if lines == [] then Completed([])
    else match ev(lines[0])
      case Done => Completed([])
      case Fail => Aborted
      case Ignore => Reference(lines[1..], ev)
      case Append(s) =>
        match Reference(lines[1..], ev)
        case Aborted => Aborted
        case Completed(c) => Completed(s + c)
  }

  /** Feeding the lines to the accumulated text c gives c followed by the reference. */
  lemma {:induction false} FeedAllIsReference(c: string, lines: seq<string>, ev: string -> Event)
    ensures ToOutcome(FeedAll(Going(c), lines, ev)) ==
            match Reference(lines, ev)
            case Aborted => Aborted
            case Completed(d) => Completed(c + d)
    decreases |lines|
  {
    if lines == [] {
      assert c + [] == c;
    } else {
      var e := ev(lines[0]);
      match e
      case Done => FeedAllStuck(Finished(c), lines[1..], ev); assert c + [] == c;
      case Fail => FeedAllStuck(Failed, lines[1..], ev);
      case Ignore => FeedAllIsReference(c, lines[1..], ev);
      case Append(s) =>
        FeedAllIsReference(c + s, lines[1..], ev);
        match Reference(lines[1..], ev)
        case Aborted =>
        case Completed(d) => assert (c + s) + d == c + (s + d);
    }
  }

  // ------------------------------------------------ first variant: "[DONE]" ends the stream

  /** The inner loop of the first variant over the buffer: lines are cut and handled until
      none is complete, "[DONE]" sets done, or an exception escapes. */
  function DrainToDone(c: string, buffer: string, ev: string -> Event): (r: (Progress, string))
    decreases |buffer|
  {
    var idx := Find(buffer, "\n");
    if idx < 0 then (Going(c), buffer)
    else
      match Feed(Going(c), ev(buffer[..idx]))
      case Going(c') => DrainToDone(c', buffer[idx + 1..], ev)
      case p => (p, buffer[idx + 1..])
  }

  /** The outer loop of the first variant: every chunk is appended to the buffer and drained,
      until done is set or an exception escapes. */
  function StateToDone(chunks: seq<string>, ev: string -> Event): (Progress, string)
    decreases |chunks|
  {
    if chunks == [] then (Going([]), [])
    else
      var (p, buffer) := StateToDone(chunks[..|chunks| - 1], ev);
      if p.Going? then DrainToDone(p.content, buffer + chunks[|chunks| - 1], ev) else (p, buffer)
  }

  /** The loop over the complete lines of the buffer in the first variant. */
  method DrainUntilDone(c0: string, b0: string, decode: string -> Decoded)
    returns (content: string, buffer: string, done: bool, failed: bool)
    ensures var (p, rest) := DrainToDone(c0, b0, LineEvents(decode));
            (failed <==> p.Failed?) && (done <==> p.Finished?) &&
            (!failed ==> p.content == content && rest == buffer)
  {
    ghost var ev := LineEvents(decode);
    content, buffer, done, failed := c0, b0, false, false;
    while true
      invariant DrainToDone(content, buffer, ev) == DrainToDone(c0, b0, ev)
      decreases |buffer|
    {
      var idx := Find(buffer, "\n");
      if idx == -1 {
        return;
      }
      var e := EventOf(buffer[..idx], decode);
      assert e == ev(buffer[..idx]);
      buffer := buffer[idx + 1..];
      match e
      case Ignore =>
      case Done =>
        done := true;
        return;
      case Fail =>
        failed := true;
        return;
      case Append(s) =>
        content := content + s;
    }
  }

  /** tui_generate_roadmap's stream loop in grepo2_3.5.py and grepo2_3.7.py: the raised
      status is checked first, every chunk is buffered, and each complete line is handled
      by EventOf until "[DONE]" sets done. */
  method AssembleUntilDone(status: nat, chunks: seq<string>, decode: string -> Decoded) returns (r: Outcome)
    ensures IsHttpError(status) ==> r == Aborted
    ensures !IsHttpError(status) ==> r == ToOutcome(StateToDone(chunks, LineEvents(decode)).0)
  {
    if IsHttpError(status) {
      return Aborted;
    }
    ghost var ev := LineEvents(decode);
    var content := "";
    var done := false;
    var buffer := "";
    var k := 0;
    while k < |chunks| && !done
      invariant 0 <= k <= |chunks|
      invariant !done ==> StateToDone(chunks[..k], ev) == (Going(content), buffer)
      invariant done ==> StateToDone(chunks, ev).0 == Finished(content)
    {
      NextChunkToDone(chunks, k, ev);
      buffer := buffer + chunks[k];
      var failed;
      content, buffer, done, failed := DrainUntilDone(content, buffer, decode);
      if failed || done {
        StoppedStaysStopped(chunks, k + 1, ev);
      }
      if failed {
        return Aborted;
      }
      k := k + 1;
    }
    if !done {
      assert chunks[..|chunks|] == chunks;
    }
    return Completed(content);
  }

  /** One more chunk while still reading: it is appended to the buffer and drained. */
  lemma NextChunkToDone(chunks: seq<string>, k: nat, ev: string -> Event)
    requires k < |chunks| && StateToDone(chunks[..k], ev).0.Going?
    ensures var (p, buffer) := StateToDone(chunks[..k], ev);
            StateToDone(chunks[..k + 1], ev) == DrainToDone(p.content, buffer + chunks[k], ev)
  {
    assert chunks[..k + 1][..k] == chunks[..k];
  }

  /** A stream stopped after k chunks is stopped after all of them. */
  lemma {:induction false} StoppedStaysStopped(chunks: seq<string>, k: nat, ev: string -> Event)
    requires k <= |chunks| && !StateToDone(chunks[..k], ev).0.Going?
    ensures StateToDone(chunks, ev).0 == StateToDone(chunks[..k], ev).0
    decreases |chunks| - k
  {
    if k < |chunks| {
      assert chunks[..k + 1][..k] == chunks[..k];
      StoppedStaysStopped(chunks, k + 1, ev);
    } else {
      assert chunks[..k] == chunks;
    }
  }

  /** Draining a buffer feeds its complete lines; when it is still going, the pending rest
      stays. */
  lemma {:induction false} DrainToDoneFeeds(c: string, buffer: string, ev: string -> Event)
    ensures DrainToDone(c, buffer, ev).0 == FeedAll(Going(c), Lines(buffer), ev)
    ensures DrainToDone(c, buffer, ev).0.Going? ==> DrainToDone(c, buffer, ev).1 == Pending(buffer)
    decreases |buffer|
  {
    var idx := Find(buffer, "\n");
    if idx >= 0 {
      var line, rest := buffer[..idx], buffer[idx + 1..];
      LinesUnfold(buffer, idx);
      PendingUnfold(buffer, idx);
      FeedAllCons(Going(c), line, Lines(rest), ev);
      var p := Feed(Going(c), ev(line));
      if p.Going? {
        DrainToDoneFeeds(p.content, rest, ev);
      } else {
        FeedAllStuck(p, Lines(rest), ev);
      }
    }
  }

  /** The chunk boundaries do not matter: the first variant handles exactly the complete
      lines of the whole text received, in order. */
  lemma {:induction false} StateToDoneFeeds(chunks: seq<string>, ev: string -> Event)
    ensures StateToDone(chunks, ev).0 == FeedAll(Going([]), Lines(Concat(chunks)), ev)
    ensures StateToDone(chunks, ev).0.Going? ==> StateToDone(chunks, ev).1 == Pending(Concat(chunks))
    decreases |chunks|
  {
    if chunks == [] {
      NoNewlineNoLines([]);
    } else {
      var front, last := chunks[..|chunks| - 1], chunks[|chunks| - 1];
      StateToDoneFeeds(front, ev);
      var (p, buffer) := StateToDone(front, ev);
      var f := Concat(front);
      LinesAppend(f, last);
      FeedAllAppend(Going([]), Lines(f), Lines(Pending(f) + last), ev);
      if p.Going? {
        DrainToDoneFeeds(p.content, buffer + last, ev);
      } else {
        FeedAllStuck(p, Lines(Pending(f) + last), ev);
      }
    }
  }

  /** What the first variant writes: the deltas of the data lines, in order, before the
      first "[DONE]" among the complete lines of the text received; a shape error before it
      aborts. */
  lemma UntilDoneIsReference(chunks: seq<string>, ev: string -> Event)
    ensures ToOutcome(StateToDone(chunks, ev).0) == Reference(Lines(Concat(chunks)), ev)
  {
    StateToDoneFeeds(chunks, ev);
    FeedAllIsReference([], Lines(Concat(chunks)), ev);
    match Reference(Lines(Concat(chunks)), ev)
    case Aborted =>
    case Completed(d) => assert [] + d == d;
  }

  /** A trailing fragment without '\n' contributes nothing. */
  lemma TrailingFragmentIgnored(chunks: seq<string>, fragment: string, ev: string -> Event)
    requires !Contains(fragment, "\n")
    ensures Lines(Concat(chunks + [fragment])) == Lines(Concat(chunks))
    ensures ToOutcome(StateToDone(chunks + [fragment], ev).0) == ToOutcome(StateToDone(chunks, ev).0)
  {
    var all := chunks + [fragment];
    assert all[..|all| - 1] == chunks && all[|all| - 1] == fragment;
    var f := Concat(chunks);
    LinesAppend(f, fragment);
    PendingHasNoNewline(f);
    NoPendingNewline(Pending(f), fragment);
    NoNewlineNoLines(Pending(f) + fragment);
    assert Lines(f) + [] == Lines(f);
    UntilDoneIsReference(all, ev);
    UntilDoneIsReference(chunks, ev);
  }

  lemma NoPendingNewline(a: string, b: string)
    requires !Contains(a, "\n") && !Contains(b, "\n")
    ensures !Contains(a + b, "\n")
  {
    forall j | 0 <= j <= |a + b| - 1 && OccursAt(a + b, "\n", j) ensures false {
      if j < |a| {
        assert (a + b)[j..j + 1] == a[j..j + 1];
        assert OccursAt(a, "\n", j);
      } else {
        assert (a + b)[j..j + 1] == b[j - |a|..j - |a| + 1];
        assert OccursAt(b, "\n", j - |a|);
      }
    }
  }

  // --------------------------------- second variant: "[DONE]" only leaves the line loop

  /** The inner loop of the second variant: "[DONE]" leaves it with the rest still
      buffered; None stands for the escaping exception. */
  function DrainToBreak(c: string, buffer: string, ev: string -> Event): (r: (Option<string>, string))
    decreases |buffer|
  {
    var idx := Find(buffer, "\n");
    if idx < 0 then (Some(c), buffer)
    else
      match ev(buffer[..idx])
      case Done => (Some(c), buffer[idx + 1..])
      case Fail => (None, buffer[idx + 1..])
      case Ignore => DrainToBreak(c, buffer[idx + 1..], ev)
      case Append(s) => DrainToBreak(c + s, buffer[idx + 1..], ev)
  }

  /** The outer loop of the second variant: every chunk is appended and drained; only an
      escaping exception stops reading. */
  function StateToBreak(chunks: seq<string>, ev: string -> Event): (Option<string>, string)
    decreases |chunks|
  {
    if chunks == [] then (Some([]), [])
    else
      var (c, buffer) := StateToBreak(chunks[..|chunks| - 1], ev);
      if c.Some? then DrainToBreak(c.value, buffer + chunks[|chunks| - 1], ev) else (c, buffer)
  }

  function OptionOutcome(c: Option<string>): Outcome {
    if c.Some? then Completed(c.value) else Aborted
  }

  /** The loop over the complete lines of the buffer in the second variant. */
  method DrainUntilBreak(c0: string, b0: string, decode: string -> Decoded)
    returns (content: string, buffer: string, failed: bool)
    ensures var (r, rest) := DrainToBreak(c0, b0, LineEvents(decode));
            (failed <==> r.None?) && (!failed ==> r == Some(content) && rest == buffer)
  {
    ghost var ev := LineEvents(decode);
    content, buffer, failed := c0, b0, false;
    while true
      invariant DrainToBreak(content, buffer, ev) == DrainToBreak(c0, b0, ev)
      decreases |buffer|
    {
      var idx := Find(buffer, "\n");
      if idx == -1 {
        return;
      }
      var e := EventOf(buffer[..idx], decode);
      assert e == ev(buffer[..idx]);
      buffer := buffer[idx + 1..];
      match e
      case Ignore =>
      case Done =>
        return;
      case Fail =>
        failed := true;
        return;
      case Append(s) =>
        content := content + s;
    }
  }

  /** The stream loop of grepo2_3.7.4.4.py and grepo2_3.7.3.4.5-tuitest.py: the same, except
      that "[DONE]" only leaves the loop over the buffered lines. */
  method AssembleBreakOnDone(status: nat, chunks: seq<string>, decode: string -> Decoded) returns (r: Outcome)
    ensures IsHttpError(status) ==> r == Aborted
    ensures !IsHttpError(status) ==> r == OptionOutcome(StateToBreak(chunks, LineEvents(decode)).0)
  {
    if IsHttpError(status) {
      return Aborted;
    }
    ghost var ev := LineEvents(decode);
    var content := "";
    var buffer := "";
    for k := 0 to |chunks|
      invariant StateToBreak(chunks[..k], ev) == (Some(content), buffer)
    {
      BreakStep(chunks, k, ev);
      buffer := buffer + chunks[k];
      var failed;
      content, buffer, failed := DrainUntilBreak(content, buffer, decode);
      if failed {
        FailedStaysFailed(chunks, k + 1, ev);
        return Aborted;
      }
    }
    assert chunks[..|chunks|] == chunks;
    return Completed(content);
  }

  /** One more chunk in the second variant: a live state drains the buffer with the chunk
      appended, a failed one stays as it is. */
  lemma BreakStep(chunks: seq<string>, k: nat, ev: string -> Event)
    requires k < |chunks|
    ensures var (c, buffer) := StateToBreak(chunks[..k], ev);
            StateToBreak(chunks[..k + 1], ev) ==
              if c.Some? then DrainToBreak(c.value, buffer + chunks[k], ev) else (c, buffer)
  {
    assert chunks[..k + 1][..k] == chunks[..k];
  }

  /** In the second variant, a stream failed after k chunks is failed after all of them. */
  lemma {:induction false} FailedStaysFailed(chunks: seq<string>, k: nat, ev: string -> Event)
    requires k <= |chunks| && StateToBreak(chunks[..k], ev).0.None?
    ensures StateToBreak(chunks, ev).0.None?
    decreases |chunks| - k
  {
    if k < |chunks| {
      assert chunks[..k + 1][..k] == chunks[..k];
      FailedStaysFailed(chunks, k + 1, ev);
    } else {
      assert chunks[..k] == chunks;
    }
  }

  /** Without a "[DONE]" line the draining of the second variant feeds every complete line. */
  lemma {:induction false} DrainToBreakFeeds(c: string, buffer: string, ev: string -> Event)
    requires forall k :: 0 <= k < |Lines(buffer)| ==> ev(Lines(buffer)[k]) != Done
    ensures var (r, rest) := DrainToBreak(c, buffer, ev);
            FeedAll(Going(c), Lines(buffer), ev) == (if r.Some? then Going(r.value) else Failed) &&
            (r.Some? ==> rest == Pending(buffer))
    decreases |buffer|
  {
    var idx := Find(buffer, "\n");
    if idx >= 0 {
      var line, rest := buffer[..idx], buffer[idx + 1..];
      assert Lines(buffer) == [line] + Lines(rest);
      assert ([line] + Lines(rest))[1..] == Lines(rest);
      assert Lines(buffer)[0] == line;
      forall k | 0 <= k < |Lines(rest)| ensures ev(Lines(rest)[k]) != Done {
        assert Lines(rest)[k] == Lines(buffer)[k + 1];
      }
      match ev(line)
      case Fail => FeedAllStuck(Failed, Lines(rest), ev);
      case Ignore => DrainToBreakFeeds(c, rest, ev);
      case Append(s) => DrainToBreakFeeds(c + s, rest, ev);
    } else {
      NoNewlineNoLines(buffer);
    }
  }

  /** On a stream with no "[DONE]" line, the two variants write the same text. */
  lemma VariantsAgreeWithoutDone(chunks: seq<string>, ev: string -> Event)
    requires forall k :: 0 <= k < |Lines(Concat(chunks))| ==> ev(Lines(Concat(chunks))[k]) != Done
    ensures var (r, rest) := StateToBreak(chunks, ev);
            FeedAll(Going([]), Lines(Concat(chunks)), ev) == (if r.Some? then Going(r.value) else Failed) &&
            (r.Some? ==> rest == Pending(Concat(chunks)))
    ensures OptionOutcome(StateToBreak(chunks, ev).0) == ToOutcome(StateToDone(chunks, ev).0)
  {
    BreakFeedsAll(chunks, ev);
    StateToDoneFeeds(chunks, ev);
  }

  /** Without a "[DONE]" line, the second variant has fed every complete line received so
      far and keeps the pending text in its buffer. */
  lemma {:induction false} BreakFeedsAll(chunks: seq<string>, ev: string -> Event)
    requires forall k :: 0 <= k < |Lines(Concat(chunks))| ==> ev(Lines(Concat(chunks))[k]) != Done
    ensures var (r, rest) := StateToBreak(chunks, ev);
            FeedAll(Going([]), Lines(Concat(chunks)), ev) == (if r.Some? then Going(r.value) else Failed) &&
            (r.Some? ==> rest == Pending(Concat(chunks)))
    decreases |chunks|
  {
    if chunks == [] {
      NoNewlineNoLines([]);
    } else {
      var front, last := chunks[..|chunks| - 1], chunks[|chunks| - 1];
      var f := Concat(front);
      LinesAppend(f, last);
      assert Lines(Concat(chunks)) == Lines(f) + Lines(Pending(f) + last);
      forall k | 0 <= k < |Lines(f)| ensures ev(Lines(f)[k]) != Done {
        assert Lines(f)[k] == Lines(Concat(chunks))[k];
      }
      BreakFeedsAll(front, ev);
      BreakFeedsStep(chunks, ev);
    }
  }

  /** The inductive step of BreakFeedsAll: one more chunk. */
  lemma BreakFeedsStep(chunks: seq<string>, ev: string -> Event)
    requires chunks != []
    requires forall k :: 0 <= k < |Lines(Concat(chunks))| ==> ev(Lines(Concat(chunks))[k]) != Done
    requires var (r, rest) := StateToBreak(chunks[..|chunks| - 1], ev);
             var f := Concat(chunks[..|chunks| - 1]);
             FeedAll(Going([]), Lines(f), ev) == (if r.Some? then Going(r.value) else Failed) &&
             (r.Some? ==> rest == Pending(f))
    ensures var (r, rest) := StateToBreak(chunks, ev);
            FeedAll(Going([]), Lines(Concat(chunks)), ev) == (if r.Some? then Going(r.value) else Failed) &&
            (r.Some? ==> rest == Pending(Concat(chunks)))
  {
    var front, last := chunks[..|chunks| - 1], chunks[|chunks| - 1];
    var f := Concat(front);
    LinesAppend(f, last);
    var tail := Lines(Pending(f) + last);
    assert Lines(Concat(chunks)) == Lines(f) + tail;
    forall k | 0 <= k < |tail| ensures ev(tail[k]) != Done {
      assert tail[k] == Lines(Concat(chunks))[|Lines(f)| + k];
    }
    FeedAllAppend(Going([]), Lines(f), tail, ev);
    var (c, buffer) := StateToBreak(front, ev);
    if c.Some? {
      DrainToBreakFeeds(c.value, buffer + last, ev);
    } else {
      FeedAllStuck(Failed, tail, ev);
    }
  }

  /** Where the variants part: a "[DONE]" line followed, in the same chunk, by a data line.
      The first variant stops at "[DONE]"; the second one leaves the data line buffered and
      appends its delta when another chunk (here an empty one) arrives. Without that chunk
      the delta is lost. */
  lemma DoneOnlyLeavesLineLoop(done: string, data: string, s: string, ev: string -> Event)
    requires !Contains(done, "\n") && !Contains(data, "\n")
    requires ev(done) == Done && ev(data) == Append(s)
    ensures ToOutcome(StateToDone([done + "\n" + data + "\n"], ev).0) == Completed([])
    ensures OptionOutcome(StateToBreak([done + "\n" + data + "\n"], ev).0) == Completed([])
    ensures OptionOutcome(StateToBreak([done + "\n" + data + "\n", []], ev).0) == Completed(s)
  {
    var chunk := done + "\n" + data + "\n";
    var one := [chunk];
    assert one[..0] == [];
    assert [] + chunk == chunk;
    FindAfterFree(done, data + "\n", "\n");
    assert chunk == done + "\n" + (data + "\n");
    assert chunk[..|done|] == done;
    var rest := chunk[|done| + 1..];
    assert rest == data + "\n";
    assert DrainToBreak([], chunk, ev) == (Some([]), rest);
    assert StateToBreak(one, ev) == (Some([]), rest);
    assert DrainToDone([], chunk, ev).0 == Finished([]);
    var two := [chunk, []];
    assert two[..1] == one;
    assert rest + [] == rest;
    FindAfterFree(data, [], "\n");
    assert rest == data + "\n" + [];
    assert rest[..|data|] == data && rest[|data| + 1..] == [];
    NoNewlineNoLines([]);
    assert DrainToBreak(s, [], ev) == (Some(s), []);
    assert [] + s == s;
    assert DrainToBreak([], rest, ev) == (Some(s), []);
  }

  // ------------------------------------------------------- the prompt's README excerpt

  /** The README excerpt shown in the prompt preview: a text of at most 100 characters
      whole, else its first 50, a "\n...\n" marker and its last 50. */
  function Snippet(fullText: string): (r: string)
    ensures |fullText| <= 100 ==> r == fullText
    ensures |fullText| > 100 ==>
              |r| == 105 && r[..50] == fullText[..50] && r[50..55] == "\n...\n" &&
              r[55..] == fullText[|fullText| - 50..]
  {
    if |fullText| <= 100 then fullText else fullText[..50] + "\n...\n" + fullText[|fullText| - 50..]
  }
}
