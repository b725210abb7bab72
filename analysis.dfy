/** The completion analysis of an issue after Codex ran: how the model's reply is cut down
    to the JSON text, how missing keys are defaulted, and when the issue is closed. The
    JSON parser is an oracle: decode(text) is None when json.loads raises. */
module Analysis {
  import opened Text

  // ------------------------------------------- grepo2_3.6.py: the outermost brace block

  /** analyze_issue_completion in grepo2_3.6.py: the text from the first '{' through the
      last '}', or None (the raw-text fallback) when no '}' follows the first '{'. */
  function JsonBlock(text: string): (r: Option<string>)
    ensures r.Some? ==> |r.value| >= 2 && r.value[0] == '{' && r.value[|r.value| - 1] == '}'
  {
    var start := Find(text, "{");
    var end := RFind(text, "}") + 1;
    if start >= 0 && end > start then Some(text[start..end]) else None
  }

  lemma OccursChar(s: string, c: char, k: int)
    ensures OccursAt(s, [c], k) <==> 0 <= k < |s| && s[k] == c
  {
    if 0 <= k < |s| {
      assert s[k..k + 1] == [s[k]];
    }
  }

  /** The block is found exactly when some '}' comes after some '{'. */
  lemma JsonBlockFound(text: string)
    ensures JsonBlock(text).Some? <==>
            exists i, j :: 0 <= i < j < |text| && text[i] == '{' && text[j] == '}'
  {
    var start := Find(text, "{");
    var last := RFind(text, "}");
    if JsonBlock(text).Some? {
      OccursChar(text, '{', start);
      OccursChar(text, '}', last);
      assert 0 <= start < last < |text| && text[start] == '{' && text[last] == '}';
    }
    if exists i, j :: 0 <= i < j < |text| && text[i] == '{' && text[j] == '}' {
      var i, j :| 0 <= i < j < |text| && text[i] == '{' && text[j] == '}';
      OccursChar(text, '{', i);
      OccursChar(text, '}', j);
      assert 0 <= start <= i && j <= last;
    }
  }

  /** The block is the outermost one: it starts at a '{' with no '{' before it, and no '}'
      follows it. */
  lemma JsonBlockOutermost(text: string)
    requires JsonBlock(text).Some?
    ensures var start := Find(text, "{");
            0 <= start && start + |JsonBlock(text).value| <= |text| &&
            JsonBlock(text).value == text[start..start + |JsonBlock(text).value|] &&
            '{' !in text[..start] && '}' !in text[start + |JsonBlock(text).value|..]
  {
    var start := Find(text, "{");
    var end := RFind(text, "}") + 1;
    forall k | 0 <= k < start ensures text[k] != '{' {
      OccursChar(text, '{', k);
    }
    forall k | end <= k < |text| ensures text[k] != '}' {
      OccursChar(text, '}', k);
    }
    assert forall k :: 0 <= k < |text[..start]| ==> text[..start][k] == text[k];
    assert forall k :: 0 <= k < |text[end..]| ==> text[end..][k] == text[end + k];
  }

  /** The result of analyze_issue_completion in grepo2_3.6.py as far as the automatic
      mode uses it: success only for a 200 reply whose brace block parses and says
      issue_completed. decode gives the issue_completed field (false when missing). */
  function CompletionV1(status: nat, text: string, decode: string -> Option<bool>): (done: bool)
    ensures done <==> status == 200 && JsonBlock(text).Some? && decode(JsonBlock(text).value) == Some(true)
  {
    if status != 200 then false
    else match JsonBlock(text)
      case None => false
      case Some(block) => decode(block) == Some(true)
  }

  // ------------------------------------------------ grepo2_3.7.3.py: the ```json fence

  const Fence := "```json"
  const Ticks := "```"

  /** The text json.loads gets: between the first "```json" and the next "```" when the
      reply has a fence (as split(...)[1].split(...)[0]), else the whole reply, stripped
      either way. */
  function JsonText(response: string): (t: string)
    ensures !Contains(response, Fence) ==> t == Strip(response)
  {
    if Contains(response, Fence) then
      SplitMany(response, Fence);
      Strip(Split(Split(response, Fence)[1], Ticks)[0])
    else Strip(response)
  }

  /** The first occurrence of sep after a text without sep's first character. */
  lemma FindAfterNoChar(a: string, sep: string, y: string)
    requires |sep| > 0 && sep[0] !in a
    ensures Find(a + sep + y, sep) == |a|
  {
    var s := a + sep + y;
    assert s[|a|..|a| + |sep|] == sep;
    forall j | 0 <= j < |a| ensures !OccursAt(s, sep, j) {
      assert s[j] == a[j] && a[j] in a;
      if j + |sep| <= |s| {
        assert s[j..j + |sep|][0] == s[j];
      }
    }
    FindFirstIn(s, sep, |a|);
  }

  /** Splitting at a first occurrence found at |x|. */
  lemma SplitAtFirst(x: string, sep: string, y: string)
    requires |sep| > 0 && Find(x + sep + y, sep) == |x|
    ensures Split(x + sep + y, sep) == [x] + Split(y, sep)
  {
    var s := x + sep + y;
    assert s[..|x|] == x;
    assert s[|x| + |sep|..] == y;
  }

  /** After a backtick-free body, "```json" can only start at the closing ticks. */
  lemma FenceAfterBody(body: string, b: string)
    requires '`' !in body && '`' !in b
    ensures var i := Find(body + Ticks + b, Fence); i == -1 || i == |body|
  {
    var t := body + Ticks + b;
    forall j | 0 <= j && j != |body| ensures !OccursAt(t, Fence, j) {
      if j + 7 <= |t| {
        if j < |body| {
          assert t[j] == body[j] && body[j] in body;
        } else if j < |body| + 3 {
          assert t[|body| + 3] == b[0] && b[0] in b;
        } else {
          assert t[j] == b[j - |body| - 3] && b[j - |body| - 3] in b;
        }
      }
      NotFenceAt(t, j);
    }
  }

  /** "```json" does not start where one of its first three ticks is missing. */
  lemma NotFenceAt(t: string, j: int)
    requires 0 <= j
    requires j + 7 <= |t| ==> t[j] != '`' || t[j + 1] != '`' || t[j + 2] != '`'
    ensures !OccursAt(t, Fence, j)
  {
    if j + 7 <= |t| {
      var w := t[j..j + 7];
      assert w[0] == t[j] && w[1] == t[j + 1] && w[2] == t[j + 2];
    }
  }

  /** The part after the first fence is the text up to the next fence in the rest. */
  lemma AfterFirstFence(a: string, rest: string)
    requires '`' !in a
    ensures Contains(a + Fence + rest, Fence)
    ensures |Split(a + Fence + rest, Fence)| >= 2
    ensures Split(a + Fence + rest, Fence)[1] == Split(rest, Fence)[0]
  {
    FindAfterNoChar(a, Fence, rest);
    OccursContains(a + Fence + rest, Fence, |a|);
    SplitAtFirst(a, Fence, rest);
  }

  /** Up to the closing ticks, a backtick-free body followed by "```" is the body. */
  lemma BodyBeforeTicks(body: string, b: string)
    requires '`' !in body && '`' !in b
    ensures Split(Split(body + Ticks + b, Fence)[0], Ticks)[0] == body
  {
    var rest := body + Ticks + b;
    FenceAfterBody(body, b);
    if Find(rest, Fence) == |body| {
      assert rest == body + Fence + rest[|body| + 7..];
      SplitAtFirst(body, Fence, rest[|body| + 7..]);
      NoCharNoSplit(body, Ticks);
    } else {
      FindAfterNoChar(body, Ticks, b);
      SplitAtFirst(body, Ticks, b);
    }
  }

  /** A reply "a```json<body>```b" without other backticks yields the stripped body. */
  lemma FencedReply(a: string, body: string, b: string)
    requires '`' !in a && '`' !in body && '`' !in b
    ensures JsonText(a + Fence + (body + Ticks + b)) == Strip(body)
  {
    AfterFirstFence(a, body + Ticks + b);
    BodyBeforeTicks(body, b);
  }

  // --------------------------------------- grepo2_3.7.3.py: defaults and the close rule

  /** A value of the parsed analysis: a string or any other JSON value. */
  datatype Field = Text(s: string) | Other

  type Analysis = map<string, Field>

  const RequiredFields := ["COMPLETION_STATUS", "CONFIDENCE", "REASONS", "NEXT_STEPS", "SHOULD_CLOSE"]

  /** The parsed analysis with every required key present: missing ones are 'UNKNOWN',
      present ones are kept, and no other key is touched. */
  function WithRequired(a: Analysis): (r: Analysis)
    ensures r.Keys == a.Keys + set f | f in RequiredFields
    ensures forall k :: k in a ==> r[k] == a[k]
    ensures forall f :: f in RequiredFields && f !in a ==> r[f] == Text("UNKNOWN")
  {
    map k | k in a.Keys + (set f | f in RequiredFields) :: if k in a then a[k] else Text("UNKNOWN")
  }

  /** Defaulting twice is defaulting once. */
  lemma WithRequiredIdempotent(a: Analysis)
    ensures WithRequired(WithRequired(a)) == WithRequired(a)
  {
    var r := WithRequired(a);
    assert (set f | f in RequiredFields) <= r.Keys;
    assert WithRequired(r).Keys == r.Keys;
  }

  /** The loop over required_fields in analyze_issue_completion of grepo2_3.7.3.py. */
  method FillRequired(a: Analysis) returns (r: Analysis)
    ensures r == WithRequired(a)
  {
    r := a;
    for i := 0 to |RequiredFields|
      invariant forall k :: k in r <==> k in a || k in RequiredFields[..i]
      invariant forall k :: k in r ==> r[k] == if k in a then a[k] else Text("UNKNOWN")
    {
      var field := RequiredFields[i];
      assert RequiredFields[..i + 1] == RequiredFields[..i] + [field];
      if field !in r {
        r := r[field := Text("UNKNOWN")];
      }
    }
    assert RequiredFields[..|RequiredFields|] == RequiredFields;
    assert r.Keys == WithRequired(a).Keys;
  }

  /** The fallback for an empty or missing reply: every required key, and no close. */
  function ApiFailed(): (r: Analysis)
    ensures r.Keys == set f | f in RequiredFields
    ensures r["SHOULD_CLOSE"] == Text("NO") && r["COMPLETION_STATUS"] == Text("ERROR")
  {
    map[
      "COMPLETION_STATUS" := Text("ERROR"), "CONFIDENCE" := Text("LOW"),
      "REASONS" := Text("API call failed"), "NEXT_STEPS" := Text("Retry analysis"),
      "SHOULD_CLOSE" := Text("NO")]
  }

  /** The fallback for a reply json.loads rejects: every required key, no close, and the
      raw reply kept. */
  function Unparsable(response: string): (r: Analysis)
    ensures r.Keys == (set f | f in RequiredFields) + {"raw_response"}
    ensures r["SHOULD_CLOSE"] == Text("NO") && r["raw_response"] == Text(response)
  {
    map[
      "COMPLETION_STATUS" := Text("NEEDS_CLARIFICATION"), "CONFIDENCE" := Text("LOW"),
      "REASONS" := Text("JSON Parse Error in AI Response"), "NEXT_STEPS" := Text("Manual review required"),
      "SHOULD_CLOSE" := Text("NO"), "raw_response" := Text(response)]
  }

  /** What json.loads returns, as far as the defaulting loop cares: an object, or any
      other JSON value (a list, a string, a number, true, false or null). */
  datatype Json = Object(fields: Analysis) | NotObject

  /** How the analysis ends: a result, or an exception that escapes it. The defaulting loop
      indexes the value as a dict, which raises TypeError for anything but an object, and
      only JSONDecodeError is caught. */
  datatype Outcome = Analyzed(analysis: Analysis) | Raises

  /** analyze_issue_completion of grepo2_3.7.3.py: a missing or empty reply gives the API
      failure result, an unparsable one the clarification result, a parsed object is
      completed with the required keys, and any other JSON value raises. */
  function AnalyzeV2(response: Option<string>, decode: string -> Option<Json>): (r: Outcome)
    ensures r.Analyzed? ==> forall f :: f in RequiredFields ==> f in r.analysis
    ensures r.Raises? <==> response.Some? && response.value != [] && decode(JsonText(response.value)) == Some(NotObject)
  {
    if response.None? || response.value == [] then Analyzed(ApiFailed())
    else match decode(JsonText(response.value))
      case None => Analyzed(Unparsable(response.value))
      case Some(NotObject) => Raises
      case Some(Object(a)) => Analyzed(WithRequired(a))
  }

  /** The close decision of execute_codex_for_issue in grepo2_3.7.3.py. A key the
      defaulting filled in ('UNKNOWN') never closes. */
  predicate ShouldCloseV2(a: Analysis): (b: bool)
    ensures b ==> "SHOULD_CLOSE" in a && a["SHOULD_CLOSE"] != Text("UNKNOWN")
    ensures b ==> "COMPLETION_STATUS" in a && a["COMPLETION_STATUS"] != Text("UNKNOWN")
  {
    "SHOULD_CLOSE" in a && a["SHOULD_CLOSE"] == Text("YES") &&
    "COMPLETION_STATUS" in a && a["COMPLETION_STATUS"] == Text("COMPLETE")
  }

  /** The close decision is YES only when the model's own JSON object said SHOULD_CLOSE
      'YES' and COMPLETION_STATUS 'COMPLETE'; both fallbacks and every defaulted key say
      NO, and a non-object reply raises before any decision. */
  lemma CloseOnlyOnParsedYes(response: Option<string>, decode: string -> Option<Json>)
    ensures var r := AnalyzeV2(response, decode);
            (r.Analyzed? && ShouldCloseV2(r.analysis)) <==>
            response.Some? && response.value != [] && decode(JsonText(response.value)).Some? &&
            decode(JsonText(response.value)).value.Object? &&
            ShouldCloseV2(decode(JsonText(response.value)).value.fields)
  {
    assert ApiFailed()["SHOULD_CLOSE"] == Text("NO");
    if response.Some? && response.value != [] {
      assert Unparsable(response.value)["SHOULD_CLOSE"] == Text("NO");
    }
  }

  // ------------------------------------------- grepo2_3.7.4.py: completed and confidence

  /** The two fields the close rule reads, as analysis.get gives them: completed as Python
      truthiness (False when missing) and confidence (0 when missing). */
  datatype Verdict = Verdict(completed: bool, confidence: int)

  /** How the analysis request ended: no OpenRouter token, an exception, or a reply. */
  datatype Reply = NoToken | Raised | Answered(status: nat, content: string)

  /** The guess made from a reply that is not JSON: completed when it mentions both "true"
      and "completed", confidence 75 when it mentions "completed" and 25 otherwise. */
  function Guess(content: string): (v: Verdict)
    ensures v.confidence == 75 || v.confidence == 25
    ensures v.completed ==> v.confidence == 75
  {
    var low := Lower(content);
    Verdict(Contains(low, "true") && Contains(low, "completed"), if Contains(low, "completed") then 75 else 25)
  }

  /** analyze_issue_completion of grepo2_3.7.4.py. */
  function AnalyzeV3(reply: Reply, decode: string -> Option<Verdict>): (v: Verdict)
    ensures !(reply.Answered? && reply.status == 200) ==> v == Verdict(false, 0)
    ensures reply.Answered? && reply.status == 200 && decode(reply.content).None? ==> v == Guess(reply.content)
    ensures reply.Answered? && reply.status == 200 && decode(reply.content).Some? ==> v == decode(reply.content).value
  {
    match reply
    case NoToken => Verdict(false, 0)
    case Raised => Verdict(false, 0)
    case Answered(status, content) =>
      if status != 200 then Verdict(false, 0)
      else match decode(content)
        case Some(v) => v
        case None => Guess(content)
  }

  /** The close rule of execute_codex_for_issue in grepo2_3.7.4.py. */
  predicate ShouldCloseV3(v: Verdict): (b: bool)
    ensures b ==> v.completed && v.confidence > 75
  {
    v.completed && v.confidence >= 80
  }

  /** Only a parsed JSON answer can close an issue: no token, errors and the non-JSON
      guess all stay below the threshold. */
  lemma CloseOnlyOnParsedAnswer(reply: Reply, decode: string -> Option<Verdict>)
    ensures ShouldCloseV3(AnalyzeV3(reply, decode)) <==>
            reply.Answered? && reply.status == 200 && decode(reply.content).Some? &&
            ShouldCloseV3(decode(reply.content).value)
  {
  }
}
