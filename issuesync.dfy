/** Posting the parsed roadmap records to the GitHub issues endpoint. The server is an
    oracle: request k (counted from 0) carrying record r gets the response server(k, r),
    so successive requests may be answered differently. */
module IssueSync {
  import opened Text
  import opened Roadmap

  /** A reply of the issues endpoint, as far as the loops look at it: the status code, the
      "number" and "html_url" keys of its JSON body when present, and its raw text. A
      request that raises (connection error, timeout) is Raised. */
  datatype Response =
    | Raised(message: string)
    | Reply(status: nat, number: Option<nat>, htmlUrl: Option<string>, text: string)

  predicate IsCreated(resp: Response) {
    resp.Reply? && resp.status == 201
  }

  // ---------------------------------------------- grepo2_3.5.py: the unchecked loop

  /** How many requests the loop of grepo2_3.5.py sends: all of them, or up to and
      including the first one that raises, since nothing catches the exception. */
  function RequestsSent(issues: seq<IssueRecord>, server: (nat, IssueRecord) -> Response, from: nat): (n: nat)
    requires from <= |issues|
    ensures from <= n <= |issues|
    ensures forall k :: from <= k < n - 1 ==> !server(k, issues[k]).Raised?
    ensures n < |issues| ==> n > from && server(n - 1, issues[n - 1]).Raised?
    decreases |issues| - from
  {
    if from == |issues| then from
    else if server(from, issues[from]).Raised? then from + 1
    else RequestsSent(issues, server, from + 1)
  }

  /** The number of the first n requests answered with 201. */
  function CountCreated(issues: seq<IssueRecord>, server: (nat, IssueRecord) -> Response, n: nat): (c: nat)
    requires n <= |issues|
    ensures c <= n
  {
    if n == 0 then 0
    else CountCreated(issues, server, n - 1) + (if IsCreated(server(n - 1, issues[n - 1])) then 1 else 0)
  }

  /** The posting loop of tui_setup_github_project in grepo2_3.5.py: no token means nothing
      is posted; otherwise every record is posted once, in order, and only 201 counts as
      created; a raising request ends the loop with the exception. */
  method PostIssuesUnchecked(hasToken: bool, issues: seq<IssueRecord>, server: (nat, IssueRecord) -> Response)
    returns (posted: seq<IssueRecord>, created: nat, raised: bool)
    ensures !hasToken ==> posted == [] && created == 0 && !raised
    ensures hasToken ==> posted == issues[..RequestsSent(issues, server, 0)]
    ensures hasToken ==> (raised <==> exists k :: 0 <= k < |issues| && server(k, issues[k]).Raised?)
    ensures created == CountCreated(issues, server, |posted|)
    ensures created <= |posted| <= |issues|
  {
    posted, created, raised := [], 0, false;
    if !hasToken {
      return;
    }
    var k := 0;
    while k < |issues|
      invariant 0 <= k <= |issues|
      invariant posted == issues[..k]
      invariant created == CountCreated(issues, server, k)
      invariant forall j :: 0 <= j < k ==> !server(j, issues[j]).Raised?
      invariant RequestsSent(issues, server, 0) == RequestsSent(issues, server, k)
    {
      PostStep(issues, server, k);
      var resp := server(k, issues[k]);
      posted := posted + [issues[k]];
      if resp.Raised? {
        raised := true;
        assert issues[..k + 1] == posted;
        return;
      }
      if resp.status == 201 {
        created := created + 1;
      }
      k := k + 1;
    }
    assert issues[..k] == issues;
  }

  /** One more request: it adds one to the count when answered with 201, ends the loop when
      it raises, and otherwise leaves the number of requests still to be sent as it was. */
  lemma PostStep(issues: seq<IssueRecord>, server: (nat, IssueRecord) -> Response, k: nat)
    requires k < |issues|
    ensures CountCreated(issues, server, k + 1) ==
            CountCreated(issues, server, k) + (if IsCreated(server(k, issues[k])) then 1 else 0)
    ensures server(k, issues[k]).Raised? ==> RequestsSent(issues, server, k) == k + 1
    ensures !server(k, issues[k]).Raised? ==> RequestsSent(issues, server, k) == RequestsSent(issues, server, k + 1)
  {
  }

  /** Counting is monotone: created never drops as more replies arrive. */
  lemma {:induction false} CountCreatedMonotone(issues: seq<IssueRecord>, server: (nat, IssueRecord) -> Response, m: nat, n: nat)
    requires m <= n <= |issues|
    ensures CountCreated(issues, server, m) <= CountCreated(issues, server, n)
    ensures CountCreated(issues, server, n) - CountCreated(issues, server, m) <= n - m
    decreases n - m
  {
    if m < n {
      CountCreatedMonotone(issues, server, m, n - 1);
    }
  }

  // ------------------------------------ grepo2_3.7.4.4.py and tuitest: create_issue

  /** The JSON payload of create_issue: "labels" is only sent for a non-empty label list. */
  datatype Payload = Payload(title: string, body: string, labels: Option<seq<string>>)

  function PayloadOf(rec: IssueRecord): (p: Payload)
    ensures p.title == rec.title && p.body == rec.body
    ensures p.labels.None? <==> rec.labels == []
    ensures p.labels.Some? ==> p.labels.value == rec.labels
  {
    Payload(rec.title, rec.body, if rec.labels == [] then None else Some(rec.labels))
  }

  /** GitHubAPI.create_issue: every exception becomes (False, message). A 201 reply whose
      body lacks "number" or "html_url" raises a KeyError inside the try, whose text is
      the quoted key. */
  function CreateIssue(resp: Response): (r: (bool, string))
    ensures r.0 <==> IsCreated(resp) && resp.number.Some? && resp.htmlUrl.Some?
    ensures resp.Raised? ==> r.1 == resp.message
  {
    match resp
    case Raised(m) => (false, m)
    case Reply(status, number, htmlUrl, text) =>
      if status == 201 then
        if number.None? then (false, "'number'")
        else if htmlUrl.None? then (false, "'html_url'")
        else (true, "Issue #" + NatToString(number.value) + " erstellt: " + htmlUrl.value)
      else (false, "HTTP " + NatToString(status) + ": " + text)
  }

  /** A non-201 reply reports its status, which can be read back from the message. */
  lemma FailedReplyMessage(status: nat, number: Option<nat>, htmlUrl: Option<string>, text: string)
    requires status != 201
    ensures var r := CreateIssue(Reply(status, number, htmlUrl, text));
            !r.0 && StartsWith(r.1, "HTTP ") &&
            DecimalValue(r.1[5..5 + |NatToString(status)|]) == status
  {
    var r := CreateIssue(Reply(status, number, htmlUrl, text));
    var d := NatToString(status);
    assert r.1 == "HTTP " + d + ": " + text;
    assert r.1[5..5 + |d|] == d;
    DecimalRoundTrip(status);
  }

  /** A successful reply's message carries the issue number and its URL. */
  lemma CreatedMessage(number: nat, url: string, text: string)
    ensures var r := CreateIssue(Reply(201, Some(number), Some(url), text));
            r.0 && EndsWith(r.1, url) && DecimalValue(r.1[7..7 + |NatToString(number)|]) == number
  {
    var d := NatToString(number);
    var m := "Issue #" + d + " erstellt: " + url;
    assert m[7..7 + |d|] == d;
    assert m[|m| - |url|..] == url;
    DecimalRoundTrip(number);
  }

  /** The number of successes among the first n results. */
  function CountOk(results: seq<(bool, string)>): (c: nat)
    ensures c <= |results|
  {
    if results == [] then 0
    else CountOk(results[..|results| - 1]) + (if results[|results| - 1].0 then 1 else 0)
  }

  /** The posting loop of tui_setup_github_project in grepo2_3.7.4.4.py and of
      modern_setup_github_project in grepo2_3.7.3.4.5-tuitest.py: each record is posted once,
      in order, and counted either as created or as failed. */
  method PostIssuesCounted(issues: seq<IssueRecord>, server: (nat, IssueRecord) -> Response)
    returns (created: nat, failed: nat, results: seq<(bool, string)>)
    ensures |results| == |issues|
    ensures forall k :: 0 <= k < |issues| ==> results[k] == CreateIssue(server(k, issues[k]))
    ensures created == CountOk(results)
    ensures created + failed == |issues|
  {
    created, failed, results := 0, 0, [];
    for k := 0 to |issues|
      invariant |results| == k
      invariant forall j :: 0 <= j < k ==> results[j] == CreateIssue(server(j, issues[j]))
      invariant created == CountOk(results)
      invariant created + failed == k
    {
      var r := CreateIssue(server(k, issues[k]));
      assert (results + [r])[..k] == results;
      results := results + [r];
      if r.0 {
        created := created + 1;
      } else {
        failed := failed + 1;
      }
    }
  }

  /** The created count of the loop is the number of requests answered by 201 with both
      keys present. */
  lemma {:induction false} CountOkIsCreated(results: seq<(bool, string)>, issues: seq<IssueRecord>, server: (nat, IssueRecord) -> Response)
    requires |results| <= |issues|
    requires forall k :: 0 <= k < |results| ==> results[k] == CreateIssue(server(k, issues[k]))
    ensures CountOk(results) == CountCreatedComplete(issues, server, |results|)
    decreases |results|
  {
    if results != [] {
      CountOkIsCreated(results[..|results| - 1], issues, server);
    }
  }

  /** The number of the first n requests answered by 201 with "number" and "html_url". */
  function CountCreatedComplete(issues: seq<IssueRecord>, server: (nat, IssueRecord) -> Response, n: nat): (c: nat)
    requires n <= |issues|
    ensures c <= CountCreated(issues, server, n)
  {
    if n == 0 then 0
    else
      var resp := server(n - 1, issues[n - 1]);
      CountCreatedComplete(issues, server, n - 1) +
      (if IsCreated(resp) && resp.number.Some? && resp.htmlUrl.Some? then 1 else 0)
  }
}
