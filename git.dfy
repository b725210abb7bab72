/** The decisions taken around git and the GitHub repository list: reading owner and name
    off a remote URL, parsing `git log` and `git status` output, the clone guard and token
    splice, the clean/dirty rule, the repository order and the size text. git itself is an
    oracle: its output arrives as a string, its success as a flag. */
module Git {
  import opened Text

  // ------------------------------------------------------------ shared: keep-and-convert

  /** The elements f accepts, converted by f, in their original order. */
  function FilterMap<A, B>(f: A -> Option<B>, s: seq<A>): (r: seq<B>)
    ensures |r| <= |s|
  {
    if s == [] then []
    else FilterMap(f, s[..|s| - 1]) + (if f(s[|s| - 1]).Some? then [f(s[|s| - 1]).value] else [])
  }

  /** Order is kept: the results for a + b are those for a followed by those for b. */
  lemma {:induction false} FilterMapAppend<A, B>(f: A -> Option<B>, a: seq<A>, b: seq<A>)
    ensures FilterMap(f, a + b) == FilterMap(f, a) + FilterMap(f, b)
    decreases |b|
  {
    if b == [] {
      assert a + b == a;
    } else {
      var b' := b[..|b| - 1];
      assert (a + b)[..|a + b| - 1] == a + b';
      assert (a + b)[|a + b| - 1] == b[|b| - 1];
      FilterMapAppend(f, a, b');
    }
  }

  /** One more element adds its conversion, if any, at the end. */
  lemma FilterMapStep<A, B>(f: A -> Option<B>, s: seq<A>, k: nat)
    requires k < |s|
    ensures FilterMap(f, s[..k + 1]) ==
            FilterMap(f, s[..k]) + (if f(s[k]).Some? then [f(s[k]).value] else [])
  {
    assert s[..k + 1][..k] == s[..k];
  }

  /** A result is exactly the conversion of some accepted element. */
  lemma {:induction false} FilterMapMember<A, B>(f: A -> Option<B>, s: seq<A>, y: B)
    ensures y in FilterMap(f, s) <==> exists i :: 0 <= i < |s| && f(s[i]) == Some(y)
    decreases |s|
  {
    if s != [] {
      var s' := s[..|s| - 1];
      FilterMapMember(f, s', y);
      if exists i :: 0 <= i < |s'| && f(s'[i]) == Some(y) {
        var i :| 0 <= i < |s'| && f(s'[i]) == Some(y);
        assert s[i] == s'[i];
      }
      if exists i :: 0 <= i < |s| && f(s[i]) == Some(y) {
        var i :| 0 <= i < |s| && f(s[i]) == Some(y);
        if i < |s'| {
          assert s'[i] == s[i];
        }
      }
    }
  }

  // --------------------------------------------- grepo2_3.7.3.py: _extract_repo_info

  /** The remote URL with one trailing ".git" removed. */
  function WithoutGitSuffix(url: string): (r: string)
    ensures EndsWith(url, ".git") ==> r + ".git" == url
    ensures !EndsWith(url, ".git") ==> r == url
  {
    if EndsWith(url, ".git") then url[..|url| - 4] else url
  }

  /** _extract_repo_info of grepo2_3.7.3.py on the remote URL get_repo_info reports (None
      when there is no repository or no remote): only URLs containing "github.com" are
      read, and owner and repository are the last two '/'-separated parts. */
  function RepoInfo(remote: Option<string>): (r: Option<(string, string)>)
    ensures r.Some? ==> remote.Some? && Contains(remote.value, "github.com")
    ensures r.Some? ==> !Contains(r.value.0, "/") && !Contains(r.value.1, "/")
    ensures remote.Some? && Contains(remote.value, "github.com") ==>
              (r.Some? <==> Contains(WithoutGitSuffix(remote.value), "/"))
  {
    if remote.None? || !Contains(remote.value, "github.com") then None
    else
      var parts := Split(WithoutGitSuffix(remote.value), "/");
      SplitMany(WithoutGitSuffix(remote.value), "/");
      if |parts| >= 2 then Some((parts[|parts| - 2], parts[|parts| - 1])) else None
  }

  /** A GitHub URL made of '/'-free parts, optionally followed by ".git", gives its last two
      parts as (owner, repo). */
  lemma RepoInfoOfUrl(parts: seq<string>, suffix: string)
    requires |parts| >= 2 && forall k :: 0 <= k < |parts| ==> !Contains(parts[k], "/")
    requires Contains(Join(parts, "/"), "github.com")
    requires suffix == ".git" || (suffix == "" && !EndsWith(Join(parts, "/"), ".git"))
    ensures RepoInfo(Some(Join(parts, "/") + suffix)) == Some((parts[|parts| - 2], parts[|parts| - 1]))
  {
    SplitJoin(parts, "/");
    RepoInfoWithSuffix(Join(parts, "/"), suffix, parts);
  }

  lemma RepoInfoWithSuffix(url: string, suffix: string, parts: seq<string>)
    requires Contains(url, "github.com") && Split(url, "/") == parts && |parts| >= 2
    requires suffix == ".git" || (suffix == "" && !EndsWith(url, ".git"))
    ensures RepoInfo(Some(url + suffix)) == Some((parts[|parts| - 2], parts[|parts| - 1]))
  {
    ContainsAppend(url, suffix, "github.com");
    UrlWithSuffix(url, suffix);
    RepoInfoOfParts(url + suffix, url, parts);
  }

  lemma RepoInfoOfParts(remote: string, url: string, parts: seq<string>)
    requires Contains(remote, "github.com") && WithoutGitSuffix(remote) == url
    requires Split(url, "/") == parts && |parts| >= 2
    ensures RepoInfo(Some(remote)) == Some((parts[|parts| - 2], parts[|parts| - 1]))
  {
  }

  lemma UrlWithSuffix(url: string, suffix: string)
    requires suffix == ".git" || (suffix == "" && !EndsWith(url, ".git"))
    ensures WithoutGitSuffix(url + suffix) == url
  {
    if suffix == ".git" {
      assert (url + suffix)[|url|..] == ".git";
    } else {
      assert url + suffix == url;
    }
  }

  // --------------------------------------------- grepo2_3.7.3.py: get_recent_commits

  /** One line of `git log --pretty=format:%h|%s|%an|%ad`. */
  datatype Commit = Commit(hash: string, message: string, author: string, date: string)

  /** A line is kept when it contains '|' and splits into exactly four fields. */
  function CommitOf(line: string): (c: Option<Commit>)
    ensures c.Some? <==> |Split(line, "|")| == 4
    ensures c.Some? ==> Join([c.value.hash, c.value.message, c.value.author, c.value.date], "|") == line
    ensures c.Some? ==> !Contains(c.value.hash, "|") && !Contains(c.value.message, "|") &&
                        !Contains(c.value.author, "|") && !Contains(c.value.date, "|")
  {
    var parts := Split(line, "|");
    SplitMany(line, "|");
    JoinSplit(line, "|");
    if Contains(line, "|") && |parts| == 4 then
      assert parts == [parts[0], parts[1], parts[2], parts[3]];
      Some(Commit(parts[0], parts[1], parts[2], parts[3]))
    else None
  }

  /** The parse of one line in terms of the checks get_recent_commits makes. */
  lemma CommitOfFields(line: string)
    ensures var parts := Split(line, "|");
            CommitOf(line) ==
              if Contains(line, "|") && |parts| == 4 then Some(Commit(parts[0], parts[1], parts[2], parts[3]))
              else None
  {
  }

  /** A commit whose fields hold no '|' is read back from its own log line. */
  lemma CommitRoundTrip(c: Commit)
    requires !Contains(c.hash, "|") && !Contains(c.message, "|")
    requires !Contains(c.author, "|") && !Contains(c.date, "|")
    ensures CommitOf(Join([c.hash, c.message, c.author, c.date], "|")) == Some(c)
  {
    var fields := [c.hash, c.message, c.author, c.date];
    assert forall k :: 0 <= k < |fields| ==> !Contains(fields[k], "|");
    SplitJoin(fields, "|");
  }

  /** The commits of the given log lines, in order. */
  function Commits(lines: seq<string>): (r: seq<Commit>) {
    FilterMap(CommitOf, lines)
  }

  /** get_recent_commits of grepo2_3.7.3.py: a failing git yields no commits; otherwise the
      stripped output is split into lines and each line is parsed in turn. */
  method RecentCommits(ok: bool, stdout: string) returns (commits: seq<Commit>)
    ensures !ok ==> commits == []
    ensures ok ==> commits == Commits(Split(Strip(stdout), "\n"))
  {
    commits := [];
    if ok {
      commits := ParseLog(Split(Strip(stdout), "\n"));
    }
  }

  /** The loop of get_recent_commits over the output lines. */
  method ParseLog(lines: seq<string>) returns (commits: seq<Commit>)
    ensures commits == Commits(lines)
  {
    commits := [];
    for k := 0 to |lines|
      invariant commits == FilterMap(CommitOf, lines[..k])
    {
      FilterMapStep(CommitOf, lines, k);
      var line := lines[k];
      CommitOfFields(line);
      if Contains(line, "|") {
        var parts := Split(line, "|");
        if |parts| == 4 {
          commits := commits + [Commit(parts[0], parts[1], parts[2], parts[3])];
        }
      }
    }
    assert lines[..|lines|] == lines;
  }

  /** A commit is listed exactly when some log line parses to it. */
  lemma CommitListed(lines: seq<string>, c: Commit)
    ensures c in Commits(lines) <==> exists i :: 0 <= i < |lines| && CommitOf(lines[i]) == Some(c)
    ensures c in Commits(lines) ==> !Contains(c.message, "|")
  {
    FilterMapMember(CommitOf, lines, c);
  }

  // ---------------------- grepo2_3.6.py: the git status lines of monitor_file_changes

  /** A change reported by `git status`. */
  datatype Change = Modified(path: string) | Added(path: string) | Deleted(path: string)

  /** The text after the first ':' of a line, as line.split(':', 1)[1]; the lines it is
      applied to start with a prefix ending in ':'. */
  function AfterColon(line: string): (r: string)
    requires Contains(line, ":")
    ensures |r| < |line|
    ensures exists head :: line == head + ":" + r && !Contains(head, ":")
  {
    var parts := SplitOnce(line, ":");
    assert line == parts.value.0 + ":" + parts.value.1;
    parts.value.1
  }

  /** The classification of one line of the status text. */
  function ChangeOf(line: string): (c: Option<Change>)
    ensures c.Some? ==> |c.value.path| < |line|
    ensures c.Some? ==> Trimmed(c.value.path)
  {
    var t := Strip(line);
    if StartsWith(t, "modified:") then
      PrefixContainsColon(t, "modified:");
      Some(Modified(PathOf(t)))
    else if StartsWith(t, "new file:") then
      PrefixContainsColon(t, "new file:");
      Some(Added(PathOf(t)))
    else if StartsWith(t, "deleted:") then
      PrefixContainsColon(t, "deleted:");
      Some(Deleted(PathOf(t)))
    else None
  }

  /** The path of a status line: the text after its first ':', stripped. */
  function PathOf(t: string): (p: string)
    requires Contains(t, ":")
    ensures |p| < |t|
    ensures Trimmed(p)
  {
    var a := AfterColon(t);
    var p := Strip(a);
    assert Trimmed(p);
    p
  }

  /** A line without ':' starts with none of the three status prefixes. */
  lemma PrefixNoColon(t: string)
    requires !Contains(t, ":")
    ensures !StartsWith(t, "modified:") && !StartsWith(t, "new file:") && !StartsWith(t, "deleted:")
  {
    if StartsWith(t, "modified:") { PrefixContainsColon(t, "modified:"); }
    if StartsWith(t, "new file:") { PrefixContainsColon(t, "new file:"); }
    if StartsWith(t, "deleted:") { PrefixContainsColon(t, "deleted:"); }
  }

  lemma PrefixContainsColon(t: string, p: string)
    requires |p| > 0 && p[|p| - 1] == ':' && StartsWith(t, p)
    ensures Contains(t, ":")
  {
    assert t[|p| - 1..|p|] == [p[|p| - 1]];
    OccursContains(t, ":", |p| - 1);
  }

  /** When the prefix's only ':' is its last character, the text after the first ':' is
      the text after the prefix. */
  lemma AfterPrefix(t: string, p: string)
    requires |p| > 0 && p[|p| - 1] == ':' && ':' !in p[..|p| - 1] && StartsWith(t, p)
    ensures Contains(t, ":") && AfterColon(t) == t[|p|..]
  {
    var head := p[..|p| - 1];
    NoCharNoSplit(head, ":");
    assert t == head + ":" + t[|p|..];
    SplitOnceUnique(head, t[|p|..], ":");
  }

  /** A line gives a change exactly when, trimmed, it starts with "modified:", "new file:"
      or "deleted:", and then it gives exactly one. */
  lemma ChangeKinds(line: string)
    ensures var t := Strip(line);
            ChangeOf(line).Some? <==>
              StartsWith(t, "modified:") || StartsWith(t, "new file:") || StartsWith(t, "deleted:")
    ensures var t := Strip(line);
            ChangeOf(line).Some? ==>
              (ChangeOf(line).value.Modified? <==> StartsWith(t, "modified:")) &&
              (ChangeOf(line).value.Added? <==> !StartsWith(t, "modified:") && StartsWith(t, "new file:"))
  {
  }

  /** The three prefixes each end in their only ':'. */
  lemma ColonTag(p: string)
    requires p == "modified:" || p == "new file:" || p == "deleted:"
    ensures |p| > 0 && p[|p| - 1] == ':' && ':' !in p[..|p| - 1]
  {
  }

  /** The path is the trimmed text after the prefix. */
  lemma ModifiedPath(line: string)
    requires StartsWith(Strip(line), "modified:")
    ensures ChangeOf(line) == Some(Modified(Strip(Strip(line)[9..])))
  {
    var t := Strip(line);
    ColonTag("modified:");
    AfterPrefix(t, "modified:");
  }

  lemma AddedPath(line: string)
    requires !StartsWith(Strip(line), "modified:") && StartsWith(Strip(line), "new file:")
    ensures ChangeOf(line) == Some(Added(Strip(Strip(line)[9..])))
  {
    var t := Strip(line);
    ColonTag("new file:");
    AfterPrefix(t, "new file:");
  }

  lemma DeletedPath(line: string)
    requires !StartsWith(Strip(line), "modified:") && !StartsWith(Strip(line), "new file:")
    requires StartsWith(Strip(line), "deleted:")
    ensures ChangeOf(line) == Some(Deleted(Strip(Strip(line)[8..])))
  {
    var t := Strip(line);
    ColonTag("deleted:");
    AfterPrefix(t, "deleted:");
  }

  /** The changes of a status text, in the order of its lines. */
  function Changes(lines: seq<string>): (r: seq<Change>) {
    FilterMap(ChangeOf, lines)
  }

  /** The change list built by CodexIntegration.monitor_file_changes in grepo2_3.6.py: only
      a successful status with non-blank output is read, line by line. */
  method MonitorChanges(ok: bool, status: string) returns (changes: seq<Change>)
    ensures !ok || AllSpace(status) ==> changes == []
    ensures ok && !AllSpace(status) ==> changes == Changes(Split(status, "\n"))
  {
    changes := [];
    StripEmpty(status);
    if ok && Strip(status) != [] {
      changes := ClassifyLines(Split(status, "\n"));
    }
  }

  /** The loop of monitor_file_changes over the status lines. */
  method ClassifyLines(lines: seq<string>) returns (changes: seq<Change>)
    ensures changes == Changes(lines)
  {
    changes := [];
    for k := 0 to |lines|
      invariant changes == FilterMap(ChangeOf, lines[..k])
    {
      FilterMapStep(ChangeOf, lines, k);
      var change := ClassifyLine(lines[k]);
      if change.Some? {
        changes := changes + [change.value];
      }
    }
    assert lines[..|lines|] == lines;
  }

  /** The body of that loop: the trimmed line is matched against the three prefixes. */
  method ClassifyLine(raw: string) returns (change: Option<Change>)
    ensures change == ChangeOf(raw)
  {
    var line := Strip(raw);
    if StartsWith(line, "modified:") {
      PrefixContainsColon(line, "modified:");
      change := Some(Modified(Strip(AfterColon(line))));
    } else if StartsWith(line, "new file:") {
      PrefixContainsColon(line, "new file:");
      change := Some(Added(Strip(AfterColon(line))));
    } else if StartsWith(line, "deleted:") {
      PrefixContainsColon(line, "deleted:");
      change := Some(Deleted(Strip(AfterColon(line))));
    } else {
      change := None;
    }
  }

  /** A change is reported exactly when some status line classifies to it. */
  lemma ChangeReported(lines: seq<string>, c: Change)
    ensures c in Changes(lines) <==> exists i :: 0 <= i < |lines| && ChangeOf(lines[i]) == Some(c)
  {
    FilterMapMember(ChangeOf, lines, c);
  }

  // ------------------------- grepo2_3.7.3.1.py: clone_repository and get_repo_info

  const GitHubPrefix := "https://github.com/"
  const Scheme := "https://"

  /** The URL handed to `git clone`: a non-empty token is spliced in after every "https://"
      (str.replace) when the URL starts with "https://github.com/". */
  function CloneUrl(url: string, token: Option<string>): (r: string)
    ensures r != url ==> token.Some? && token.value != [] && StartsWith(url, GitHubPrefix)
  {
    if token.Some? && token.value != [] && StartsWith(url, GitHubPrefix) then
      ReplaceAll(url, Scheme, Scheme + token.value + "@")
    else url
  }

  /** With a token, the URL's own scheme gets the token; the rest of the URL only changes
      where it holds another "https://". */
  lemma CloneUrlWithToken(url: string, token: string)
    requires token != [] && StartsWith(url, GitHubPrefix)
    ensures CloneUrl(url, Some(token)) ==
            Scheme + token + "@" + ReplaceAll(url[8..], Scheme, Scheme + token + "@")
    ensures !Contains(url[8..], Scheme) ==> CloneUrl(url, Some(token)) == Scheme + token + "@" + url[8..]
  {
    assert StartsWith(url, Scheme) by {
      assert url[..8] == GitHubPrefix[..8] == Scheme;
    }
    ReplaceAtStart(url, Scheme, Scheme + token + "@");
    if !Contains(url[8..], Scheme) {
      ReplaceAbsent(url[8..], Scheme, Scheme + token + "@");
    }
  }

  /** clone_repository of grepo2_3.7.3.1.py: an existing target is refused before git runs;
      otherwise the result is git's, on the URL with the token spliced in. */
  function CloneRepository(targetExists: bool, url: string, token: Option<string>, gitClone: string -> bool): (ok: bool)
    ensures targetExists ==> !ok
    ensures !targetExists ==> (ok <==> gitClone(CloneUrl(url, token)))
  {
    if targetExists then false else gitClone(CloneUrl(url, token))
  }

  /** The status field of get_repo_info in grepo2_3.7.3.1.py. */
  function PorcelainStatus(porcelain: string): (r: string)
    ensures r == "clean" || r == "dirty"
    ensures r == "clean" <==> AllSpace(porcelain)
  {
    StripEmpty(porcelain);
    if Strip(porcelain) == [] then "clean" else "dirty"
  }

  // ---------------------- grepo2_3.7.3.1.py: the order of get_repo_selection_with_details

  /** A repository as the selection sorts it: its "updated_at" value, when present. */
  datatype Repo = Repo(name: string, updatedAt: Option<string>)

  /** x.get("updated_at", ""). */
  function Key(r: Repo): string {
    if r.updatedAt.Some? then r.updatedAt.value else ""
  }

  /** Python's string order: lexicographic by code point, a prefix first. */
  predicate StrLe(a: string, b: string) {
    a == [] || (b != [] && (a[0] < b[0] || (a[0] == b[0] && StrLe(a[1..], b[1..]))))
  }

  lemma {:induction false} StrLeReflexive(a: string)
    ensures StrLe(a, a)
  {
    if a != [] {
      StrLeReflexive(a[1..]);
    }
  }

  lemma {:induction false} StrLeTotal(a: string, b: string)
    ensures StrLe(a, b) || StrLe(b, a)
  {
    if a != [] && b != [] && a[0] == b[0] {
      StrLeTotal(a[1..], b[1..]);
    }
  }

  /** Newest first, by key. */
  predicate SortedDesc(s: seq<Repo>) {
    forall i :: 0 < i < |s| ==> StrLe(Key(s[i]), Key(s[i - 1]))
  }

  /** Places x before the first repository whose key is not greater than x's. */
  function InsertDesc(x: Repo, s: seq<Repo>): (r: seq<Repo>)
    ensures multiset(r) == multiset(s) + multiset{x}
    ensures |r| == |s| + 1 && (r[0] == x || (s != [] && r[0] == s[0]))
  {
    if s == [] || StrLe(Key(s[0]), Key(x)) then [x] + s
    else
      assert s == [s[0]] + s[1..];
      [s[0]] + InsertDesc(x, s[1..])
  }

  /** sorted(repos, key=updated_at or "", reverse=True), as an insertion sort. */
  function SortByUpdated(s: seq<Repo>): (r: seq<Repo>)
    ensures multiset(r) == multiset(s)
  {
    if s == [] then []
    else
      assert s == [s[0]] + s[1..];
      InsertDesc(s[0], SortByUpdated(s[1..]))
  }

  lemma {:induction false} InsertDescSorted(x: Repo, s: seq<Repo>)
    requires SortedDesc(s)
    ensures SortedDesc(InsertDesc(x, s))
    decreases |s|
  {
    if s != [] && !StrLe(Key(s[0]), Key(x)) {
      var t := s[1..];
      assert SortedDesc(t);
      InsertDescSorted(x, t);
      StrLeTotal(Key(s[0]), Key(x));
      var r := [s[0]] + InsertDesc(x, t);
      forall i | 0 < i < |r| ensures StrLe(Key(r[i]), Key(r[i - 1])) {
        if i == 1 {
          assert r[1] == x || r[1] == t[0];
        } else {
          assert r[i] == InsertDesc(x, t)[i - 1];
        }
      }
    }
  }

  /** The selection is ordered newest first and offers every repository exactly once. */
  lemma {:induction false} SortByUpdatedSorted(s: seq<Repo>)
    ensures SortedDesc(SortByUpdated(s))
    ensures multiset(SortByUpdated(s)) == multiset(s)
    decreases |s|
  {
    if s != [] {
      SortByUpdatedSorted(s[1..]);
      InsertDescSorted(s[0], SortByUpdated(s[1..]));
    }
  }

  /** The repositories with a given key, in order. */
  function WithKey(s: seq<Repo>, k: string): (r: seq<Repo>)
    ensures forall x :: x in r ==> x in s && Key(x) == k
  {
    if s == [] then []
    else (if Key(s[0]) == k then [s[0]] else []) + WithKey(s[1..], k)
  }

  lemma {:induction false} InsertDescWithKey(x: Repo, s: seq<Repo>, k: string)
    ensures WithKey(InsertDesc(x, s), k) == (if Key(x) == k then [x] else []) + WithKey(s, k)
    decreases |s|
  {
    if s != [] && !StrLe(Key(s[0]), Key(x)) {
      var t := s[1..];
      InsertDescWithKey(x, t, k);
      StrLeReflexive(Key(x));
      assert InsertDesc(x, s) == [s[0]] + InsertDesc(x, t);
      WithKeyCons(s[0], InsertDesc(x, t), k);
      assert [s[0]] + t == s;
      WithKeyCons(s[0], t, k);
      var a, b := if Key(s[0]) == k then [s[0]] else [], if Key(x) == k then [x] else [];
      SwapFront(a, b, WithKey(t, k));
    } else {
      assert InsertDesc(x, s) == [x] + s;
      WithKeyCons(x, s, k);
    }
  }

  /** Two pieces of which one is empty can be put in either order. */
  lemma SwapFront<T>(a: seq<T>, b: seq<T>, w: seq<T>)
    requires a == [] || b == []
    ensures a + (b + w) == b + (a + w)
  {
  }

  /** WithKey looks at the first repository, then at the rest. */
  lemma WithKeyCons(y: Repo, t: seq<Repo>, k: string)
    ensures WithKey([y] + t, k) == (if Key(y) == k then [y] else []) + WithKey(t, k)
  {
    assert ([y] + t)[1..] == t;
  }

  /** The sort is stable, as Python's sorted is even with reverse=True: repositories with
      the same key keep their original order. */
  lemma {:induction false} SortByUpdatedStable(s: seq<Repo>, k: string)
    ensures WithKey(SortByUpdated(s), k) == WithKey(s, k)
    decreases |s|
  {
    if s != [] {
      SortByUpdatedStable(s[1..], k);
      InsertDescWithKey(s[0], SortByUpdated(s[1..]), k);
    }
  }

  // -------------------------------------- grepo2_3.7.4.3.py: tui_show_repositories

  const KiB := 1024
  const MiB := 1024 * 1024

  /** The size column: whole KiB below one MiB, whole MiB from there on. */
  function SizeLabel(size: nat): (text: string)
    ensures |text| >= 4
    ensures EndsWith(text, " KB") <==> size < MiB
    ensures size >= MiB ==> EndsWith(text, " MB")
  {
    if size < MiB then NatToString(size / KiB) + " KB" else NatToString(size / MiB) + " MB"
  }

  /** The text reads back as the size rounded down to its unit: "KB" exactly below one
      MiB, with a number below 1024, and "MB" from one MiB on. */
  lemma SizeLabelReads(size: nat)
    ensures var text := SizeLabel(size);
            |text| >= 4 && AllDigits(text[..|text| - 3])
    ensures var text := SizeLabel(size);
            var n := DecimalValue(text[..|text| - 3]);
            (text[|text| - 3..] == " KB" <==> size < MiB) &&
            (size < MiB ==> n < 1024 && n * KiB <= size < (n + 1) * KiB) &&
            (size >= MiB ==> text[|text| - 3..] == " MB" && n >= 1 && n * MiB <= size < (n + 1) * MiB)
  {
    var text := SizeLabel(size);
    if size < MiB {
      var d := NatToString(size / KiB);
      assert text[..|text| - 3] == d && text[|text| - 3..] == " KB";
      DecimalRoundTrip(size / KiB);
    } else {
      var d := NatToString(size / MiB);
      assert text[..|text| - 3] == d && text[|text| - 3..] == " MB";
      DecimalRoundTrip(size / MiB);
    }
  }
}
