/** Python string semantics used across the tool: strip, find, split, replace, int(). */
module Text {

  datatype Option<+T> = None | Some(value: T)

  /** The ASCII characters for which Python's str.isspace() holds: what str.strip() removes
      and what the regular-expression class \s matches. Non-ASCII whitespace is not modelled. */
  predicate IsSpace(c: char) {
    c == ' ' || ('\t' <= c <= '\r') || ('\U{1c}' <= c <= '\U{1f}')
  }

  predicate IsDigit(c: char) { '0' <= c <= '9' }

  predicate AllSpace(s: string) { forall i :: 0 <= i < |s| ==> IsSpace(s[i]) }

  predicate AllDigits(s: string) { forall i :: 0 <= i < |s| ==> IsDigit(s[i]) }

  /** str.lstrip(): drops the leading whitespace and nothing else. */
  function LStrip(s: string): (r: string)
    ensures |r| <= |s| && r == s[|s| - |r|..]
    ensures AllSpace(s[..|s| - |r|])
    ensures r == [] || !IsSpace(r[0])
  {
    if s == [] || !IsSpace(s[0]) then s else LStrip(s[1..])
  }

  /** str.rstrip(): drops the trailing whitespace and nothing else. */
  function RStrip(s: string): (r: string)
    ensures |r| <= |s| && r == s[..|r|]
    ensures AllSpace(s[|r|..])
    ensures r == [] || !IsSpace(r[|r| - 1])
  {
    if s == [] || !IsSpace(s[|s| - 1]) then s else RStrip(s[..|s| - 1])
  }

  /** No whitespace at either end, as strip() leaves a string. */
  predicate Trimmed(p: string) {
    p == [] || (!IsSpace(p[0]) && !IsSpace(p[|p| - 1]))
  }

  /** str.strip(): whitespace removed at both ends. */
  function Strip(s: string): (r: string)
    ensures r == [] || (!IsSpace(r[0]) && !IsSpace(r[|r| - 1]))
    ensures |r| <= |s|
  {
    RStrip(LStrip(s))
  }

  /** Where strip() cuts: the whitespace before i and from j on. */
  lemma StripCuts(s: string) returns (i: nat, j: nat)
    ensures i <= j <= |s| && Strip(s) == s[i..j] && AllSpace(s[..i]) && AllSpace(s[j..])
  {
    var l := LStrip(s);
    var r := RStrip(l);
    i, j := TwoCuts(s, l, r);
  }

  /** Whitespace cut off the front, then off the back of what is left. */
  lemma TwoCuts(s: string, l: string, r: string) returns (i: nat, j: nat)
    requires |l| <= |s| && l == s[|s| - |l|..] && AllSpace(s[..|s| - |l|])
    requires |r| <= |l| && r == l[..|r|] && AllSpace(l[|r|..])
    ensures i <= j <= |s| && r == s[i..j] && AllSpace(s[..i]) && AllSpace(s[j..])
  {
    i := |s| - |l|;
    j := i + |r|;
    assert s[i..j] == r && s[j..] == l[|r|..];
  }

  /** strip() removes whitespace at the two ends and nothing else: the result is a slice
      of the text with only whitespace before and after it. */
  lemma StripOnlyTrims(s: string)
    ensures exists i, j :: 0 <= i <= j <= |s| && Strip(s) == s[i..j] && AllSpace(s[..i]) && AllSpace(s[j..])
  {
    var i, j := StripCuts(s);
  }

  /** lstrip() skips a whitespace run and stops at the first other character. */
  lemma {:induction false} LStripSkips(w: string, s: string)
    requires AllSpace(w) && (s == [] || !IsSpace(s[0]))
    ensures LStrip(w + s) == s
    decreases |w|
  {
    if w == [] {
      assert w + s == s;
    } else {
      assert (w + s)[0] == w[0] && (w + s)[1..] == w[1..] + s;
      LStripSkips(w[1..], s);
    }
  }

  /** A string with no whitespace at either end is its own strip. */
  lemma StripNoSpaceEnds(s: string)
    requires s == [] || (!IsSpace(s[0]) && !IsSpace(s[|s| - 1]))
    ensures LStrip(s) == s && RStrip(s) == s && Strip(s) == s
  {
  }

  /** Stripping twice is stripping once. */
  lemma StripIdempotent(s: string)
    ensures Strip(Strip(s)) == Strip(s)
  {
    StripNoSpaceEnds(Strip(s));
  }

  /** str.lstrip(c) for a single character c. */
  function LStripChar(s: string, c: char): (r: string)
    ensures |r| <= |s| && r == s[|s| - |r|..]
    ensures forall k :: 0 <= k < |s| - |r| ==> s[k] == c
    ensures r == [] || r[0] != c
  {
    if s == [] || s[0] != c then s else LStripChar(s[1..], c)
  }

  /** str.rstrip(c) for a single character c. */
  function RStripChar(s: string, c: char): (r: string)
    ensures |r| <= |s| && r == s[..|r|]
    ensures forall k :: |r| <= k < |s| ==> s[k] == c
    ensures r == [] || r[|r| - 1] != c
  {
    if s == [] || s[|s| - 1] != c then s else RStripChar(s[..|s| - 1], c)
  }

  /** str.strip(c) for a single character c: every leading and trailing c removed. */
  function StripChar(s: string, c: char): (r: string)
    ensures r == [] || (r[0] != c && r[|r| - 1] != c)
    ensures |r| <= |s|
  {
    RStripChar(LStripChar(s, c), c)
  }

  /** Where strip(c) cuts: c before i and from j on. */
  lemma StripCharCuts(s: string, c: char) returns (i: nat, j: nat)
    ensures i <= j <= |s| && StripChar(s, c) == s[i..j]
    ensures forall k :: 0 <= k < i ==> s[k] == c
    ensures forall k :: j <= k < |s| ==> s[k] == c
  {
    var l := LStripChar(s, c);
    var r := RStripChar(l, c);
    i, j := TwoCharCuts(s, c, l, r);
  }

  /** The character c cut off the front, then off the back of what is left. */
  lemma TwoCharCuts(s: string, c: char, l: string, r: string) returns (i: nat, j: nat)
    requires |l| <= |s| && l == s[|s| - |l|..] && forall k :: 0 <= k < |s| - |l| ==> s[k] == c
    requires |r| <= |l| && r == l[..|r|] && forall k :: |r| <= k < |l| ==> l[k] == c
    ensures i <= j <= |s| && r == s[i..j]
    ensures forall k :: 0 <= k < i ==> s[k] == c
    ensures forall k :: j <= k < |s| ==> s[k] == c
  {
    i := |s| - |l|;
    j := i + |r|;
    assert s[i..j] == r;
    forall k | j <= k < |s| ensures s[k] == c {
      assert s[k] == l[k - i];
    }
  }

  /** strip(c) removes c at the two ends and nothing else: the result is a slice of the
      text with only c before and after it. */
  lemma StripCharOnlyTrims(s: string, c: char)
    ensures exists i, j :: 0 <= i <= j <= |s| && StripChar(s, c) == s[i..j] &&
              (forall k :: 0 <= k < i ==> s[k] == c) && (forall k :: j <= k < |s| ==> s[k] == c)
  {
    var i, j := StripCharCuts(s, c);
  }

  predicate StartsWith(s: string, p: string) { |p| <= |s| && s[..|p|] == p }

  predicate EndsWith(s: string, p: string) { |p| <= |s| && s[|s| - |p|..] == p }

  /** p occurs in s at index j. */
  predicate OccursAt(s: string, p: string, j: int) {
    0 <= j && j + |p| <= |s| && s[j..j + |p|] == p
  }

  /** Python's "p in s". */
  predicate Contains(s: string, p: string) { exists j :: 0 <= j <= |s| - |p| && OccursAt(s, p, j) }

  /** An occurrence found anywhere witnesses "p in s". */
  lemma OccursContains(s: string, p: string, j: int)
    requires OccursAt(s, p, j)
    ensures Contains(s, p)
  {
  }

  /** Appending text keeps every occurrence. */
  lemma ContainsAppend(s: string, t: string, p: string)
    ensures Contains(s, p) ==> Contains(s + t, p)
  {
    if !Contains(s, p) { return; }
    var j :| 0 <= j <= |s| - |p| && OccursAt(s, p, j);
    assert (s + t)[j..j + |p|] == s[j..j + |p|];
    OccursContains(s + t, p, j);
  }

  /** A piece that starts with p, appended to any text, brings p with it. */
  lemma ContainsJoined(a: string, b: string, p: string)
    requires StartsWith(b, p)
    ensures Contains(a + b, p)
  {
    assert (a + b)[|a|..|a| + |p|] == b[..|p|];
    OccursContains(a + b, p, |a|);
  }

  /** Text that ends with p contains p. */
  lemma ContainsSuffix(s: string, p: string)
    ensures Contains(s + p, p)
  {
    assert (s + p)[|s|..|s| + |p|] == p;
    OccursContains(s + p, p, |s|);
  }

  /** str.find(p): the first index where p occurs, or -1. */
  function Find(s: string, p: string): (r: int)
    ensures -1 <= r <= |s|
    ensures r >= 0 ==> OccursAt(s, p, r)
    ensures r >= 0 ==> forall j :: 0 <= j < r ==> !OccursAt(s, p, j)
    ensures r < 0 ==> forall j :: !OccursAt(s, p, j)
  {
    if |s| < |p| then
      assert forall j :: !OccursAt(s, p, j);
      -1
    else if s[..|p|] == p then 0
    else
      var k := Find(s[1..], p);
      assert forall j :: 1 <= j ==> (OccursAt(s, p, j) <==> OccursAt(s[1..], p, j - 1)) by {
        forall j | 1 <= j ensures OccursAt(s, p, j) <==> OccursAt(s[1..], p, j - 1) {
          if j + |p| <= |s| {
            var a, b := s[j..j + |p|], s[1..][j - 1..j - 1 + |p|];
            forall k | 0 <= k < |p| ensures a[k] == b[k] { }
            assert a == b;
          }
        }
      }
      if k < 0 then -1 else k + 1
  }

  /** Find only depends on the text up to the first occurrence. */
  lemma FindFirstIn(s: string, p: string, i: int)
    requires OccursAt(s, p, i) && forall j :: 0 <= j < i ==> !OccursAt(s, p, j)
    ensures Find(s, p) == i
  {
  }

  /** str.rfind(p): the last index where p occurs, or -1. */
  function RFind(s: string, p: string): (r: int)
    ensures -1 <= r <= |s|
    ensures r >= 0 ==> OccursAt(s, p, r)
    ensures r >= 0 ==> forall j :: r < j ==> !OccursAt(s, p, j)
    ensures r < 0 ==> forall j :: !OccursAt(s, p, j)
    decreases |s|
  {
    if |s| < |p| then
      assert forall j :: !OccursAt(s, p, j);
      -1
    else if s[|s| - |p|..] == p then |s| - |p|
    else
      var t := s[..|s| - 1];
      assert forall j :: j + |p| <= |t| ==> (OccursAt(s, p, j) <==> OccursAt(t, p, j)) by {
        forall j | j + |p| <= |t| ensures OccursAt(s, p, j) <==> OccursAt(t, p, j) {
          if 0 <= j {
            assert s[j..j + |p|] == t[j..j + |p|];
          }
        }
      }
      RFind(t, p)
  }

  lemma FindContains(s: string, p: string)
    ensures Contains(s, p) <==> Find(s, p) >= 0
  {
    if Find(s, p) >= 0 { assert OccursAt(s, p, Find(s, p)); }
  }

  /** The first occurrence of sep cuts s into a separator-free head, sep, and the rest. */
  lemma FindCuts(s: string, sep: string)
    requires |sep| > 0 && Find(s, sep) >= 0
    ensures s == s[..Find(s, sep)] + sep + s[Find(s, sep) + |sep|..]
    ensures !Contains(s[..Find(s, sep)], sep)
  {
    var i := Find(s, sep);
    CutAt(s, sep, i);
    HeadFree(s, sep, i);
  }

  /** An occurrence at i splits s around it. */
  lemma CutAt(s: string, sep: string, i: int)
    requires OccursAt(s, sep, i)
    ensures s == s[..i] + sep + s[i + |sep|..]
  {
    assert s == s[..i] + s[i..i + |sep|] + s[i + |sep|..];
  }

  /** With no occurrence before i, the text before i is free of sep. */
  lemma HeadFree(s: string, sep: string, i: int)
    requires |sep| > 0 && 0 <= i <= |s|
    requires forall j :: 0 <= j < i ==> !OccursAt(s, sep, j)
    ensures !Contains(s[..i], sep)
  {
    forall j | 0 <= j <= i - |sep| && OccursAt(s[..i], sep, j) ensures false {
      assert s[..i][j..j + |sep|] == s[j..j + |sep|];
      assert OccursAt(s, sep, j);
    }
  }

  /** str.split(sep) for a non-empty separator: the pieces between the occurrences of sep. */
  function Split(s: string, sep: string): (parts: seq<string>)
    requires |sep| > 0
    ensures |parts| >= 1
    ensures forall k :: 0 <= k < |parts| ==> !Contains(parts[k], sep)
    decreases |s|
  {
    var i := Find(s, sep);
    if i < 0 then
      assert !Contains(s, sep);
      [s]
    else
      FindCuts(s, sep);
      [s[..i]] + Split(s[i + |sep|..], sep)
  }

  /** sep.join(parts). */
  function Join(parts: seq<string>, sep: string): (r: string)
    ensures parts == [] ==> r == []
    ensures parts != [] ==> StartsWith(r, parts[0]) && EndsWith(r, parts[|parts| - 1])
  {
    if parts == [] then [] else if |parts| == 1 then parts[0] else parts[0] + sep + Join(parts[1..], sep)
  }

  /** Splitting at every separator and joining with it again gives back the string. */
  lemma {:induction false} JoinSplit(s: string, sep: string)
    requires |sep| > 0
    ensures Join(Split(s, sep), sep) == s
    decreases |s|
  {
    var i := Find(s, sep);
    if i >= 0 {
      var rest := s[i + |sep|..];
      var tail := Split(rest, sep);
      JoinSplit(rest, sep);
      FindCuts(s, sep);
      assert Split(s, sep) == [s[..i]] + tail;
      assert ([s[..i]] + tail)[1..] == tail;
      assert Join([s[..i]] + tail, sep) == s[..i] + sep + Join(tail, sep);
    }
  }

  /** str.split(sep, 1) when it yields two pieces: the text before the first sep and after it. */
  function SplitOnce(s: string, sep: string): (r: Option<(string, string)>)
    requires |sep| > 0
    ensures r.None? <==> !Contains(s, sep)
    ensures r.Some? ==> s == r.value.0 + sep + r.value.1 && !Contains(r.value.0, sep)
  {
    var i := Find(s, sep);
    FindContains(s, sep);
    if i < 0 then None
    else
      FindCuts(s, sep);
      Some((s[..i], s[i + |sep|..]))
  }

  /** For a one-character separator, the first one after a separator-free head is the one
      right after the head. */
  lemma FindAfterFree(a: string, b: string, sep: string)
    requires |sep| == 1 && !Contains(a, sep)
    ensures Find(a + sep + b, sep) == |a|
  {
    var s := a + sep + b;
    assert OccursAt(s, sep, |a|) by { assert s[|a|..|a| + |sep|] == sep; }
    FindContains(s, sep);
    var i := Find(s, sep);
    if i < |a| {
      assert s[i..i + 1] == a[i..i + 1];
      assert OccursAt(a, sep, i);
    }
  }

  /** For a one-character separator, a split at the first separator is determined by the
      separator-free head: "Fix: bug: x" splits into "Fix" and " bug: x". */
  lemma SplitOnceUnique(a: string, b: string, sep: string)
    requires |sep| == 1 && !Contains(a, sep)
    ensures SplitOnce(a + sep + b, sep) == Some((a, b))
  {
    var s := a + sep + b;
    FindAfterFree(a, b, sep);
    assert s[..|a|] == a && s[|a| + 1..] == b;
  }

  /** Joining separator-free pieces with a one-character separator and splitting again
      gives back the pieces. */
  lemma {:induction false} SplitJoin(parts: seq<string>, sep: string)
    requires |sep| == 1 && |parts| >= 1
    requires forall k :: 0 <= k < |parts| ==> !Contains(parts[k], sep)
    ensures Split(Join(parts, sep), sep) == parts
    decreases |parts|
  {
    if |parts| == 1 {
      assert Join(parts, sep) == parts[0];
      FindContains(parts[0], sep);
    } else {
      var a, rest := parts[0], Join(parts[1..], sep);
      assert Join(parts, sep) == a + sep + rest;
      FindAfterFree(a, rest, sep);
      var s := a + sep + rest;
      assert s[..|a|] == a && s[|a| + |sep|..] == rest;
      SplitUnfold(s, sep);
      assert forall k :: 0 <= k < |parts[1..]| ==> !Contains(parts[1..][k], sep) by {
        forall k | 0 <= k < |parts[1..]| ensures !Contains(parts[1..][k], sep) {
          assert parts[1..][k] == parts[k + 1];
        }
      }
      SplitJoin(parts[1..], sep);
      assert parts == [a] + parts[1..];
    }
  }

  /** str.replace(p, r) for a non-empty pattern: every non-overlapping occurrence of p,
      scanning left to right, replaced by r. */
  function ReplaceAll(s: string, p: string, r: string): (t: string)
    requires |p| > 0
    ensures |p| == |r| ==> |t| == |s|
    decreases |s|
  {
    var i := Find(s, p);
    if i < 0 then s else s[..i] + r + ReplaceAll(s[i + |p|..], p, r)
  }

  /** Where the pattern occurs, the replacement appears in the result. */
  lemma ReplaceWrites(s: string, p: string, r: string)
    requires |p| > 0 && Contains(s, p)
    ensures Contains(ReplaceAll(s, p, r), r)
  {
    FindContains(s, p);
    var i := Find(s, p);
    var t := ReplaceAll(s, p, r);
    ReplaceUnfold(s, p, r);
    assert t[i..i + |r|] == r;
    OccursContains(t, r, i);
  }

  /** Text without the pattern is left as it is. */
  lemma ReplaceAbsent(s: string, p: string, r: string)
    requires |p| > 0 && !Contains(s, p)
    ensures ReplaceAll(s, p, r) == s
  {
    FindContains(s, p);
  }

  /** Python's identity s.replace(p, r) == r.join(s.split(p)). */
  lemma {:induction false} ReplaceIsJoinOfSplit(s: string, p: string, r: string)
    requires |p| > 0
    ensures ReplaceAll(s, p, r) == Join(Split(s, p), r)
    decreases |s|
  {
    var i := Find(s, p);
    if i >= 0 {
      var rest := s[i + |p|..];
      var tail := Split(rest, p);
      calc {
        ReplaceAll(s, p, r);
        == { ReplaceUnfold(s, p, r); }
        s[..i] + r + ReplaceAll(rest, p, r);
        == { ReplaceIsJoinOfSplit(rest, p, r); }
        s[..i] + r + Join(tail, r);
        == { JoinCons(s[..i], tail, r); }
        Join([s[..i]] + tail, r);
        == { SplitUnfold(s, p); }
        Join(Split(s, p), r);
      }
    } else {
      ReplaceNotFound(s, p, r);
    }
  }

  /** Without an occurrence, both sides are the text itself. */
  lemma ReplaceNotFound(s: string, p: string, r: string)
    requires |p| > 0 && Find(s, p) < 0
    ensures ReplaceAll(s, p, r) == s && Split(s, p) == [s] && Join([s], r) == s
  {
  }

  /** Past a first occurrence at i, Split yields the head and splits the rest. */
  lemma SplitUnfold(s: string, p: string)
    requires |p| > 0 && Find(s, p) >= 0
    ensures Split(s, p) == [s[..Find(s, p)]] + Split(s[Find(s, p) + |p|..], p)
  {
  }

  /** Past a first occurrence at i, ReplaceAll keeps the head, writes r, and goes on. */
  lemma {:induction false} ReplaceUnfold(s: string, p: string, r: string)
    requires |p| > 0 && Find(s, p) >= 0
    ensures ReplaceAll(s, p, r) == s[..Find(s, p)] + r + ReplaceAll(s[Find(s, p) + |p|..], p, r)
  {
  }

  /** Joining a head in front of a non-empty list puts the separator between them. */
  lemma JoinCons(a: string, tail: seq<string>, sep: string)
    requires tail != []
    ensures Join([a] + tail, sep) == a + sep + Join(tail, sep)
  {
    assert ([a] + tail)[1..] == tail;
  }

  /** A text starting with the pattern has that occurrence replaced first. */
  lemma ReplaceAtStart(s: string, p: string, r: string)
    requires |p| > 0 && StartsWith(s, p)
    ensures ReplaceAll(s, p, r) == r + ReplaceAll(s[|p|..], p, r)
  {
    assert OccursAt(s, p, 0) by { assert s[0..|p|] == p; }
    FindFirstIn(s, p, 0);
    var tail := ReplaceAll(s[|p|..], p, r);
    assert ReplaceAll(s, p, r) == s[..0] + r + tail;
    assert s[..0] + r + tail == r + tail;
  }

  /** Replacing a pattern by itself changes nothing. */
  lemma ReplaceIdentity(s: string, p: string)
    requires |p| > 0
    ensures ReplaceAll(s, p, p) == s
  {
    ReplaceIsJoinOfSplit(s, p, p);
    JoinSplit(s, p);
  }

  /** split yields more than one piece exactly when the separator occurs. */
  lemma SplitMany(s: string, sep: string)
    requires |sep| > 0
    ensures |Split(s, sep)| >= 2 <==> Contains(s, sep)
  {
    FindContains(s, sep);
  }

  /** A text without the separator's first character does not contain the separator, so
      splitting it gives the text alone. */
  lemma NoCharNoSplit(s: string, sep: string)
    requires |sep| > 0 && sep[0] !in s
    ensures !Contains(s, sep) && Split(s, sep) == [s]
  {
    forall j | 0 <= j < |s| ensures !OccursAt(s, sep, j) {
      assert s[j] in s;
      if j + |sep| <= |s| {
        assert s[j..j + |sep|][0] == s[j];
      }
    }
    FindContains(s, sep);
  }

  /** Stripping leaves nothing exactly when the text is all whitespace. */
  lemma StripEmpty(s: string)
    ensures Strip(s) == [] <==> AllSpace(s)
  {
    var l := LStrip(s);
    if l != [] {
      assert l[0] == s[|s| - |l|];
    }
    if Strip(s) == [] {
      assert AllSpace(l[0..]);
      assert s[..|s| - |l|] == s;
    }
  }

  /** Concatenation is associative, stated over names for its parts: w is x, y, t in a
      row and v is y, t; then w is x followed by v. */
  lemma RegroupRight<T>(x: seq<T>, y: seq<T>, t: seq<T>, w: seq<T>, v: seq<T>)
    requires w == (x + y) + t && v == y + t
    ensures w == x + v
  {
  }

  /** The mirror image of RegroupRight: w is x, y, t in a row and u is x, y; then w is u
      followed by t. */
  lemma RegroupLeft<T>(x: seq<T>, y: seq<T>, t: seq<T>, w: seq<T>, u: seq<T>)
    requires w == x + (y + t) && u == x + y
    ensures w == u + t
  {
  }

  /** A text framed by a head and a tail starts with the head and ends with the tail. */
  lemma Framed(head: string, middle: string, tail: string)
    ensures StartsWith(head + middle + tail, head) && EndsWith(head + middle + tail, tail)
  {
    assert (head + middle + tail)[..|head|] == head;
    assert (head + middle + tail)[|head + middle|..] == tail;
  }

  /** A non-empty sequence is its front followed by its last element. */
  lemma FrontLast<T>(b: seq<T>)
    requires b != []
    ensures b == b[..|b| - 1] + [b[|b| - 1]]
  {
  }

  /** Appending one element after a concatenation regroups freely. */
  lemma SnocAssoc<T>(a: seq<T>, b: seq<T>, x: T)
    ensures a + (b + [x]) == (a + b) + [x]
  {
  }

  /** list.insert(i, x) for 0 <= i <= len: x lands at index i, every element keeps its
      relative order. */
  function Insert<T>(s: seq<T>, i: nat, x: T): (r: seq<T>)
    requires i <= |s|
    ensures |r| == |s| + 1 && r[i] == x
    ensures r[..i] == s[..i] && r[i + 1..] == s[i..]
    ensures r[..i] + r[i + 1..] == s
  {
    s[..i] + [x] + s[i..]
  }

  /** str.lower() on ASCII letters; other characters are left as they are. */
  function Lower(s: string): (r: string)
    ensures |r| == |s|
    ensures forall i :: 0 <= i < |s| ==> r[i] == (if 'A' <= s[i] <= 'Z' then (s[i] as int + 32) as char else s[i])
  {
    if s == [] then [] else
    [if 'A' <= s[0] <= 'Z' then (s[0] as int + 32) as char else s[0]] + Lower(s[1..])
  }

  /** str.upper() on ASCII letters; other characters are left as they are. */
  function Upper(s: string): (r: string)
    ensures |r| == |s|
    ensures forall i :: 0 <= i < |s| ==> r[i] == (if 'a' <= s[i] <= 'z' then (s[i] as int - 32) as char else s[i])
  {
    if s == [] then [] else
    [if 'a' <= s[0] <= 'z' then (s[0] as int - 32) as char else s[0]] + Upper(s[1..])
  }

  function DigitChar(d: nat): (c: char)
    requires d < 10
    ensures IsDigit(c)
  {
    ('0' as int + d) as char
  }

  function DigitValue(c: char): (d: nat)
    requires IsDigit(c)
    ensures d < 10 && DigitChar(d) == c
  {
    c as int - '0' as int
  }

  /** str(n) for a natural number: its decimal digits, without leading zeros. */
  function NatToString(n: nat): (r: string)
    ensures |r| >= 1 && AllDigits(r)
    ensures r[0] == '0' ==> n == 0 && r == "0"
  {
    if n < 10 then [DigitChar(n)] else NatToString(n / 10) + [DigitChar(n % 10)]
  }

  /** The number a string of decimal digits denotes. */
  function DecimalValue(s: string): nat
    requires AllDigits(s)
  {
    if s == [] then 0 else DecimalValue(s[..|s| - 1]) * 10 + DigitValue(s[|s| - 1])
  }

  lemma {:induction false} DecimalRoundTrip(n: nat)
    ensures DecimalValue(NatToString(n)) == n
  {
    if n >= 10 {
      var r := NatToString(n);
      DecimalRoundTrip(n / 10);
      assert r[..|r| - 1] == NatToString(n / 10);
    }
  }

  /** The digit groups Python's int() accepts: digits, where single underscores may
      stand between two digits (PEP 515). */
  predicate IsNumeral(u: string) {
    |u| > 0 && forall i :: 0 <= i < |u| ==> NumeralCharAt(u, i)
  }

  predicate NumeralCharAt(u: string, i: int)
    requires 0 <= i < |u|
  {
    IsDigit(u[i]) || (u[i] == '_' && 0 < i < |u| - 1 && IsDigit(u[i - 1]) && IsDigit(u[i + 1]))
  }

  function RemoveUnderscores(u: string): (r: string)
    requires forall i :: 0 <= i < |u| ==> IsDigit(u[i]) || u[i] == '_'
    ensures AllDigits(r)
    ensures AllDigits(u) ==> r == u
  {
    if u == [] then [] else (if u[0] == '_' then [] else [u[0]]) + RemoveUnderscores(u[1..])
  }

  /** The value of a numeral, None when the text is not one. */
  function NumeralValue(u: string): (r: Option<nat>)
    ensures r.Some? <==> IsNumeral(u)
  {
    if IsNumeral(u) then
      assert forall i :: 0 <= i < |u| ==> IsDigit(u[i]) || u[i] == '_' by {
        forall i | 0 <= i < |u| ensures IsDigit(u[i]) || u[i] == '_' { assert NumeralCharAt(u, i); }
      }
      Some(DecimalValue(RemoveUnderscores(u)))
    else None
  }

  /** What int() accepts once the text is stripped: an optional sign, then a numeral. */
  predicate IsSignedNumeral(t: string) {
    |t| > 0 && (if t[0] == '-' || t[0] == '+' then IsNumeral(t[1..]) else IsNumeral(t))
  }

  /** Python's int(s) in base 10: surrounding whitespace, an optional sign, then a numeral.
      None stands for the ValueError. Only ASCII digits are modelled. */
  function PyInt(s: string): (r: Option<int>)
    ensures r.Some? ==> Strip(s) != []
    ensures r.Some? <==> IsSignedNumeral(Strip(s))
    ensures r.Some? && Strip(s)[0] == '-' ==> r.value == -(NumeralValue(Strip(s)[1..]).value as int)
    ensures r.Some? && Strip(s)[0] == '+' ==> r.value == NumeralValue(Strip(s)[1..]).value as int
    ensures r.Some? && IsDigit(Strip(s)[0]) ==> r.value == NumeralValue(Strip(s)).value as int
  {
    var t := Strip(s);
    if t == [] then None
    else if t[0] == '-' then
      match NumeralValue(t[1..])
      case Some(v) => Some(-(v as int))
      case None => None
    else
      match NumeralValue(if t[0] == '+' then t[1..] else t)
      case Some(v) => Some(v as int)
      case None => None
  }

  lemma StripDigits(s: string)
    requires |s| > 0 && AllDigits(s)
    ensures Strip(s) == s
  {
    assert !IsSpace(s[0]) && !IsSpace(s[|s| - 1]);
    StripNoSpaceEnds(s);
  }

  lemma NumeralOfDigits(d: string)
    requires |d| > 0 && AllDigits(d)
    ensures IsNumeral(d) && RemoveUnderscores(d) == d
    ensures NumeralValue(d) == Some(DecimalValue(d))
  {
    forall i | 0 <= i < |d| ensures NumeralCharAt(d, i) { }
  }

  lemma PyIntOfDigits(d: string)
    requires |d| > 0 && AllDigits(d)
    ensures PyInt(d) == Some(DecimalValue(d) as int)
  {
    NumeralOfDigits(d);
    assert IsDigit(d[0]) && IsDigit(d[|d| - 1]);
    PyIntOfUnsigned(d, DecimalValue(d));
  }

  lemma PyIntOfUnsigned(m: string, v: nat)
    requires |m| > 0 && IsDigit(m[0]) && IsDigit(m[|m| - 1]) && NumeralValue(m) == Some(v)
    ensures PyInt(m) == Some(v as int)
  {
    assert !IsSpace(m[0]) && !IsSpace(m[|m| - 1]);
    StripNoSpaceEnds(m);
    var t := Strip(m);
    assert t == m && t[0] != '-' && t[0] != '+';
    assert NumeralValue(t) == Some(v);
  }

  lemma PyIntOfSigned(d: string, v: nat)
    requires |d| > 0 && IsDigit(d[|d| - 1]) && NumeralValue(d) == Some(v)
    ensures PyInt("-" + d) == Some(-(v as int))
  {
    var m := "-" + d;
    assert m[1..] == d;
    assert m[|m| - 1] == d[|d| - 1];
    StripNoSpaceEnds(m);
  }

  /** int(str(n)) == n and int("-" + str(n)) == -n. */
  lemma PyIntRoundTrip(n: nat)
    ensures PyInt(NatToString(n)) == Some(n as int)
    ensures PyInt("-" + NatToString(n)) == Some(-(n as int))
  {
    var d := NatToString(n);
    DecimalRoundTrip(n);
    NumeralOfDigits(d);
    assert IsDigit(d[0]) && IsDigit(d[|d| - 1]);
    PyIntOfUnsigned(d, n);
    PyIntOfSigned(d, n);
  }
}
