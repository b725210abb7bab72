/** write_to_changelog in its three generations. The timestamp is a parameter; the file is
    given as its content, or None when CHANGELOG.md does not exist. */
module Changelog {
  import opened Text

  /** dict.get(key, default) on a table of strings. */
  function Lookup(table: map<string, string>, key: string, default: string): (v: string)
    ensures key in table ==> v == table[key]
    ensures key !in table ==> v == default
  {
    if key in table then table[key] else default
  }

  // ------------------------------------------------------- first generation: line index 4

  const EmojiV1: map<string, string> := map[
    "info" := "ℹ️", "success" := "✅", "error" := "❌",
    "warning" := "⚠️", "progress" := "\U{1F504}", "file" := "\U{1F4C4}",
    "directory" := "\U{1F4C1}", "delete" := "\U{1F5D1}️", "analysis" := "\U{1F50D}",
    "closed" := "\U{1F3AF}"]

  const FallbackEmoji: string := "\U{1F4DD}"

  const HeaderV1: string :=
    "# CHANGELOG\n\nAlle Änderungen an diesem Projekt werden in dieser Datei dokumentiert.\n\n"

  /** One bullet: the bold timestamp first, the message and a newline last. */
  function EntryV1(timestamp: string, logType: string, message: string): (e: string)
    ensures StartsWith(e, "- **" + timestamp + "** ") && EndsWith(e, ":** " + message + "\n")
  {
    var head, tail := "- **" + timestamp + "** ", ":** " + message + "\n";
    var middle := Lookup(EmojiV1, logType, FallbackEmoji) + " **" + Upper(logType);
    Framed(head, middle, tail);
    head + middle + tail
  }

  /** The placement rule: index 4 when the text has more than three lines, else the end. */
  function SlotV1(lines: seq<string>): (k: nat)
    ensures k <= |lines|
    ensures |lines| > 3 ==> k == 4
    ensures |lines| <= 3 ==> k == |lines|
  {
    if |lines| > 3 then 4 else |lines|
  }

  /** The first generation: split into lines, insert the stripped entry, join again. */
  method WriteToChangelogV1(existing: Option<string>, timestamp: string, logType: string, message: string)
    returns (content: string)
    ensures var lines := Split(if existing.Some? then existing.value else HeaderV1, "\n");
            content == Join(Insert(lines, SlotV1(lines), RStrip(EntryV1(timestamp, logType, message))), "\n")
  {
    var existingContent := if existing.Some? then existing.value else HeaderV1;
    var lines := Split(existingContent, "\n");
    var entry := EntryV1(timestamp, logType, message);
    if |lines| > 3 {
      lines := Insert(lines, 4, RStrip(entry));
    } else {
      lines := Insert(lines, |lines|, RStrip(entry));
    }
    content := Join(lines, "\n");
  }

  /** When the entry is a single line, the written text splits back into the old lines
      with the entry at its slot: no line is lost or reordered. */
  lemma LinesAfterWriteV1(prior: string, entry: string)
    requires !Contains(entry, "\n")
    ensures var lines := Split(prior, "\n");
            var written := Join(Insert(lines, SlotV1(lines), entry), "\n");
            var after := Split(written, "\n");
            |after| == |lines| + 1 && after[SlotV1(lines)] == entry &&
            after[..SlotV1(lines)] + after[SlotV1(lines) + 1..] == lines
  {
    var lines := Split(prior, "\n");
    var ins := Insert(lines, SlotV1(lines), entry);
    forall k | 0 <= k < |ins| ensures !Contains(ins[k], "\n") {
      if k != SlotV1(lines) {
        if k < SlotV1(lines) { assert ins[k] == lines[k]; } else { assert ins[k] == lines[k - 1]; }
      }
    }
    SplitJoin(ins, "\n");
  }

  // -------------------------------------- second generation: scan for the insertion point

  const EmojiV2: map<string, string> := map[
    "info" := "ℹ️", "success" := "✅", "warning" := "⚠️",
    "error" := "❌", "feature" := "\U{1F680}", "fix" := "\U{1F527}", "docs" := "\U{1F4DD}",
    "test" := "\U{1F9EA}", "refactor" := "♻️"]

  /** A paragraph after a blank line: the bold timestamp first, the message and a newline last. */
  function EntryV2(timestamp: string, category: string, message: string): (e: string)
    ensures StartsWith(e, "\n**" + timestamp + "** ") && EndsWith(e, "**: " + message + "\n")
  {
    var head, tail := "\n**" + timestamp + "** ", "**: " + message + "\n";
    var middle := Lookup(EmojiV2, category, FallbackEmoji) + " **" + Upper(category);
    Framed(head, middle, tail);
    head + middle + tail
  }

  /** A "## " heading that mentions "unreleased" in any letter case. */
  predicate IsUnreleasedHeading(line: string) {
    StartsWith(line, "## ") && Contains(Lower(line), "unreleased")
  }

  /** A "### " heading past the first six lines. */
  predicate IsLateSubheading(line: string, i: int) {
    StartsWith(line, "### ") && i > 5
  }

  predicate StopsScan(lines: seq<string>, i: int)
    requires 0 <= i < |lines|
  {
    IsUnreleasedHeading(lines[i]) || IsLateSubheading(lines[i], i)
  }

  /** The scan of the second generation: the first line that stops it decides the position,
      after an unreleased heading or before a late subheading; without one it is 0. */
  method FindInsertPos(lines: seq<string>) returns (pos: nat)
    ensures pos <= |lines|
    ensures pos == 0 <==> forall i :: 0 <= i < |lines| ==> !StopsScan(lines, i)
    ensures pos > 0 ==>
      (IsUnreleasedHeading(lines[pos - 1]) && forall i :: 0 <= i < pos - 1 ==> !StopsScan(lines, i)) ||
      (pos < |lines| && IsLateSubheading(lines[pos], pos) && !IsUnreleasedHeading(lines[pos]) &&
       forall i :: 0 <= i < pos ==> !StopsScan(lines, i))
  {
    pos := 0;
    var i := 0;
    while i < |lines|
      invariant 0 <= i <= |lines|
      invariant forall j :: 0 <= j < i ==> !StopsScan(lines, j)
    {
      if StartsWith(lines[i], "## ") && Contains(Lower(lines[i]), "unreleased") {
        assert StopsScan(lines, i);
        pos := i + 1;
        return;
      } else if StartsWith(lines[i], "### ") && i > 5 {
        assert StopsScan(lines, i);
        pos := i;
        return;
      }
      i := i + 1;
    }
  }

  /** The second generation: a missing file reads as "", the entry is inserted as one list
      element at the scanned position. */
  method WriteToChangelogV2(existing: Option<string>, timestamp: string, category: string, message: string)
    returns (content: string, pos: nat)
    ensures var lines := Split(if existing.Some? then existing.value else "", "\n");
            pos <= |lines| && content == Join(Insert(lines, pos, EntryV2(timestamp, category, message)), "\n")
    ensures var lines := Split(if existing.Some? then existing.value else "", "\n");
            (pos == 0 <==> forall i :: 0 <= i < |lines| ==> !StopsScan(lines, i)) &&
            (pos > 0 ==>
              (IsUnreleasedHeading(lines[pos - 1]) && forall i :: 0 <= i < pos - 1 ==> !StopsScan(lines, i)) ||
              (pos < |lines| && IsLateSubheading(lines[pos], pos) && !IsUnreleasedHeading(lines[pos]) &&
               forall i :: 0 <= i < pos ==> !StopsScan(lines, i)))
    ensures existing.None? ==> content == EntryV2(timestamp, category, message) + "\n"
  {
    var c := if existing.Some? then existing.value else "";
    var lines := Split(c, "\n");
    pos := FindInsertPos(lines);
    var entry := EntryV2(timestamp, category, message);
    lines := lines[..pos] + [entry] + lines[pos..];
    content := Join(lines, "\n");
    if existing.None? {
      assert Find("", "\n") == -1;
      assert Split("", "\n") == [""];
      assert !StopsScan([""], 0);
      assert lines == [entry, ""];
    }
  }

  // ----------------------------------------- third generation: replace every marker line

  const Marker: string := "## Unreleased"
  const MarkerLine: string := "## Unreleased\n"
  /** The header of a new file: the title, then the marker line at its end. */
  function HeaderV3(): (h: string)
    ensures StartsWith(h, "# Changelog\n") && EndsWith(h, MarkerLine)
  {
    "# Changelog\n\n## Unreleased\n"
  }

  const IconsV3: map<string, string> := map[
    "success" := "✅", "error" := "❌", "info" := "ℹ️", "warning" := "⚠️"]

  function EntryV3(timestamp: string, level: string, message: string): (e: string)
    ensures StartsWith(e, "- " + timestamp + " ") && EndsWith(e, " " + message + "\n")
  {
    "- " + timestamp + " " + Lookup(IconsV3, level, "•") + " " + message + "\n"
  }

  /** The third generation. With the marker present, every "## Unreleased\n" is followed by
      the entry; without it, a header and the entry go in front of the old text. */
  function WriteToChangelogV3(existing: Option<string>, entry: string): (content: string)
    ensures existing.None? ==> content == HeaderV3() + entry
    ensures existing.Some? && !Contains(existing.value, Marker) ==>
              content == HeaderV3() + entry + "\n" + existing.value
    ensures existing.Some? && Contains(existing.value, Marker) ==>
              content == Join(Split(existing.value, MarkerLine), MarkerLine + entry)
  {
    match existing
    case None => HeaderV3() + entry
    case Some(c) =>
      if Contains(c, Marker) then
        ReplaceIsJoinOfSplit(c, MarkerLine, MarkerLine + entry);
        ReplaceAll(c, MarkerLine, MarkerLine + entry)
      else HeaderV3() + entry + "\n" + c
  }

  /** A marker that is never followed by a newline makes the rewrite a no-op: the entry is
      lost. */
  lemma EntryLostWithoutMarkerLine(c: string, entry: string)
    requires Contains(c, Marker) && !Contains(c, MarkerLine)
    ensures WriteToChangelogV3(Some(c), entry) == c
  {
    ReplaceIsJoinOfSplit(c, MarkerLine, MarkerLine + entry);
  }

  /** Each marker line gains exactly the entry, so the old text comes back when the entry
      is empty. */
  lemma EmptyEntryKeepsMarkedText(c: string)
    requires Contains(c, Marker)
    ensures WriteToChangelogV3(Some(c), "") == c
  {
    assert MarkerLine + "" == MarkerLine;
    ReplaceIdentity(c, MarkerLine);
  }
}
