# grepo2 core, modelled in Dafny

grepo2 is a German-language terminal tool. It manages GitHub repositories, turns a
`roadmap.md` into GitHub issues, and drives an AI coding agent ("Codex") against those issues.
The repository ships ten versions of one script.

Most of the script is glue around `requests`, `subprocess` and curses/rich. This project
models the deterministic routines inside that glue:

- the token obfuscation, which is UTF-8 followed by base64 (RFC 4648 section 4);
- the per-user configuration files in three generations;
- the Codex configuration update;
- the three ways of writing a CHANGELOG entry;
- the roadmap parser in its strict and loose dialects;
- the issue-posting loops;
- the streaming chat-completion assembler. It reads the one-line `data:` fields of the
  server-sent events format from section 9.2 of the WHATWG HTML Living Standard;
- the menu key and choice loops;
- issue selection, in-work labelling and the auto-development loop;
- the AI analysis extraction and the automatic close rules;
- the git helpers: remote URL, log lines, status lines, clone URL, repository sort and size label.

Each variant is modelled once. Where versions share a routine verbatim, the model follows the
version cited in the table. The sharing is:

- The strict parser of `grepo2_3.5.py` is byte-identical in `grepo2_3.6.py`.
- The loose parser, the counting post loop, `create_issue`, the inner-break stream loop and
  the replace-style changelog are shared by `grepo2_3.7.4.4.py` and
  `grepo2_3.7.3.4.5-tuitest.py`.
- The ends-on-`[DONE]` stream loop is shared by `grepo2_3.5.py` and `grepo2_3.7.py`.
- The first-generation config functions are shared by 3.5, 3.7, 3.7.1, 3.7.3 and 3.7.3.1.
- The lenient `_deobfuscate` is shared by 3.7.4 and 3.7.4.3.
- The index-4 changelog is shared by 3.7.3 and 3.7.3.1. The scanning changelog is shared by
  3.7.4 and 3.7.4.3.
- The curses key loop is shared by 3.6, 3.7.1 and 3.7.4.3.

`grepo2_3.6.py` has a `return` at module level (line 1929). Python rejects that when it compiles
the file ("'return' outside function"), so no line of 3.6 ever runs. The rows citing
`grepo2_3.6.py` model the routines as the file's text writes them, not a program that runs.
Where its text coincides with `grepo2_3.5.py`, the 3.5 version is the one modelled.

How the outside world appears in the model:

- HTTP replies, subprocess results, JSON decoding and terminal input are parameters or
  oracle functions.
- Timestamps are parameters.
- A JSON file is `Missing`, `Corrupt`, or a map from keys to string-or-null values.
- Strings are sequences of Unicode scalar values.

The files:

- `text.dfy` (module `Text`): the Python string operations the core relies on, with their laws.
- `codec.dfy`: UTF-8 and base64.
- `userconfig.dfy`: the user configuration files.
- `codexconfig.dfy`: the Codex configuration update.
- `changelog.dfy`: the changelog writers.
- `roadmap.dfy`: the roadmap parsers.
- `issuesync.dfy`: the issue-posting loops.
- `stream.dfy`: the streaming assembler.
- `menu.dfy`: the menus and the status and truncation helpers.
- `issues.dfy`: issue selection and the auto-development loop.
- `analysis.dfy`: the AI analysis.
- `git.dfy`: the git helpers.

## Model

| member | source | states |
|---|---|---|
| Text.LStrip | grepo2_3.5.py:565 | removes a prefix made only of whitespace; what remains is empty or starts with non-whitespace |
| Text.RStrip | grepo2_3.7.3.py:195 | `rstrip()`: removes a suffix made only of whitespace; what remains is empty or ends with non-whitespace |
| Text.Strip | grepo2_3.5.py:576-577 | `strip()`: the result is no longer than the input and has no whitespace at either end; that only whitespace at the two ends is removed is `StripOnlyTrims` |
| Text.StripCuts | grepo2_3.5.py:576-577 | `strip()` returns the slice s[i..j] with only whitespace before i and from j on |
| Text.StripOnlyTrims | grepo2_3.5.py:576-577 | `strip()` removes whitespace at the two ends and nothing else: the result is a slice of the text with only whitespace cut off before and after it |
| Text.StripIdempotent | grepo2_3.5.py:576 | stripping a stripped string changes nothing, so the title's second `.strip()` is a no-op whenever `strip("*")` removed nothing |
| Text.StripChar | grepo2_3.5.py:576 | `strip("*")` leaves no '*' at either end and is no longer than its input; that only '*' at the two ends is removed is `StripCharOnlyTrims` |
| Text.StripCharOnlyTrims | grepo2_3.5.py:576 | `strip("*")` removes '*' at the two ends and nothing else: the result is a slice of the text with only '*' cut off before and after it |
| Text.StripEmpty | grepo2_3.7.3.1.py:382 | the stripped text is empty exactly when every character is whitespace |
| Text.Find | grepo2_3.5.py:510 | `str.find`: the first index where the pattern occurs, or -1 exactly when it occurs nowhere |
| Text.RFind | grepo2_3.6.py:2266 | `str.rfind`: the last index where the pattern occurs, or -1 exactly when it occurs nowhere |
| Text.FindContains | grepo2_3.5.py:655 | `p in s` holds exactly when `s.find(p)` is not -1 |
| Text.Split | grepo2_3.7.3.py:193 | `str.split(sep)` gives at least one part, and no part contains the separator |
| Text.JoinSplit | grepo2_3.7.3.py:193-201 | `sep.join(s.split(sep))` gives back `s` |
| Text.Join | grepo2_3.7.3.py:201 | `sep.join([])` is ""; otherwise the result starts with the first piece and ends with the last |
| Text.SplitJoin | grepo2_3.7.3.py:193-201 | splitting the join of separator-free parts gives back the same parts (one-character separator) |
| Text.SplitOnce | grepo2_3.5.py:572 | `split(sep, 1)` gives one part exactly when the separator is absent; otherwise `head + sep + tail` is the input and `head` holds no separator |
| Text.SplitOnceUnique | grepo2_3.5.py:572-575 | for a head without the separator, `(head + sep + tail).split(sep, 1)` is exactly `[head, tail]` |
| Text.SplitMany | grepo2_3.5.py:572-574 | a split has at least two parts exactly when the separator occurs |
| Text.NoCharNoSplit | grepo2_3.7.3.py:430-433 | a line without the separator character does not contain it, and it splits into itself |
| Text.ReplaceIsJoinOfSplit | grepo2_3.7.4.4.py:104 | `s.replace(p, r)` equals `r.join(s.split(p))`: every occurrence, found left to right without overlap, is replaced |
| Text.ReplaceAbsent | grepo2_3.7.3.1.py:354 | replacing a pattern that does not occur leaves the text unchanged |
| Text.ReplaceAll | grepo2_3.7.4.4.py:104 | `str.replace` keeps the length when the pattern and the replacement are equally long |
| Text.ReplaceWrites | grepo2_3.7.4.4.py:104 | where the pattern occurs, the replacement occurs in the result |
| Text.ReplaceAtStart | grepo2_3.7.3.1.py:354 | when the text starts with the pattern, the result starts with the replacement, followed by the replaced rest |
| Text.ReplaceIdentity | grepo2_3.7.4.4.py:104 | replacing a pattern by itself leaves the text unchanged |
| Text.Insert | grepo2_3.7.3.py:195 | `list.insert(i, x)`: one more element, `x` at index `i`, and the old elements before and after it in their order |
| Text.Lower | grepo2_3.7.3.py:1002 | `lower()`: same length; each ASCII capital becomes its small letter and every other character is kept |
| Text.Upper | grepo2_3.7.3.py:182 | `upper()`: same length; each ASCII small letter becomes its capital and every other character is kept |
| Text.NatToString | grepo2_3.7.4.3.py:979 | the decimal text of a natural number is non-empty, all digits, and has no leading zero unless it is "0" |
| Text.DecimalRoundTrip | grepo2_3.7.4.3.py:979 | reading the decimal text of `n` back gives `n` |
| Text.NumeralValue | grepo2_3.6.py:1135 | a numeral has a value exactly when it is digits, with single underscores allowed only between two digits |
| Text.PyInt | grepo2_3.7.py:763 | `int(s)` succeeds exactly when the stripped text is an optional '-' or '+' followed by a numeral (digits, single underscores between digits). The value is the numeral's value, negated after a '-' |
| Text.PyIntOfDigits | grepo2_3.7.py:763 | `int` of a non-empty digit string is its decimal value |
| Text.PyIntRoundTrip | grepo2_3.6.py:1135 | `int(str(n)) == n` and `int("-" + str(n)) == -n` |
| Codec.EncodeChar | grepo2_3.7.1.py:76 | one character becomes one to four UTF-8 bytes |
| Codec.Utf8Encode | grepo2_3.7.1.py:76 | `str.encode()` gives between one and four bytes per character |
| Codec.DecodeFirst | grepo2_3.7.1.py:79 | the strict UTF-8 decoder reads one character from one to four bytes of its input |
| Codec.DecodeEncodedChar | grepo2_3.7.1.py:76-79 | the encoding of a character decodes back to that character and its width, whatever follows it |
| Codec.Utf8RoundTrip | grepo2_3.7.1.py:76-79 | `s.encode().decode() == s` for every string |
| Codec.B64Value | grepo2_3.7.1.py:79 | a base64 alphabet character has a six-bit value that maps back to the same character |
| Codec.B64Encode | grepo2_3.7.1.py:76 | `b64encode` output has a length that is a multiple of 4, and it is empty exactly when the input is |
| Codec.DecodeGroup | grepo2_3.7.1.py:79 | a quadruple of alphabet characters decodes to the one, two or three bytes its padding says |
| Codec.B64Decode | grepo2_3.7.1.py:79 | decoding succeeds only on a length that is a multiple of 4, and yields at most three bytes per four characters |
| Codec.DecodeEncodedGroup | grepo2_3.7.1.py:76-79 | the four characters that encode three bytes decode back to the first one, two or three of those bytes |
| Codec.B64RoundTrip | grepo2_3.7.1.py:76-79 | `b64decode(b64encode(bs)) == bs` for every byte sequence |
| Codec.Obfuscate | grepo2_3.7.1.py:75-76 | `_obfuscate` output has a length that is a multiple of 4, and it is empty exactly when the input is |
| Codec.Deobfuscate | grepo2_3.7.1.py:78-79 | the strict `_deobfuscate` can only succeed on text whose length is a multiple of 4 |
| Codec.ObfuscateRoundTrip | grepo2_3.7.1.py:75-79 | `_deobfuscate(_obfuscate(s)) == s` for every string |
| Codec.PadToQuad | grepo2_3.7.4.py:88-90 | the repair appends `(4 - len % 4) % 4` '=' characters: the result length is a multiple of 4, the input is its prefix, and aligned input is unchanged |
| Codec.RepairingDeobfuscate | grepo2_3.7.4.py:84-95 | when decoding the repaired text fails on unaligned input, the result is the padded text (longer than the argument, ending in '='), not the argument |
| Codec.DeobfuscateRepairing | grepo2_3.7.4.py:84-95 | the in-place padding and the catch-all fallback compute the lenient decoder |
| Codec.RepairingRoundTrip | grepo2_3.7.4.py:81-91 | the lenient `_deobfuscate` still inverts `_obfuscate` |
| UserConfig.MainConfig | grepo2_3.7.1.py:81-88 | a missing or unparsable main config reads as `{}`; otherwise as stored |
| UserConfig.LoadUserConfig | grepo2_3.7.1.py:106-117 | None exactly for a missing or unparsable file. It raises exactly when the stored token is null or not decodable, because only JSON and key errors are caught. Otherwise every key is kept and only the token is decoded |
| UserConfig.SaveUserConfig | grepo2_3.7.1.py:119-123 | the file holds exactly username and token, and the stored token decodes to the given one |
| UserConfig.LoadAfterSave | grepo2_3.7.1.py:106-123 | loading what `save_user_config` wrote gives the username and the plain token |
| UserConfig.UpdateUserConfig | grepo2_3.7.1.py:125-145 | starts from the stored record, or from `{"username"}` when the file is missing or corrupt. Each given field is overwritten: the token obfuscated, the other two verbatim. Every other key is kept |
| UserConfig.LoadAfterTokenUpdate | grepo2_3.7.1.py:113-139 | a record whose token was written by the update loads with the plain token and every other field as stored |
| UserConfig.ActiveUser | grepo2_3.7.1.py:97-98 | an active user is reported exactly when the main config has one |
| UserConfig.SetActiveUser | grepo2_3.7.1.py:100-104 | sets active_user, resets last_repo_path to null, and keeps every other key |
| UserConfig.ActiveUserAfterSet | grepo2_3.7.1.py:97-104 | after `set_active_user(u)` the active user is `u` |
| UserConfig.EncodeKey | grepo2_3.7.4.4.py:83-85 | encoding one token field changes no other key and keeps the field's truthiness |
| UserConfig.DecodeKey | grepo2_3.7.4.4.py:68-73 | decoding one token field changes no other key, and an undecodable value is left as it is |
| UserConfig.SaveUserConfigV2 | grepo2_3.7.4.4.py:79-85 | the loop over a copy encodes exactly the truthy github_token and openrouter_token; the caller's record is a value and is not changed |
| UserConfig.LoadUserConfigV2 | grepo2_3.7.4.4.py:60-77 | None for a missing or unparsable file; otherwise the record with both token fields decoded where possible |
| UserConfig.DecodeEncodeKey | grepo2_3.7.4.4.py:68-85 | decoding a field after encoding it restores the record |
| UserConfig.DecodeEncodeCommute | grepo2_3.7.4.4.py:68-85 | encoding one field and decoding another commute |
| UserConfig.LoadAfterSaveV2 | grepo2_3.7.4.4.py:60-89 | loading what `save_user_config` wrote gives back the caller's record, tokens included |
| UserConfig.LoadKeepsUndecodable | grepo2_3.7.4.4.py:70-73 | a truthy token field that cannot be decoded is kept as stored |
| UserConfig.SaveUserConfigV3 | grepo2_3.7.4.3.py:167-176 | the record has exactly the five keys; an empty OpenRouter token is stored as ""; the stored token is truthy exactly when the token is non-empty |
| UserConfig.RepairKey | grepo2_3.7.4.3.py:145-159 | the lenient decoder touches only its own field, and only when that field is truthy |
| UserConfig.LoadUserConfigV3 | grepo2_3.7.4.3.py:137-165 | a record exactly when the file parses, with the same keys as stored |
| UserConfig.LoadAfterSaveV3 | grepo2_3.7.4.3.py:137-176 | loading what the save wrote gives back username, model, the token and the OpenRouter token, an empty one included |
| UserConfig.SetActiveUserV3 | grepo2_3.7.4.3.py:131-135 | sets only active_user and keeps every other key |
| CodexConfig.AppendUnlessPresent | grepo2_3.5.py:655-658 | only appends: the old text is a prefix of the new; afterwards the marker is present; text already holding the marker is unchanged; nothing contained before is lost |
| CodexConfig.AddProvider | grepo2_3.5.py:655-656 | the provider block is appended unless its header is present; the old text stays a prefix, the header is present afterwards, and text already holding it is unchanged |
| CodexConfig.AddKeyComment | grepo2_3.5.py:657-658 | the key comment is appended unless its marker is present; the old text stays a prefix, the marker is present afterwards, and text already holding it is unchanged |
| CodexConfig.UpdateCodexConfig | grepo2_3.5.py:647-659 | the old content (or "" for a missing file) is a prefix of the new, which holds the provider header and the key-comment marker |
| CodexConfig.UpdateIdempotent | grepo2_3.5.py:655-658 | a second update, even with a different token, leaves the content unchanged |
| Changelog.Lookup | grepo2_3.7.3.py:181 | `dict.get(key, default)` |
| Changelog.EntryV1 | grepo2_3.7.3.py:181 | the entry is "- **<timestamp>** ", the emoji and the upper-cased type, then ":** <message>\n" |
| Changelog.SlotV1 | grepo2_3.7.3.py:194-197 | the entry goes to index 4 when there are more than three lines, else at the end |
| Changelog.WriteToChangelogV1 | grepo2_3.7.3.py:186-201 | the written text is the old text, or the fixed header for a missing file, split at '\n', with the right-stripped entry inserted at its slot and joined again |
| Changelog.LinesAfterWriteV1 | grepo2_3.7.3.py:193-201 | for a one-line entry, the written text splits into the old lines plus the entry at its slot, so no line is lost or reordered |
| Changelog.FindInsertPos | grepo2_3.7.4.py:207-217 | the first line that stops the scan decides: after a `## ` line containing "unreleased" in any case, or at a `### ` line past index 5. Without one the position is 0 |
| Changelog.EntryV2 | grepo2_3.7.4.py:197 | the entry is "\n**<timestamp>** ", the emoji and the upper-cased category, then "**: <message>\n" |
| Changelog.WriteToChangelogV2 | grepo2_3.7.4.py:197-224 | exactly one element, the entry, is inserted into the line list, and all old lines keep their order. The position is 0 exactly when no line stops the scan; otherwise it follows the first unreleased heading or sits at the first later "## " heading, with no stopping line before. A missing file gives the entry followed by "\n" |
| Changelog.WriteToChangelogV3 | grepo2_3.7.4.4.py:100-108 | a missing file gives the header plus the entry. Without "## Unreleased" the result is the header, the entry, "\n" and the old text. With it, every "## Unreleased\n" is followed by the entry |
| Changelog.HeaderV3 | grepo2_3.7.4.4.py:105-108 | the header a new changelog gets starts with "# Changelog\n" and ends with the "## Unreleased\n" line the update looks for |
| Changelog.EntryV3 | grepo2_3.7.4.4.py:98 | the entry is "- <timestamp> ", the level's icon, then " <message>\n" |
| Changelog.EntryLostWithoutMarkerLine | grepo2_3.7.4.4.py:103-104 | a marker never followed by "\n" makes the rewrite a no-op, so the entry is lost |
| Changelog.EmptyEntryKeepsMarkedText | grepo2_3.7.4.4.py:104 | each marker line gains exactly the entry: with an empty entry the text is unchanged |
| Roadmap.LeadingDigits | grepo2_3.5.py:565 | `(\d+)`: the longest run of digits at the front |
| Roadmap.PhaseOf | grepo2_3.5.py:565-567 | a matched phase is a non-empty digit string |
| Roadmap.PhaseOfMatches | grepo2_3.5.py:565 | a line made of whitespace, "PHASE" in any letter case, at least one whitespace character and a digit run not followed by a digit matches, and the captured phase is that digit run |
| Roadmap.PhaseOfParts | grepo2_3.5.py:565 | conversely, every line the pattern matches is made of those parts, with the captured phase as its digit run |
| Roadmap.UpToNewline | grepo2_3.5.py:569 | what `.` can cover: the prefix before the first newline, or the whole line without one |
| Roadmap.AfterCheckbox | grepo2_3.5.py:569 | what follows the brackets is strictly shorter than the line |
| Roadmap.CheckboxMatches | grepo2_3.5.py:569 | whitespace, '[', whitespace and ']' at the front of a line match, leaving exactly the rest of the line |
| Roadmap.CheckboxParts | grepo2_3.5.py:569 | conversely, every match is whitespace, '[', whitespace, ']' and the rest the model hands on |
| Roadmap.TaskContent | grepo2_3.5.py:569-571 | the content exists exactly when the checkbox matches; it is shorter than the line and has no whitespace at either end |
| Roadmap.TaskContentOfLine | grepo2_3.5.py:569-571 | the content of a checkbox line whose rest has no newline (but may end in one) is that rest stripped |
| Roadmap.TitleOf | grepo2_3.5.py:576 | the title `raw.strip().strip("*").strip()` is no longer than the raw title and has no whitespace at either end |
| Roadmap.TitleOfTrims | grepo2_3.5.py:576 | the raw title is the title with only whitespace and '*' in front of it and behind it |
| Roadmap.ClassifyStrict | grepo2_3.5.py:565-575 | a phase line exactly when the PHASE pattern matches, with a digit phase. A task line exactly when the pattern fails, the checkbox content exists and holds a ':'; its title is `TitleOf` of the part before the first ':' and its body the stripped rest |
| Roadmap.StrictTask | grepo2_3.5.py:565-576 | a non-phase line whose content is a colon-free head, ':' and a tail gives a task line titled TitleOf(head) with the tail stripped as its body |
| Roadmap.ParseRoadmapStrict | grepo2_3.5.py:562-579 | the parse loop yields exactly the records of the fold over the classified lines |
| Roadmap.StrictLine | grepo2_3.5.py:565-579 | one line: a phase heading sets the phase; otherwise the line yields the record of its classification under the current phase |
| Roadmap.StrictRecords | grepo2_3.5.py:562-579 | at most one record per line, each labelled "enhancement" and one phase label |
| Roadmap.StrictPhaseAppend | grepo2_3.5.py:563-567 | the phase after two consecutive parts is the phase the second part leaves, starting from the first part's phase |
| Roadmap.StrictRecordsAppend | grepo2_3.5.py:564-579 | the records of concatenated lines are those of the first part followed by those of the second, parsed under the phase the first part leaves |
| Roadmap.NoPhaseNoIssues | grepo2_3.5.py:563-570 | without a PHASE line no phase is set and no record is produced, so checkboxes before the first phase are dropped |
| Roadmap.StrictRecordsAtMostTasks | grepo2_3.5.py:564-579 | at most one record per task line |
| Roadmap.EveryTaskUnderPhase | grepo2_3.5.py:570-579 | once a phase is in force, every task line yields exactly one record |
| Roadmap.PhaseIsNearest | grepo2_3.5.py:565-567 | the phase in force is the one of the nearest preceding PHASE line |
| Roadmap.StrictLabels | grepo2_3.5.py:578 | every record's labels are exactly "enhancement" and "phase-" followed by digits |
| Roadmap.StrictPhaseShape | grepo2_3.5.py:565-567 | the phase in force is always a non-empty digit string |
| Roadmap.ParsedLabels | grepo2_3.5.py:565-578 | every record parsed from a file carries exactly the labels above |
| Roadmap.FirstColonSplit | grepo2_3.5.py:572-575 | a task is split at its first ':' only ("Fix: bug: x" gives "Fix" and " bug: x") |
| Roadmap.LowerCaseHeading | grepo2_3.7.4.4.py:353 | the dialects disagree on "phase 1": the strict one starts phase 1, the loose one ignores it |
| Roadmap.ClassifyLoose | grepo2_3.7.4.4.py:353-358 | a phase line exactly when the line starts with "PHASE" at column 0, its phase the whole stripped line. A task line exactly when otherwise the stripped line starts with "[ ]" and the stripped text after it holds a ':'; title and description are the stripped parts around the first ':' |
| Roadmap.LooseTask | grepo2_3.7.4.4.py:355-360 | a loose task whose text is a colon-free head, ':' and a tail gives the title head stripped and the description tail stripped |
| Roadmap.ParseRoadmapLoose | grepo2_3.7.4.4.py:348-363 | the file is split at '\n' and parsed by the loose fold |
| Roadmap.LooseRecords | grepo2_3.7.4.4.py:348-363 | at most one record per line, each labelled exactly ["roadmap", "enhancement"] |
| Roadmap.ParseLooseLines | grepo2_3.7.4.4.py:352-363 | the loop yields exactly the records of the loose fold over the classified lines |
| Roadmap.LooseLine | grepo2_3.7.4.4.py:353-363 | one line either sets the phase name or appends at most its record under the current phase |
| Roadmap.LooseRecordsShape | grepo2_3.7.4.4.py:355-362 | exactly one record per task line; every record has labels ["roadmap", "enhancement"] and a body starting with "**Phase:** " |
| Roadmap.EarlyTaskHasEmptyPhase | grepo2_3.7.4.4.py:349-361 | a task before the first PHASE line is kept, with the body "**Phase:** \n\n" plus the description |
| Roadmap.NoLoosePhase | grepo2_3.7.4.4.py:349 | without a PHASE line the phase name stays "" |
| IssueSync.RequestsSent | grepo2_3.5.py:613-633 | the loop sends requests in order until one raises; a raised request is the last one sent |
| IssueSync.CountCreated | grepo2_3.5.py:626-629 | the number of 201 replies never exceeds the number of requests |
| IssueSync.PostIssuesUnchecked | grepo2_3.5.py:601-635 | without a token nothing is sent. Otherwise the records are posted in order, up to the first exception, which escapes. `created` counts the 201 replies, so 0 ≤ created ≤ posted ≤ records |
| IssueSync.CountCreatedMonotone | grepo2_3.5.py:613-629 | `created` never decreases and grows by at most one per request |
| IssueSync.PayloadOf | grepo2_3.7.4.4.py:130-135 | title and body are sent as given; labels are sent exactly when the list is non-empty |
| IssueSync.CreateIssue | grepo2_3.7.4.4.py:127-145 | success exactly for a 201 reply that carries a number and a URL; an exception becomes `(False, message)` |
| IssueSync.FailedReplyMessage | grepo2_3.7.4.4.py:142-143 | a non-201 reply fails with "HTTP " plus its status, which can be read back |
| IssueSync.CreatedMessage | grepo2_3.7.4.4.py:139-141 | a created issue's message carries its number and ends with its URL |
| IssueSync.CountOk | grepo2_3.7.4.4.py:406-417 | the number of successes never exceeds the number of results |
| IssueSync.PostIssuesCounted | grepo2_3.7.4.4.py:406-417 | each record is posted once, in order, and `created + failed` equals the number of records |
| IssueSync.CountOkIsCreated | grepo2_3.7.4.4.py:410-413 | the successes counted are exactly the complete 201 replies |
| IssueSync.CountCreatedComplete | grepo2_3.7.4.4.py:139-141 | complete 201 replies are among the 201 replies |
| Stream.EventOf | grepo2_3.5.py:513-529 | a line that does not start with "data:" after stripping is ignored. On a data line, "[DONE]" (and only it) is Done; otherwise a shape error (and only it) is Fail, a JSON error or an empty delta is ignored, and a non-empty delta is appended |
| Stream.LineEvents | grepo2_3.5.py:513-529 | both loops handle each line the same way |
| Stream.LinesAppend | grepo2_3.5.py:508-514 | buffering is chunk-independent: the complete lines of a + b are those of a, then those of a's leftover plus b |
| Stream.LinesHaveNoNewline | grepo2_3.5.py:510-514 | no cut line contains '\n' |
| Stream.PendingHasNoNewline | grepo2_3.5.py:510-514 | the leftover buffer holds no '\n' |
| Stream.NoNewlineNoLines | grepo2_3.5.py:510-512 | text without '\n' yields no line and stays in the buffer |
| Stream.FeedAllIsReference | grepo2_3.5.py:516-531 | feeding lines to accumulated text c gives c followed by the reference result: the non-empty deltas in order, up to the first "[DONE]", or an abort at a failing line before it |
| Stream.Reference | grepo2_3.5.py:513-531 | without a line whose decoding fails, the stream completes |
| Stream.DrainUntilDone | grepo2_3.5.py:509-529 | the inner loop computes the drain function |
| Stream.AssembleUntilDone | grepo2_3.5.py:504-536 | an HTTP error status aborts; otherwise the outcome is that of the fold over the chunks |
| Stream.DrainToDoneFeeds | grepo2_3.5.py:509-529 | draining a buffer feeds exactly its complete lines and keeps the leftover |
| Stream.StateToDoneFeeds | grepo2_3.5.py:506-531 | chunk by chunk equals feeding the complete lines of the whole concatenated body |
| Stream.UntilDoneIsReference | grepo2_3.5.py:505-531 | the ends-on-"[DONE]" variant gives the reference result on the complete lines of the body |
| Stream.TrailingFragmentIgnored | grepo2_3.7.py:948-953 | a final fragment without '\n' contributes nothing |
| Stream.StoppedStaysStopped | grepo2_3.5.py:530-531 | once done or failed, later chunks change nothing |
| Stream.DrainUntilBreak | grepo2_3.7.4.4.py:291-310 | the inner loop of the break-only variant computes its drain function |
| Stream.AssembleBreakOnDone | grepo2_3.7.4.4.py:282-316 | an HTTP error status aborts; otherwise the outcome is that of the break-only fold |
| Stream.FailedStaysFailed | grepo2_3.7.4.4.py:282-316 | once a line has aborted, later chunks change nothing |
| Stream.DrainToBreakFeeds | grepo2_3.7.4.4.py:291-310 | without "[DONE]", draining feeds exactly the complete lines and keeps the leftover |
| Stream.BreakFeedsAll | grepo2_3.7.4.4.py:289-310 | without "[DONE]", the break-only variant feeds all complete lines of the body |
| Stream.VariantsAgreeWithoutDone | grepo2_3.7.4.4.py:289-310 | without "[DONE]" both variants give the same outcome |
| Stream.DoneOnlyLeavesLineLoop | grepo2_3.7.4.4.py:301-302 | a data line buffered after "[DONE]" is dropped by the first variant and by the second when no chunk follows; the second appends it when another chunk arrives |
| Stream.Snippet | grepo2_3.7.py:866 | a README of at most 100 characters is used whole; otherwise the first 50, "\n...\n" and the last 50, 105 characters in all |
| Menu.Move | grepo2_3.6.py:767-770 | Up moves up unless at 0, Down moves down unless at n-1, every other key keeps the selection, which stays in [0, n-1] |
| Menu.Position | grepo2_3.6.py:763-770 | the selection after any keys stays in [0, n-1] |
| Menu.RunCursesMenu | grepo2_3.6.py:760-774 | the key loop, starting at 0, computes the key-menu function |
| Menu.KeyMenu | grepo2_3.6.py:763-774 | a chosen index names an option; without keys the menu waits |
| Menu.FirstStop | grepo2_3.6.py:771-774 | the first 'q' or Enter key, with no stopping key before it |
| Menu.KeyMenuDecided | grepo2_3.6.py:764-774 | the first stopping key decides: 'q' cancels, Enter (KEY_ENTER, 10, 13) returns the selection the keys before it led to; with no such key the menu waits |
| Menu.ChosenInRange | grepo2_3.6.py:763-774 | a chosen index always names an option |
| Menu.ClampedKeys | grepo2_3.6.py:767-770 | Up at 0 and Down at n-1 are no-ops |
| Menu.UpperQIgnored | grepo2_3.6.py:771-772 | only lower-case 'q' cancels; 'Q' is ignored |
| Menu.ChoiceOf | grepo2_3.7.py:759-765 | "q" quits exactly; a parsed number picks number-1; anything else is invalid |
| Menu.ParseChoice | grepo2_3.7.py:759-765 | a line quits exactly when, stripped, it is "q" or "Q"; a picked index i means `int(line)` is i+1 |
| Menu.ChoiceOfNumber | grepo2_3.7.py:759-763 | a number typed as anything but "q" picks the entry before it |
| Menu.LowerDigits | grepo2_3.7.py:759 | lower-casing leaves digits alone |
| Menu.ParseDigits | grepo2_3.7.py:759-765 | a typed digit string picks its value minus one |
| Menu.ParseTypedNumber | grepo2_3.7.py:762-765 | typing the decimal text of m picks m-1 |
| Menu.ParseLines | grepo2_3.7.py:758-759 | each input line is parsed on its own, in order |
| Menu.RunNumberedMenu | grepo2_3.7.py:758-769 | the re-prompting loop computes the numbered-menu function |
| Menu.NumberedMenu | grepo2_3.7.py:758-769 | a chosen index names an option; without lines the menu waits |
| Menu.NumberedMenuDecided | grepo2_3.7.py:758-769 | the first accepted line decides: "q" gives None, a number in 1..n gives its index, always in range; earlier lines were out of range or not numbers; without one the menu waits |
| Menu.ModernMenuUnchecked | grepo2_3.7.3.4.5-tuitest.py:150-156 | a typed number m gives m-1 with no range check, so "0" gives -1 |
| Menu.ModernMenu | grepo2_3.7.3.4.5-tuitest.py:150-156 | "q" or "Q" gives None; an index i is only returned when `int(line)` reads and is i+1 |
| Menu.ConfigStatus | grepo2_3.7.3.4.5-tuitest.py:1052-1063 | "ready" exactly when both tokens are set, "partial" exactly when one is, "incomplete" exactly when neither is |
| Menu.Shorten | grepo2_3.7.3.py:877-878 | text over the limit becomes its first limit-3 characters plus "...", so it never exceeds the limit; shorter text is kept (limits 50 and 60) |
| Issues.AddInWork | grepo2_3.6.py:923-925 | "in-work" is appended exactly when absent, and existing labels keep their order |
| Issues.AddInWorkIdempotent | grepo2_3.6.py:923-925 | labelling twice equals labelling once; the old labels are a prefix; the members are the old ones plus "in-work" |
| Issues.SelectIssue | grepo2_3.6.py:905-935 | the first in-work issue if the query found one. Otherwise the oldest open issue, relabelled with "in-work" appended when it lacks the label. With neither, abort |
| Issues.WithoutOverview | grepo2_3.6.py:1222 | no issue is added; without an overview issue nothing is removed |
| Issues.WithoutOverviewMembers | grepo2_3.6.py:1222 | the candidates are exactly the issues other than the overview issue |
| Issues.WithoutOverviewAppend | grepo2_3.6.py:1222 | the filter works element by element, so order is kept |
| Issues.IterationLimit | grepo2_3.6.py:1133-1137 | empty input means "5"; an integer is taken as it is, any sign included; anything else gives 5 |
| Issues.EmptyLimitIsFive | grepo2_3.6.py:1133 | empty input gives 5 |
| Issues.Handle | grepo2_3.6.py:1294-1320 | one round adds at most one entry and never removes any |
| Issues.AutoDevelopment | grepo2_3.6.py:1198-1320 | the while loop computes the auto-development fold |
| Issues.AutoDev | grepo2_3.6.py:1198-1320 | the iteration count never goes back and the completed and failed lists only grow |
| Issues.AutoDevBounds | grepo2_3.6.py:1198-1320 | the loop runs at most max_iterations rounds and records at most one entry per round, keeping earlier entries |
| Issues.AutoDevSkipsOverview | grepo2_3.6.py:1218-1271 | the overview issue is never worked on |
| Issues.AutoDevStopsWhenEmpty | grepo2_3.6.py:1226-1260 | the loop ends before the limit only on a round without candidates |
| Issues.AutoDevAdvances | grepo2_3.6.py:1198-1199 | below the limit at least one more round runs |
| Issues.NoRoundsBelowOne | grepo2_3.6.py:1198 | a limit ≤ 0 runs no round |
| Issues.InWorkIssues | grepo2_3.7.4.py:928 | exactly the issues with a label named "in-work" |
| Issues.InWorkIssuesAppend | grepo2_3.7.4.py:928 | the filter keeps the API's order: the filtered concatenation is the concatenation of the filtered parts |
| Issues.OfferedIssues | grepo2_3.7.4.py:928-939 | at most 10 issues are offered: the first ten in-work ones if any exist, otherwise the first ten of all; something is offered whenever there are issues |
| Issues.FilterWorkIssues | grepo2_3.7.3.py:998-1004 | the loop keeps exactly the filtered issues, in order |
| Issues.AnyWorkLabel | grepo2_3.7.3.py:1003 | the any(...) is true exactly when some work label is among the lower-cased names |
| Issues.WorkLabelAmong | grepo2_3.7.3.py:1002-1003 | some work label is among the lower-cased names exactly for a work issue |
| Issues.LowerAll | grepo2_3.7.3.py:1002 | every label name is lower-cased, in order |
| Issues.LowerAllMembers | grepo2_3.7.3.py:1002-1003 | a lower-cased name is present exactly when some label lower-cases to it |
| Issues.Filtered | grepo2_3.7.3.py:998-1004 | only work issues are kept, and each work issue is kept |
| Issues.WorkLabelCaseInsensitive | grepo2_3.7.3.py:1002-1003 | "In-Work" counts as a work label |
| Analysis.JsonBlock | grepo2_3.6.py:2265-2269 | an extracted block starts with '{' and ends with '}' |
| Analysis.JsonBlockFound | grepo2_3.6.py:2265-2268 | a block is found exactly when some '}' comes after some '{' |
| Analysis.JsonBlockOutermost | grepo2_3.6.py:2265-2269 | the block runs from the first '{' to the last '}' |
| Analysis.CompletionV1 | grepo2_3.6.py:2258-2305 | success exactly for a 200 reply whose brace block decodes with issue_completed true |
| Analysis.JsonText | grepo2_3.7.3.py:527-530 | a reply without "```json" is parsed whole, stripped |
| Analysis.AfterFirstFence | grepo2_3.7.3.py:528 | the part after the first fence starts right after it |
| Analysis.BodyBeforeTicks | grepo2_3.7.3.py:528 | the text is cut at the next "```" |
| Analysis.FencedReply | grepo2_3.7.3.py:527-528 | the parsed text is what lies between the first "```json" and the next "```", stripped |
| Analysis.WithRequired | grepo2_3.7.3.py:535-538 | all five required keys exist; missing ones become 'UNKNOWN'; existing ones are untouched |
| Analysis.WithRequiredIdempotent | grepo2_3.7.3.py:535-538 | defaulting twice equals defaulting once |
| Analysis.FillRequired | grepo2_3.7.3.py:535-538 | the loop over the required fields computes the defaulting |
| Analysis.ApiFailed | grepo2_3.7.3.py:553-559 | the fallback for a missing reply has exactly the five required keys, with SHOULD_CLOSE 'NO' and COMPLETION_STATUS 'ERROR' |
| Analysis.Unparsable | grepo2_3.7.3.py:542-551 | the fallback for an unparsable reply has the five required keys plus raw_response, which holds the reply; SHOULD_CLOSE is 'NO' |
| Analysis.AnalyzeV2 | grepo2_3.7.3.py:524-559 | every result, fallbacks included, has the five required keys; it raises exactly when the reply decodes to JSON that is not an object |
| Analysis.CloseOnlyOnParsedYes | grepo2_3.7.3.py:524-594 | the close decision is YES exactly when the reply decoded to an object saying SHOULD_CLOSE 'YES' and COMPLETION_STATUS 'COMPLETE'; both fallbacks say 'NO'. Closing also needs Codex to have succeeded (line 574) and an owner, repo and issue number (line 585); the model leaves those to the caller |
| Analysis.ShouldCloseV2 | grepo2_3.7.3.py:594 | a YES decision needs both keys present and not 'UNKNOWN', so a defaulted field never closes |
| Analysis.Guess | grepo2_3.7.4.py:649-654 | the non-JSON guess has confidence 75 or 25, and it is 75 whenever it says completed |
| Analysis.ShouldCloseV3 | grepo2_3.7.4.py:766-767 | auto-close needs completed and a confidence above the guess's 75 |
| Analysis.AnalyzeV3 | grepo2_3.7.4.py:596-657 | no token or a failed request gives confidence 0; a 200 reply gives the parsed JSON, or the guess when it does not parse |
| Analysis.CloseOnlyOnParsedAnswer | grepo2_3.7.4.py:766-767 | auto-close is proposed exactly when a parsed answer says completed with confidence ≥ 80; the fallbacks never propose it |
| Git.WithoutGitSuffix | grepo2_3.7.3.py:758-759 | a trailing ".git" is dropped and nothing else changes |
| Git.RepoInfo | grepo2_3.7.3.py:750-765 | only URLs containing "github.com" are read. Owner and repo are '/'-free. They exist exactly when the URL without ".git" holds a '/' |
| Git.RepoInfoOfUrl | grepo2_3.7.3.py:756-763 | a GitHub URL of '/'-free parts, with or without ".git", gives its last two parts |
| Git.CommitOf | grepo2_3.7.3.py:431-439 | a line gives a commit exactly when it splits into exactly four '\|'-fields, and the fields re-join to the line |
| Git.CommitRoundTrip | grepo2_3.7.3.py:431-439 | a commit whose fields hold no '\|' is read back from its log line |
| Git.RecentCommits | grepo2_3.7.3.py:421-442 | a failing git gives no commits; otherwise the commits of the stripped output's lines |
| Git.ParseLog | grepo2_3.7.3.py:429-440 | the loop keeps exactly the parsed commits, in order |
| Git.CommitListed | grepo2_3.7.3.py:429-440 | a commit is listed exactly when some line parses to it, so messages containing '\|' are dropped |
| Git.ChangeKinds | grepo2_3.6.py:621-634 | a line gives a change exactly when, trimmed, it starts with "modified:", "new file:" or "deleted:". The first matching prefix decides the kind |
| Git.ModifiedPath | grepo2_3.6.py:623-624 | the path is the trimmed text after the first ':' |
| Git.AddedPath | grepo2_3.6.py:627-628 | the path is the trimmed text after the first ':' |
| Git.DeletedPath | grepo2_3.6.py:631-632 | the path is the trimmed text after the first ':' |
| Git.MonitorChanges | grepo2_3.6.py:615-634 | nothing for a failing or blank status; otherwise the changes of its lines |
| Git.ClassifyLines | grepo2_3.6.py:618-634 | the loop keeps exactly the classified changes, in order |
| Git.ClassifyLine | grepo2_3.6.py:622-634 | the if/elif chain computes the classification |
| Git.ChangeOf | grepo2_3.6.py:621-634 | a reported path is shorter than the line and has no whitespace at either end |
| Git.PathOf | grepo2_3.6.py:623-624 | the path after the first ':' is shorter than the line and has no whitespace at either end |
| Git.ChangeReported | grepo2_3.6.py:618-634 | a change is reported exactly when some line gives it |
| Git.CloneUrl | grepo2_3.7.3.1.py:353-354 | the URL changes only with a non-empty token and a "https://github.com/" URL |
| Git.CloneUrlWithToken | grepo2_3.7.3.1.py:353-354 | the scheme becomes "https://<token>@"; the rest changes only where it holds another "https://" |
| Git.CloneRepository | grepo2_3.7.3.1.py:348-361 | an existing target fails without running git; otherwise the result is git's on the rewritten URL |
| Git.PorcelainStatus | grepo2_3.7.3.1.py:380-382 | "clean" exactly when the porcelain output is blank, otherwise "dirty" |
| Git.InsertDesc | grepo2_3.7.3.1.py:866 | one insertion step keeps the same elements plus the new one |
| Git.SortByUpdated | grepo2_3.7.3.1.py:866 | the sort is a permutation |
| Git.InsertDescSorted | grepo2_3.7.3.1.py:866 | inserting into a descending list keeps it descending |
| Git.SortByUpdatedSorted | grepo2_3.7.3.1.py:866 | the result is descending by updated_at, missing read as "", and a permutation |
| Git.InsertDescWithKey | grepo2_3.7.3.1.py:866 | inserting keeps the relative order of equal keys |
| Git.SortByUpdatedStable | grepo2_3.7.3.1.py:866 | repositories with equal updated_at keep their original order (sorted with reverse=True is stable) |
| Git.StrLeTotal | grepo2_3.7.3.1.py:866 | string order is total |
| Git.SizeLabelReads | grepo2_3.7.4.3.py:979 | below 1 MiB the label is size // 1024 with " KB", a number below 1024 (so under 1 KiB shows "0 KB"). From 1 MiB on it is size // 1048576 with " MB" |
| Git.SizeLabel | grepo2_3.7.4.3.py:979 | the label ends in " KB" exactly below 1 MiB and in " MB" from 1 MiB on |

## Left out

- Network, processes and files: HTTP requests, `git`/`codex`/`npm` subprocesses, file
  reads and writes, and environment variables. Their results are parameters or oracle
  functions. JSON encoding and decoding are left out in the same way.
- Terminal rendering with curses and rich, prompts, and `time.sleep`. Only the key and text
  handling is modelled.
- `fetch_openrouter_models`: it parses prices as floats and sorts by a float rating.
- The Codex polling and timeout loop, and other process timing.
- The `LocalGitAPI` push and pull sequences, and the subprocess calls of `get_repo_info`
  apart from its clean/dirty rule.
- The file-tree walks: codebase content and the directory size sum. The size label itself
  is modelled.
- The prompt, comment, README and TOML templates, and the `log_to_issue` messages. This
  includes the "Untracked files:" branch of the status classifier, which only logs.
- The codex configuration file's rename from `cofig.toml` and the directory creation.
- Timestamps (`time.strftime`, `datetime.now`) are parameters.
- Text.Strip: Python strips Unicode whitespace; the model strips ASCII whitespace only
  (space, `\t` to `\r`, `\x1c` to `\x1f`). The same holds for `LStrip` and `RStrip`.
- Text.Lower: Python lower-cases all of Unicode; the model lower-cases ASCII letters only.
  `Text.Upper` has the same restriction.
- Text.PyInt: Python's `int()` accepts every Unicode decimal digit; the model accepts ASCII digits only.
- Roadmap.PhaseOf: `\s` and `\d` are Unicode-aware in Python; the model uses ASCII whitespace and digits.
- Codec.B64Decode: exact only on canonical base64, with padding only at the end of the last
  group. Python's `b64decode` silently discards characters outside the alphabet. It also skips
  '=' at the start of a group and stops at the first completed pad: "QUJD====" gives b'ABC',
  "QQ==QUJD" gives b'A' and "====" gives b''. The model rejects all of these.
- Codec.Deobfuscate: inherits the strictness of `B64Decode`.
- Codec.RepairingDeobfuscate: inherits the strictness of `B64Decode`. Python drops the
  URL-safe '-' and '_' from a token before decoding; the model rejects such a token.
- UserConfig.LoadUserConfigV3: reads keys through `RepairingDeobfuscate`, so a stored key
  holding '-', '_' or misplaced padding is treated as undecodable where Python would
  decode what remains.
- Stream.AssembleUntilDone: transport exceptions in the middle of the stream are not
  modelled. Only the HTTP status and the per-line decoding can abort.
- Stream.AssembleBreakOnDone: the same restriction as `AssembleUntilDone`.
- Menu.RunCursesMenu: the source blocks for the next key forever. The model ends with
  `Waiting` when the given keys run out.
- Menu.RunNumberedMenu: the source prompts forever; the model ends with `Waiting` when the given lines run out.
- IssueSync.PostIssuesUnchecked: `resp.json()` raising on a non-JSON body is folded into
  the server's "raised" answer.
- Issues.AddInWork: in `grepo2_3.6.py`:923 and `grepo2_3.7.py`:1042 a label without a
  'name' raises KeyError; the later versions read it as "". Labels are modelled by their
  names only, so neither case arises in the model.
- Issues.AutoDevelopment: the overview issue's creation, its progress comments and its
  final closing are left out; only the overview issue's number is modelled.
- Analysis.AnalyzeV3: a confidence that is not an integer in the model's JSON (a string, a
  float) is not modelled; the decoder oracle gives an integer confidence.
- Analysis.AnalyzeV2: a reply that decodes to valid JSON other than an object makes Python
  raise. A list, number or string raises TypeError when the loop indexes it
  (grepo2_3.7.3.py:535-538). A list or string that already holds all five field names
  raises AttributeError later, at the first `.get`. The model merges both into `Raises`.
- Analysis.JsonText: a reply whose "```json" overlaps other backticks is only characterised
  for fence-free surroundings, in `FencedReply`.
- The copies of the strict parser and of other routines that `grepo2_3.6.py` repeats after its
  module-level `return` are not modelled separately. The file as a whole does not compile.
