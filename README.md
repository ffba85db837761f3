# SR&ED session accounting, modelled in Dafny

This project models the session-accounting core of the SR&ED time logger
(`sred-time-system/scripts/sred_logger.py`). The logger reads tagged commits
from a repository's history. It groups them into work sessions and credits
each complete session with a gap-protected duration.

The model covers these parts:

- **Tag classifier.** A commit subject gets the first entry of the tag
  vocabulary (`exp:`, `obs:`, `test:`, `fail:`, `succeed:`, `pivot:`,
  `stop:`) that its lower-cased form starts with. A subject with no tag is
  dropped. The role predicates split the tags into the start tag `exp:`, the
  four end tags, and the intermediate tags.
- **Commit extraction.** This is the line loop of `get_sred_commits`. The
  query's output is stripped and split into lines. A line with two `|` is
  split into hash, date and subject, classified, and given a parsed
  timestamp and a hash of at most eight characters. The commits are then sorted by
  timestamp.
- **Session builder.** `build_sessions` is a single pass with a slot for at
  most one open session, a counter and the emitted list. Its transitions
  are:
  - open a session;
  - supersede the open session;
  - append an intermediate commit;
  - close the open session with an end commit;
  - make an orphan session from an end commit;
  - drop an intermediate commit while idle;
  - flush the open session at the end.
- **Duration.** `calculate_duration` sorts a complete session's commits by
  timestamp and sums the gaps between consecutive commits. A gap of more than
  four hours is credited one hour. An open session counts zero.
- **Derived fields and totals.**
  - `outcome`, `tags_involved`, `objective` and `hypothesis_id`.
  - The run total, which sums the complete sessions only.

Timestamps and durations are whole seconds. The cap is a gap above 14400,
which is credited 3600. A gap of exactly 14400 is credited in full. Session
ids are the counter's integer value.

Modules, one file each:

- `Text`: the Python string operations the core relies on.
  - `str.strip`, with Python's whitespace set.
  - `lower()` and `upper()`.
  - `split('|', 2)` and `split('\n')`.
  - Code-point ordering of strings, for `sorted`.
- `Commits`: the tag vocabulary, the role predicates, the classifier and the
  stable timestamp sort.
- `Sessions`: the session value and its derived fields.
- `Duration`: the gap-protected duration and the run total.
- `Builder`: the session builder.
  - Its transition function `Step` follows the loop body branch for branch.
  - `Build` is the fold of `Step` over the commits, followed by the flush.
  - `BuildSessions` is the loop itself.
- `Extract`: the line loop of `get_sred_commits`.
- `Scenarios`: worked cases on concrete commits.

The loops of the source are methods proved against functions:

| Method | Proved equal to |
|---|---|
| `Builder.BuildSessions` | `Builder.Build` |
| `Duration.CalculateDuration` | `Duration.SessionDuration` |
| `Commits.MatchTag` | `Commits.TagOf` |
| `Sessions.TagsInvolved` | a specification by set membership |
| `Sessions.Objective` | `Sessions.Truncate(Sessions.ObjectiveBody(...))` |
| `Extract.GetSredCommits` and `Extract.CollectLines` | `Extract.SredCommits` and `Extract.Collect` |

The properties are proved as lemmas about those functions.

## Model

| member | source | states |
|---|---|---|
| Commits.RolesPartitionTags | sred-time-system/scripts/sred_logger.py:31-52 | The vocabulary is exactly the start tag, the end tags, `obs:` and `test:`. No tag is both a start tag and an end tag. |
| Commits.FirstPrefixIsFirst | sred-time-system/scripts/sred_logger.py:157-163 | The classifier returns the entry at the smallest index that matches, when no earlier entry matches. |
| Commits.TagOfMeaning | sred-time-system/scripts/sred_logger.py:157-165 | A message has a tag exactly when its lower-cased form starts with some vocabulary entry. It then gets every such entry (so there is only one). |
| Commits.MatchTag | sred-time-system/scripts/sred_logger.py:157-163 | The early-exit loop over the vocabulary yields the message's tag, or none. |
| Commits.VocabularyPrefixFree | sred-time-system/scripts/sred_logger.py:31 | No vocabulary entry is a prefix of another entry. |
| Commits.AtMostOneTagMatches | sred-time-system/scripts/sred_logger.py:157-163 | At most one vocabulary entry can match a message, so the first-match rule never has to break a tie. |
| Commits.SortByTime | sred-time-system/scripts/sred_logger.py:175 | The sort by timestamp gives a sorted permutation of its input. It is stable: commits with equal timestamps keep their input order. |
| Commits.SortedTimesDetermined | sred-time-system/scripts/sred_logger.py:92-93 | After the sort, the timestamp sequence depends only on the multiset of timestamps, not on the input order. |
| Text.Strip | sred-time-system/scripts/sred_logger.py:147 | `strip()` cuts off exactly the leading and the trailing whitespace. The result is the slice of the input that starts after the leading whitespace, with only whitespace before it and after it, and it neither starts nor ends with whitespace. |
| Text.SplitJoin | sred-time-system/scripts/sred_logger.py:147 | Splitting the output into lines loses nothing: joining the lines with `\n` gives the output back. |
| Text.SplitParts | sred-time-system/scripts/sred_logger.py:147 | No line holds a newline. |
| Text.SplitFieldsSound | sred-time-system/scripts/sred_logger.py:151-155 | A line that splits 3 ways is `hash`, a bar, `date`, a bar, `subject`, with no bar in the hash or the date. |
| Text.SplitFieldsComplete | sred-time-system/scripts/sred_logger.py:151-155 | Every line of that form splits into exactly those three fields, whatever the subject holds. |
| Text.SplitFieldsSome | sred-time-system/scripts/sred_logger.py:151-153 | A line with two bars always splits into three fields. |
| Text.InsertSorted | sred-time-system/scripts/sred_logger.py:119-124 | Adding a tag to the sorted tag list keeps it strictly sorted and gives the old tags plus the new one. |
| Text.StrictlySortedUnique | sred-time-system/scripts/sred_logger.py:124 | The strictly sorted list of a set of strings is unique. |
| Text.LessTotal | sred-time-system/scripts/sred_logger.py:124 | Python's string order is total: of two different strings, one is smaller. |
| Text.LessTransitive | sred-time-system/scripts/sred_logger.py:124 | Python's string order is transitive. |
| Sessions.OutcomeMeaning | sred-time-system/scripts/sred_logger.py:109-114 | The outcome is `IN_PROGRESS` exactly when the session has no end commit. Otherwise, lower-casing the outcome and adding the stripped colon gives back the end tag. |
| Sessions.WordTag | sred-time-system/scripts/sred_logger.py:114 | A lower-case word with a colon after it strips back to the word. Its upper-case form lower-cases back to the word and is never `IN_PROGRESS`. |
| Sessions.EndTagOutcomes | sred-time-system/scripts/sred_logger.py:114 | The four end tags map to the outcomes `SUCCEED`, `PIVOT`, `STOP` and `FAIL`. |
| Sessions.TagsInvolved | sred-time-system/scripts/sred_logger.py:116-124 | The tag list is strictly sorted and holds exactly the tags of the start commit, the intermediate commits and the end commit. |
| Sessions.TagsInvolvedMeaning | sred-time-system/scripts/sred_logger.py:116-124 | The tag list has no duplicates and holds the start tag, plus the end tag when there is one. It is the only sorted list of those tags. |
| Sessions.Truncate | sred-time-system/scripts/sred_logger.py:82 | The objective is at most 103 characters. A body of up to 100 is kept whole. A longer body keeps its first 100 characters followed by `...`. |
| Sessions.Objective | sred-time-system/scripts/sred_logger.py:73-82 | The objective is the start message with its first matching tag cut off, stripped and truncated. It is at most 103 characters. |
| Sessions.ObjectiveOfStart | sred-time-system/scripts/sred_logger.py:76-80 | For a classified `exp:` start commit, the objective's body is the message after its first four characters, stripped. |
| Sessions.DigitRun | sred-time-system/scripts/sred_logger.py:70 | `\d+` takes the whole run of digits: every character in the run is a digit, and the run stops at the end or at a non-digit. |
| Sessions.FindFrom | sred-time-system/scripts/sred_logger.py:70 | The search returns the leftmost position where `EXP-` followed by a digit starts, or reports that there is none. |
| Sessions.HypothesisIdAt | sred-time-system/scripts/sred_logger.py:67-71 | At the position the search finds, the id is `EXP-` plus the whole run of digits after it. |
| Sessions.HypothesisIdMeaning | sred-time-system/scripts/sred_logger.py:67-71 | The id is `UNKNOWN` exactly when the message has no `EXP-` followed by a digit. Otherwise, at the leftmost match, the id is `EXP-` plus the maximal run of digits after it. |
| Duration.Credit | sred-time-system/scripts/sred_logger.py:99-103 | A non-negative gap is credited between 0 and four hours, and never more than the gap itself. |
| Duration.CalculateDuration | sred-time-system/scripts/sred_logger.py:84-107 | The loop's total is the duration: 0 for an open session, otherwise the sum of the credited gaps of the timestamp-sorted commits. |
| Duration.CreditedSumBounds | sred-time-system/scripts/sred_logger.py:95-105 | On sorted timestamps, the credited sum is at least 0 and at most four hours per gap. It never exceeds the span from the first commit to the last. |
| Duration.CreditedSumExtremes | sred-time-system/scripts/sred_logger.py:99-105 | With no gap over four hours, the sum is the raw span. When every gap is over four hours, it is one hour per gap. |
| Duration.DurationBounds | sred-time-system/scripts/sred_logger.py:89-105 | An open session counts 0. A complete one counts between 0 and four hours per gap between its commits, and at most its wall-clock span. |
| Duration.OrphanDurationZero | sred-time-system/scripts/sred_logger.py:92-105 | A session whose start and end are one commit, with no intermediates, counts 0. |
| Duration.DurationOrderIndependent | sred-time-system/scripts/sred_logger.py:92-93 | Thanks to the defensive sort, the duration does not depend on the order of the intermediate commits. |
| Duration.CompleteSessions | sred-time-system/scripts/sred_logger.py:234 | Selects exactly the sessions with an end commit. |
| Duration.IncompleteSessions | sred-time-system/scripts/sred_logger.py:235 | Selects exactly the sessions without an end commit. |
| Duration.SessionsPartition | sred-time-system/scripts/sred_logger.py:234-235 | The complete count plus the incomplete count is the number of sessions. |
| Duration.TotalSeconds | sred-time-system/scripts/sred_logger.py:233-235 | The run total is never negative. |
| Duration.TotalCountsCompleteOnly | sred-time-system/scripts/sred_logger.py:233-235 | The run total is the sum over the complete sessions. It is also the sum over all sessions, since an open session counts 0. |
| Duration.TotalBound | sred-time-system/scripts/sred_logger.py:233 | The run total is at most four hours per gap between commits of complete sessions. |
| Builder.BuildSessions | sred-time-system/scripts/sred_logger.py:179-226 | The loop computes the builder's function of its input. Its sessions are numbered 1..n and each is well formed: superseded or flushed open, closed, or orphan. Their commits in order are the input without the dropped intermediates. |
| Builder.BuildSessionsTwice | sred-time-system/scripts/sred_logger.py:179-226 | Building twice from the same commits gives the same sessions. |
| Builder.RunInv | sred-time-system/scripts/sred_logger.py:186-221 | After every prefix of the input, the following hold: ids run 1, 2, … and the counter is the next id; the slot is empty or holds an open session; the slot is filled exactly when a start commit came after the last end commit; the emitted and open commits are the kept commits in order; the session count is starts plus orphans; the complete count is the number of end commits. |
| Builder.SlotInvariant | sred-time-system/scripts/sred_logger.py:190-207 | The slot is empty or holds an incomplete session opened by a start commit. That session's id comes right after the emitted ones. The slot is filled exactly when the input has a start commit with no end commit after it. |
| Builder.Supersede | sred-time-system/scripts/sred_logger.py:191-201 | A start commit arriving while a session is open first emits that session unchanged, with no end commit. It then opens a new session that starts with the new commit and takes the next id. |
| Builder.OpenWhileIdle | sred-time-system/scripts/sred_logger.py:191-201 | A start commit arriving while idle opens a session with the next id and emits nothing. |
| Builder.CloseOpen | sred-time-system/scripts/sred_logger.py:203-207 | An end commit arriving while a session is open emits that session with the end commit set, and empties the slot. |
| Builder.OrphanEnd | sred-time-system/scripts/sred_logger.py:208-215 | An end commit arriving while idle emits exactly one session: it starts and ends with that commit, has no intermediates, takes the next id and counts 0. The slot stays empty. |
| Builder.AppendIntermediate | sred-time-system/scripts/sred_logger.py:217-220 | An intermediate commit is appended to the open session's intermediates. Nothing else changes. |
| Builder.DropWhileIdle | sred-time-system/scripts/sred_logger.py:217-220 | An intermediate commit arriving while idle changes nothing, in the state or in the result. |
| Builder.FlushOpen | sred-time-system/scripts/sred_logger.py:222-226 | At the end, an open session is emitted last, still incomplete. |
| Builder.BuildIds | sred-time-system/scripts/sred_logger.py:188-224 | The emitted sessions are numbered 1, 2, …, n in emission order. |
| Builder.BuildWellFormed | sred-time-system/scripts/sred_logger.py:190-224 | Every emitted session has one of three shapes. It is a start commit with intermediates (superseded or flushed), or such a session closed by an end commit, or an orphan end commit on its own. |
| Builder.BuildPartition | sred-time-system/scripts/sred_logger.py:190-224 | The sessions' commits, in order, are the input without the intermediates that arrived while idle. No commit is lost otherwise, reordered, or counted twice. |
| Builder.BuildCount | sred-time-system/scripts/sred_logger.py:190-224 | The number of sessions is the number of start commits plus the number of orphan end commits. |
| Builder.BuildCompleteCount | sred-time-system/scripts/sred_logger.py:203-215 | There is one complete session per end commit. The complete and incomplete sessions together are all the sessions. |
| Extract.ShortHash | sred-time-system/scripts/sred_logger.py:168 | The hash is cut to its first eight characters. A shorter hash is kept as it is. |
| Extract.ReplaceZ | sred-time-system/scripts/sred_logger.py:166 | The date handed to the parser holds no `Z`. A date without `Z` is passed unchanged. |
| Extract.ReplaceZChar | sred-time-system/scripts/sred_logger.py:166 | On one character, `Z` becomes `+00:00` and every other character stays as it is. |
| Extract.ReplaceZConcat | sred-time-system/scripts/sred_logger.py:166 | The replacement distributes over concatenation. With ReplaceZChar this fixes the result on every date. |
| Extract.ParseLineSkips | sred-time-system/scripts/sred_logger.py:147-165 | A line is skipped exactly when it is empty, does not split into three fields at its first two bars, or has a subject with no tag. |
| Extract.CollectLines | sred-time-system/scripts/sred_logger.py:145-172 | The line loop computes the reference reading of the lines, stopping at the first date the parser refuses. |
| Extract.GetSredCommits | sred-time-system/scripts/sred_logger.py:145-176 | Stripping, splitting, reading the lines and sorting yield the reference result. |
| Extract.ParseLineKeeps | sred-time-system/scripts/sred_logger.py:146-171 | A `hash`, a bar, `date`, a bar, `subject` line with a tagged subject and an accepted date yields exactly this commit: the short hash, the parsed date, the whole subject and its tag. |
| Extract.ParseLineKept | sred-time-system/scripts/sred_logger.py:146-171 | A kept commit is classified by its own subject, and its hash is at most eight characters and comes from the line's first field. |
| Extract.CollectSucceeds | sred-time-system/scripts/sred_logger.py:145-172 | Reading succeeds exactly when no kept line has a date that the parser refuses. |
| Extract.CollectMembers | sred-time-system/scripts/sred_logger.py:145-172 | A successful read holds exactly the commits of the lines that keep one. |
| Extract.CollectInOrder | sred-time-system/scripts/sred_logger.py:145-172 | A successful read is the list of kept commits in the order of their lines. Nothing is reordered, merged or dropped before the sort. |
| Extract.SredCommitsStable | sred-time-system/scripts/sred_logger.py:147-175 | Commits with the same timestamp come out in the order of their lines in the log. |
| Extract.CollectFirstFailure | sred-time-system/scripts/sred_logger.py:166 | A failed read reports the date of the first failing line. |
| Extract.SredCommitsMeaning | sred-time-system/scripts/sred_logger.py:127-176 | The commits are classified, have short hashes and are sorted oldest first. They are exactly the commits of the lines that keep one. The call fails exactly when some line's date is refused, and then reports the date of the first such line. |
| Extract.CollectKept | sred-time-system/scripts/sred_logger.py:145-172 | Every commit that a successful read holds is classified and has a hash of at most eight characters. |
| Extract.CollectBound | sred-time-system/scripts/sred_logger.py:145-172 | There are never more commits than lines. |
| Scenarios.SimpleClosedSession | sred-time-system/scripts/sred_logger.py:179-226 | Start, an observation an hour later and success an hour after that make one complete session numbered 1. It counts two hours and its outcome is `SUCCEED`. |
| Scenarios.GapProtection | sred-time-system/scripts/sred_logger.py:99-103 | An eleven-hour gap is credited one hour. A gap of exactly four hours is credited in full, and one second more is credited one hour. |
| Scenarios.Supersession | sred-time-system/scripts/sred_logger.py:191-207 | A second `exp:` emits the first session open. The end commit closes the second one, and only the second counts toward the total. |
| Scenarios.OrphanAndDropped | sred-time-system/scripts/sred_logger.py:208-220 | An idle `obs:` is dropped. An idle `stop:` becomes a complete orphan session that counts 0. |
| Scenarios.TrailingOpenSession | sred-time-system/scripts/sred_logger.py:222-224 | A session still open at the end is `IN_PROGRESS` and adds nothing to the total. |

## Left out

- The `git log` subprocess, its arguments (`--since`, `--until`, `--all`) and its error handling. These are process I/O. The extraction starts from the text the query prints.
- No error result is modelled for a failed query, which returns an empty list.
- `datetime.fromisoformat` and time zones are a library call. They are the parameter `parse`, which yields whole seconds or refuses the date. A refused date is the `BadTimestamp` result, standing for the uncaught `ValueError`.
- Comparing naive and aware datetimes during the sort (a `TypeError`) is not modelled.
- Float hours and `round(total_hours, 2)`. Durations are exact integer seconds. The per-session rounding before summing is not modelled.
- The `SESSION-%03d` formatting of ids. Ids are the counter's integer.
- Report rendering and the `datetime.now()` header: the markdown time log, the timeline's 50-character message cut and the static audit text.
- The JSON output, configuration loading, `argparse` and file output in `main`. These are presentation and command-line plumbing.
- In-place mutation of `current_session` is modelled as value updates of the open session in the builder's state. Nothing is lost by this: the source never changes a session after appending it to the output.
- Text.Lower: maps ASCII letters only. Python's `str.lower` also maps non-ASCII letters, some to more than one character.
- Text.Upper: maps ASCII letters only, so `outcome` is exact only for ASCII end tags, which all four end tags of the vocabulary are.
- Sessions.IsDigit: matches `0`–`9` only. Python's `\d` on `str` also matches other Unicode decimal digits.
- A general regular-expression engine is not modelled. Only the `EXP-\d+` search is, by hand.

Two facts about the source shape the builder model:

- `build_sessions` (sred-time-system/scripts/sred_logger.py:179-226) does not check that its input is sorted. The builder model accepts commits in any order, and its lemmas about ids, counts and the partition have no sortedness precondition. What the builder returns still depends on that order: an end commit and then a start commit give two sessions, and the other way round gives one.
- On supersession the source appends the open session object as it is, still without an end (sred-time-system/scripts/sred_logger.py:193-195). The model emits that session unchanged.
