# Jira-to-GitHub issue conversion, modelled in Dafny

`jira_to_github.py` moves issues from Jira Cloud to GitHub Issues. This model covers the part that turns each Jira
issue into a GitHub-shaped record:

- decoding the sprint string that Jira's GreenHopper plug-in stores in `customfield_10020`;
- mapping one issue's fields (state, milestone, assignee, body, comments);
- collecting the distinct milestones of all converted issues;
- the paging loop that gathers the issues.

The talks to the Jira and GitHub services are not modelled.

Modules:

- `Wrappers`: `Option` and `Result`.
- `Text`: Python's `str.split` with a one-character separator, which keeps empty pieces, and the join that undoes
  it.
- `SprintDecoder`: models `extract_sprint_fields`.
  - `re.search(r'\[(.*)\]', s)` is modelled exactly. The match starts at the leftmost `[` that has a `]` after it
    on the same line, and ends at the last such `]`, because `.` stops at a newline and `.*` is greedy.
  - The span is then split on `,` and each field on `=`.
  - The dictionary is built in a loop (`ExtractSprintFields`). Each exception the source can raise is a
    `SprintError`: `NoSprintEntry` for the `IndexError` on an empty list, `NoBracketSpan` for the `AttributeError`
    on a failed search, `MissingEquals` for the `IndexError` on a field with no `=`.
- `FieldMapper`: the record `map_issue_fields` builds, and the comment loop. The `KeyError` on an assignee missing
  from `USER_MAPPING` is `UnknownAssignee`.
- `Milestones`: `extract_milestones` as written, and `DistinctMilestones`, the deduplication it evidently intends.
- `Pagination`: the `convert_issues` loop as written (`ConvertIssues`), and the same loop passing the running
  offset (`ConvertIssuesPaged`).

### Where the code differs from what it evidently intends

The model follows the code in each case:

- One would expect a sprint field's value to be everything after its first `=`. The code keeps `split('=')[1]`, so
  the value is the text between the first and the second `=` (`SprintDecoder.KeyValueText`).
- One would expect milestones to be deduplicated as (name, description, due date) tuples, and the removal of the
  empty tuple to be skipped when it is absent. The code deduplicates each field on its own, zips the three sets,
  and raises `ValueError` when `(None, None, None)` is not among the zipped tuples (see Findings).
- One would expect the search offset to advance page by page. The code never passes `startAt` (see Findings).

## Model

| member | source | states |
|---|---|---|
| Text.Split | jira_to_github.py:204 | `str.split` always yields at least one piece, and no piece contains the separator |
| Text.JoinSplit | jira_to_github.py:204 | joining the pieces of a split with the separator gives back the original text: split loses nothing |
| Text.SplitJoin | jira_to_github.py:208 | splitting a join of separator-free pieces gives back exactly those pieces |
| SprintDecoder.LineEnd | jira_to_github.py:202 | the end of a `.*` run is the first newline at or after the start, or the end of the string |
| SprintDecoder.LastClose | jira_to_github.py:202 | finds the last `]` in a range, the point where the greedy `.*` backtracks to, or says there is none |
| SprintDecoder.SpanFrom | jira_to_github.py:202 | the regex match from a position is the leftmost `[` with a `]` later on its line, ending at the last such `]`; every earlier `[` has no `]` on its line; no match means no `[` has one |
| SprintDecoder.Search | jira_to_github.py:202 | a match is a `[` and a later `]` with no newline between, and every earlier `[` has no `]` on its line; there is no match iff no `[` has a `]` after it on its line |
| SprintDecoder.Group | jira_to_github.py:202-203 | `group(1)` exists exactly when the search matches, and never contains a newline |
| SprintDecoder.SingleLineSpan | jira_to_github.py:202 | on a single line, a match exists iff a `]` follows the first `[`; it runs from the first `[` to the last `]` |
| SprintDecoder.BracketedGroup | jira_to_github.py:202-203 | for `prefix[inner]` on one line with no `[` in the prefix, the group is exactly `inner`, even when `inner` holds brackets |
| SprintDecoder.EmptyBracketsFail | jira_to_github.py:202-210 | an entry with empty brackets `[]` raises at `key_value[1]` |
| SprintDecoder.TrailingCommaFails | jira_to_github.py:204-210 | a span ending in `,` leaves an empty last field and raises at `key_value[1]` |
| SprintDecoder.HasValueIff | jira_to_github.py:208-210 | `key_value[1]` exists iff the field contains `=` |
| SprintDecoder.KeyValueText | jira_to_github.py:208-210 | the key is the text before the first `=`; the value is the text between the first and second `=`, so anything after a second `=` is dropped |
| SprintDecoder.FieldMap | jira_to_github.py:207-211 | every field's key is in the dictionary the loop fills |
| SprintDecoder.Decode | jira_to_github.py:196-213 | `extract_sprint_fields` returns a dictionary iff the first entry has a bracket span and every comma-separated field in it contains `=`; once a span is found, any failure is the missing `=` |
| SprintDecoder.ExtractSprintFields | jira_to_github.py:196-213 | the loop returns the decoded dictionary, or raises in exactly the cases `Decode` gives |
| SprintDecoder.FieldMapKeys | jira_to_github.py:207-211 | the dictionary's keys are exactly the keys of the fields |
| SprintDecoder.FieldMapLastWins | jira_to_github.py:211 | a field whose key no later field repeats gives that key its value: for repeated keys the last field wins |
| SprintDecoder.OnlyFirstEntryRead | jira_to_github.py:202 | only `sprint_data[0]` is read; further sprint entries change nothing |
| SprintDecoder.DecodeFailures | jira_to_github.py:202-210 | decoding raises `NoSprintEntry` iff the list is empty, `NoBracketSpan` iff the search fails, `MissingEquals` iff some field lacks `=` |
| FieldMapper.Get | jira_to_github.py:242-244 | `dict.get` is None exactly for an absent key, and the stored value otherwise |
| FieldMapper.StateOf | jira_to_github.py:229-234 | the issue is closed iff its status category key is `done`, and open otherwise |
| FieldMapper.MilestoneOf | jira_to_github.py:236-247 | the milestone is `{}` iff the sprint field is falsy; it raises iff the field is truthy and decoding raises, with the same error; otherwise it holds `get('name')`, `get('endDate')` and `get('goal')` of the decoded dictionary, each None when the key is absent |
| FieldMapper.LastValue | jira_to_github.py:207-211 | reference for a dictionary filled in order: None iff no pair has the key, otherwise the value of the last pair with that key |
| FieldMapper.FieldMapOfPairs | jira_to_github.py:207-211 | `get(k)` on the dictionary built from plain `k=v` fields equals the value of the last field with key `k`, or None when there is none |
| FieldMapper.SprintEntryMilestone | jira_to_github.py:236-245 | a sprint entry of plain `key=value` fields, with any keys in any order, gives the milestone whose name, due date and description are the last `name`, `endDate` and `goal` values, each None when absent |
| FieldMapper.EntryWithoutGoal | jira_to_github.py:241-245 | an entry with no `goal` field gives a milestone whose description is None |
| FieldMapper.SprintExample | jira_to_github.py:236-245 | a typical entry `Sprint@1b2c[id=7,rapidViewId=3,state=CLOSED,name=Sprint 1,startDate=2020-01-01,endDate=2020-01-15,completeDate=<null>,sequence=7,goal=Ship it]` gives milestone `Sprint 1`, due `2020-01-15`, described `Ship it` |
| FieldMapper.AssigneeOf | jira_to_github.py:249-252 | no assignee gives NotSet; a key in the user table gives its login; a key missing from the table raises, naming that key |
| FieldMapper.ShippedUserTable | jira_to_github.py:54 | with the table as shipped, only `jira_username` maps (to `github_username`); every other assignee raises |
| FieldMapper.Body | jira_to_github.py:254-260 | the body starts with the provenance line; it is that line alone iff the description is falsy, and otherwise that line, a newline and the description |
| FieldMapper.BodyRoundTrip | jira_to_github.py:254-260 | a non-empty description can be read back out of the body; an empty or absent one is not kept |
| FieldMapper.FormatComment | jira_to_github.py:224-226 | a formatted comment starts with the `Author: <author>` line and ends with the comment body |
| FieldMapper.FormatComments | jira_to_github.py:220-227 | one formatted string per comment, in the same order |
| FieldMapper.CommentRoundTrip | jira_to_github.py:224-226 | author, timestamp and body can be read back out of a formatted comment when author and timestamp are single-line |
| FieldMapper.MappedIssue | jira_to_github.py:216-278 | the mapping raises iff the sprint fails to decode or the assignee is unknown; a sprint failure takes precedence, otherwise the error names the unknown assignee key; on success the id, title, labels, project and status are copied, the state is closed iff `done`, the milestone is `MilestoneOf`'s record, the assignee is `AssigneeOf`'s login or NotSet, and body and comments are formatted |
| FieldMapper.MapIssueFields | jira_to_github.py:216-278 | the step-by-step mapping returns exactly the record, or the error, that `MappedIssue` gives |
| Milestones.DedupedSets | jira_to_github.py:180-185 | the name, description and due-date sets hold exactly the values their field takes on some issue, and are empty iff there are no issues |
| Milestones.Zip3 | jira_to_github.py:188-190 | `zip` of three sequences has the length of the shortest, and its i-th tuple takes the i-th element of each |
| Milestones.RemoveFirst | jira_to_github.py:191 | `list.remove` raises iff the element is absent, and otherwise drops its first occurrence and keeps the rest in order |
| Milestones.Extracted | jira_to_github.py:188-193 | `extract_milestones` raises iff `(None, None, None)` is not among the zipped tuples; otherwise it returns one tuple fewer than the shortest set, each one of the zipped tuples |
| Milestones.ExtractMilestones | jira_to_github.py:176-193 | the scan-and-remove returns exactly what `Extracted` gives for the three set orders |
| Milestones.ExtractedShape | jira_to_github.py:188-191 | the call succeeds iff `(None, None, None)` is among the zipped tuples; it then yields one tuple fewer than the shortest set, and never that tuple |
| Milestones.ExtractedCount | jira_to_github.py:180-191 | on success, the number of milestones is one less than the number of distinct values of the scarcest field |
| Milestones.ExtractedProvenance | jira_to_github.py:180-191 | every produced tuple combines a name, a description and a due date each seen on some issue, though not necessarily on the same one |
| Milestones.ExtractedFailsWithoutUnscheduledIssue | jira_to_github.py:180-191 | when every issue has a named sprint, or there are no issues, the call raises |
| Milestones.DueDateOnlyDifferenceLost | jira_to_github.py:180-191 | three issues whose two sprints differ only in due date yield at most one milestone in every set order, so one sprint is lost |
| Milestones.UnalignedSentinelRaises | jira_to_github.py:180-191 | an issue with a sprint and one without can still raise, when None sits at different positions in the set orders |
| Milestones.DistinctMilestones | jira_to_github.py:176-193 | the intended aggregation: the distinct (name, description, due date) tuples of the issues, except the no-sprint tuple, without failure |
| Pagination.SearchPage | jira_to_github.py:297-298 | a search returns at most `maxResults` issues, the slice of the matching issues starting at `startAt` |
| Pagination.Pages | jira_to_github.py:296-303 | the loop body runs no time iff the result count is zero |
| Pagination.PagesBounds | jira_to_github.py:296-303 | the loop runs the least number of passes whose total step reaches the result count: ceil(total / max_results) |
| Pagination.ConvertIssues | jira_to_github.py:281-305 | as written, the result is the first page repeated once for each pass of the loop |
| Pagination.RefetchesFirstPage | jira_to_github.py:296-303 | with more matching issues than one page holds, the first page is collected at least twice and no issue beyond it is ever collected |
| Pagination.ConvertIssuesPaged | jira_to_github.py:281-305 | with the offset passed, the collected issues are all matching issues, each once and in order |

## Left out

- `create_github_milestones`, `create_github_issues`, `create_github_projects` and `main` (jira_to_github.py:57-173,
  308-340) only call the GitHub and Jira services; they are not part of this model.
- The due-date parsing with `dateutil` (jira_to_github.py:131) is not part of this model.
- `jira_api.comments` (jira_to_github.py:222) is a network call. The comments it returns are a field of
  `JiraIssue`.
- `search_issues` (jira_to_github.py:288-298) is a network call. It is modelled as a slice of a fixed list of
  matching issues, and a search without `startAt` starts at the Jira client's default offset, 0. The metadata
  search is modelled only by the total it reports: the length of that list.
- The mapping of each issue inside `convert_issues` (jira_to_github.py:300) is not repeated in `Pagination`. The
  loop is generic in the element type, so it says which Jira issues are collected, not how each is converted.
- The set comprehensions for statuses and projects in `main` (jira_to_github.py:327-328) are not modelled.
- Logging, flags and the `USER_MAPPING` TODO are not modelled.
- Python set iteration order is not modelled. It is arbitrary, so `Milestones.ExtractMilestones` takes the three
  orders as parameters, and its lemmas hold for every order that lists each set once (`Enumerates`).
- Pagination.ConvertIssues: requires `max_results > 0`. With 0 the source loops forever whenever there is an
  issue; the shipped caller passes 500.
- A sprint entry that is not a string (a `TypeError` in `re.search`) cannot arise in the model, because the sprint
  field is a list of strings.

## Findings

| source | as written | input that shows it | evidently intended | confidence | as-written member | corrected member |
|---|---|---|---|---|---|---|
| jira_to_github.py:180-191 | names, descriptions and due dates are deduplicated as three separate sets, which are then zipped together; `remove` raises when no zipped tuple is `(None, None, None)` | three issues: sprint (S, goal G, due D1), sprint (S, goal G, due D2), and one without a sprint; at most one milestone comes out. Or issues with sprint (S, G, D) and with none, iterated so None is first among names and last among descriptions; this raises `ValueError` | one milestone per distinct (name, description, due date) tuple, without the no-sprint tuple and without failing when it is absent | high, not executed | Milestones.DueDateOnlyDifferenceLost, Milestones.UnalignedSentinelRaises | Milestones.DistinctMilestones |
| jira_to_github.py:296-303 | every search is issued without `startAt`, so each pass fetches the first `max_results` issues again | 3 matching issues with `max_results` 2: issues 1 and 2 are collected twice and issue 3 never; likewise 501 issues with the shipped 500 | each search starts at `result_index`, so every matching issue is collected once | high, not executed | Pagination.RefetchesFirstPage, Pagination.ConvertIssues | Pagination.ConvertIssuesPaged |
