# TaskPaper document model in Dafny

A model of `taskpaper.py`, a small library for TaskPaper outlines. A
TaskPaper document is a single text buffer. Projects are heading lines
`name:`, indented with tabs. Tasks are lines `- text @tag @tag(value)`, one
tab deeper than their project. Every view the library offers is recomputed
from offsets into that one buffer:

- where a project's heading is;
- where its heading line ends;
- where its extent ends;
- which task lines it holds, and what tags they carry.

Every mutation splices the buffer.

The buffer is a `string` threaded through pure functions. A project is the
datatype `Project(name, indentLevel)`. A task is
`Task(description, tags, notes, project)`. The per-project task list is
`TaskCache(snapshot, items)`: the buffer as it was when the project object
was built, and the tasks the list holds.

The modules follow the structure of the source:

| module | file | what it holds |
|---|---|---|
| `Text` | `text.dfy` | `str.find`, Python slicing, `str.strip`, `\s` and `\w` |
| `Document` | `document.dfy` | the `Base` splice primitives and `create_project` |
| `Projects` | `projects.dfy` | `project_index`, `next_newline`, `next_project_index`, `get_all_indexes`, `get_by_name`, `add_subproject` |
| `Outline` | `outline.dfy` | how an extent is laid out as lines, and a description as text followed by tags |
| `TaskSyntax` | `task_syntax.dfy` | the task-line and tag regular expressions as left-to-right scans, and both versions of the clean-up |
| `TagRemoval` | `tag_removal.dfy` | when the clean-up as written gives back the description |
| `Tasks` | `tasks.dfy` | `Task`, the `Tasks` list, the project objects `create_project` and `add_subproject` return, `add_task` and `complete` |
| `Scenarios` | `scenarios.dfy` | worked documents that follow one operation from buffer text to result |

The two regular expressions are modelled as the scans Python's
`re.findall` performs:

- the task line `\n\t{n}-(?:\s|\t)(.*)(?:(?=@)|(?=\n))`;
- the tag `@\w+(?:\(.*\))?`.

At each offset the scan tries a match. After a match it resumes where the
match ended; otherwise it moves one character on. What a match covers is
written out as a function of the text: the greedy `.*`, the look-ahead, and
the backtracking to the last `@` on an unterminated final line.

## Model

| member | source | states |
|---|---|---|
| Text.Find | taskpaper.py:39-40 | `str.find`: -1 exactly when the query occurs nowhere; otherwise the query occurs at the result and at no earlier offset |
| Text.FindUnique | taskpaper.py:39-40 | an offset holding the query with no earlier occurrence is the one `find` returns |
| Text.PySlice | taskpaper.py:192-193 | Python slicing: bounds clamped, negative ones counted from the end, empty when the start lands past the end |
| Text.Strip | taskpaper.py:204 | `strip()` leaves no whitespace at either end, and leaves nothing exactly when the text is all whitespace |
| Text.StripIsStretch | taskpaper.py:204 | what `strip()` leaves is one stretch of the text, with only whitespace before and after it |
| Text.StripPadding | taskpaper.py:204 | whitespace around trimmed text is exactly what `strip()` removes |
| Document.Insert | taskpaper.py:21-25 | the buffer keeps its prefix before the insertion offset; the content (and a newline when asked) follows, then the old suffix; the length grows by exactly the payload |
| Document.Replace | taskpaper.py:27-31 | the prefix up to `start` is kept, the content follows, then the buffer from `end`; bounds are clamped as Python slices are |
| Document.ReplaceFrame | taskpaper.py:27-31 | for a proper range, the length changes by the content's length minus the range's, and every character outside the range keeps its value, shifted past the new content |
| Document.TextPosition | taskpaper.py:39-40 | the result is relative to `from`: the query occurs at `from + r` and nowhere between, or -1 when it occurs nowhere at or after `from` |
| Document.TextPositionOfChar | taskpaper.py:65-69 | a one-character search finds the first position holding that character, or reports that none follows |
| Document.CreateProject | taskpaper.py:5-19 | the returned project has the given name and level; the buffer gains an optional newline, `indentLevel` tabs, `name:` and ALWAYS a newline at the clamped position, with nothing else changed |
| Document.CreateProjectInside | taskpaper.py:5-19 | at an offset inside the buffer, the heading (tabs, `name:`, newline) is inserted there and the rest of the buffer is kept on both sides |
| Document.CreateProjectIsFound | taskpaper.py:5-19 | after `create_project`, searching for `name:` finds the new heading, when the name has no colon and the text before the insertion point does not already hold `name:` |
| Projects.ProjectIndex | taskpaper.py:61-63 | the heading offset is the first occurrence of `name:`, or -1 when the heading is gone |
| Projects.NextNewline | taskpaper.py:65-69 | the first newline at or after the heading; when none follows, the offset just before the heading (the relative -1 added to the heading offset); for a name without newlines it lies past the name |
| Projects.TaskInsertPosition | taskpaper.py:114-115 | the insertion point of `add_task` is just past the first newline at or after the heading; when the heading line is unterminated it is the heading's own offset |
| Projects.LevelIndexes | taskpaper.py:124-127 | the comprehension holds exactly the heading offsets of the listed projects at that level |
| Projects.SortedDistinct | taskpaper.py:125 | `sorted(set(xs))` is strictly ascending and has the same members as `xs` |
| Projects.AllIndexes | taskpaper.py:124-127 | `get_all_indexes` is strictly ascending and holds exactly the heading offsets of the projects at that level |
| Projects.IndexOf | taskpaper.py:79 | `list.index` gives the first position holding the value |
| Projects.NextProjectIndex | taskpaper.py:71-81 | the extent ends after the heading, at the least heading offset of the SAME level that is greater than the project's own, or at the buffer length when no such heading exists (exactly then) |
| Projects.SiblingExtentsDisjoint | taskpaper.py:71-81 | of two projects at the same level, the one whose heading comes first has its extent end at or before the other's heading |
| Projects.GetByName | taskpaper.py:119-122 | the first project in the list with that name, and nothing exactly when no project has it |
| Projects.AddSubproject | taskpaper.py:90-97 | the subproject is one level deeper than its parent, and the buffer grows by its heading line |
| Projects.AddSubprojectLayout | taskpaper.py:90-97 | the subproject heading goes in at the last character of the parent's extent, which lies in the buffer at or after the parent's heading; all other text is kept |
| Projects.LineStartBefore | taskpaper.py:90-97 | the start of the line holding an offset: at or before it, after a newline or at the buffer's start, with no newline in between |
| Projects.AddSubprojectOnOwnLine | taskpaper.py:90-97 | the corrected `add_subproject`: the heading, one level deeper, goes in at the start of the line where the parent's extent ends (or after a final unterminated line), so it sits on a line of its own and every other line keeps its tabs |
| TaskSyntax.TaskMatchAt | taskpaper.py:188-189 | a match needs a newline, exactly `n` tabs, a dash and one whitespace; the capture runs to the end of the line when a newline follows, else to the last `@` of the final line, and there is no match when the final line has none |
| TaskSyntax.ScanTasksOrdered | taskpaper.py:192-193 | `findall` reports its matches in buffer order, none overlapping the next |
| TaskSyntax.ScanTasksSound | taskpaper.py:192-193 | every reported match is a match of the pattern at its start |
| TaskSyntax.ScanTasksComplete | taskpaper.py:192-193 | every offset where the pattern matches lies inside a reported match |
| TaskSyntax.TaskCaptures | taskpaper.py:187-193 | one capture per match, none spanning a line break |
| TaskSyntax.TaskLineMatches | taskpaper.py:188-189 | a task line of the scanned depth matches at its newline and captures its text after `- ` |
| TaskSyntax.OtherLineDoesNotMatch | taskpaper.py:188-189 | a line of another depth, or one that is not a dash and whitespace, gives no match |
| TaskSyntax.ScanRenderedLines | taskpaper.py:187-193 | over an extent laid out as lines, optionally followed by the tabs of the next heading, the scan yields exactly the task lines of the scanned depth, in order, each as its text after `- `; headings, notes and deeper or shallower lines yield nothing |
| TaskSyntax.TagMatchAt | taskpaper.py:197 | a tag starts with `@` and a word character; it ends after the word run, or at the last `)` on the line when `(` follows the run |
| TaskSyntax.ScanTagsOrdered | taskpaper.py:197-198 | the tags come in order of appearance and do not overlap |
| TaskSyntax.ScanTagsSound | taskpaper.py:197-198 | every tag reported is a match of the tag pattern at its start |
| TaskSyntax.ScanTagsComplete | taskpaper.py:197-198 | every offset where the tag pattern matches lies inside a reported tag |
| TaskSyntax.ExtractTags | taskpaper.py:195-198 | one string per tag found, each an `@` followed by a word character |
| TaskSyntax.UntaggedPartition | taskpaper.py:200-204 | removing the tags loses no other character: what is kept and what the tags hold add up to the whole text |
| TaskSyntax.UntaggedIsGaps | taskpaper.py:200-204 | removing the tag matches keeps exactly the text between the tags the scan reports, in order |
| TaskSyntax.CleanupTask | taskpaper.py:200-204 | the corrected clean-up is the stripped text between the tags found; it has no whitespace at either end, and its length plus the tags' total length is at most that of the line |
| TaskSyntax.CleanupsWithoutTags | taskpaper.py:200-204 | a line without tags comes out of either clean-up only stripped |
| TaskSyntax.SubLiterals | taskpaper.py:201-204 | `re.sub` with an alternation of literals never lengthens the text |
| TaskSyntax.SubSpans | taskpaper.py:201-204 | the stretches `re.sub` deletes lie in the text, each non-empty and at or after the scan's start |
| TaskSyntax.SubSpansSound | taskpaper.py:201-204 | each deleted stretch starts where an alternative occurs, and is exactly as long as the first alternative that occurs there |
| TaskSyntax.SubSpansWithin | taskpaper.py:201-204 | the deleted stretches come in order and do not overlap |
| TaskSyntax.SubSpansComplete | taskpaper.py:201-204 | at an offset no deleted stretch covers, no alternative occurs: every occurrence the scan reaches is deleted |
| TaskSyntax.SubLiteralsIsGaps | taskpaper.py:201-204 | what `re.sub` leaves is exactly the text between the deleted stretches, in order |
| TaskSyntax.SubNothing | taskpaper.py:201-204 | the empty alternation (no tags) deletes nothing |
| TaskSyntax.CleanupAsWritten | taskpaper.py:200-204 | the source's clean-up gives text with no whitespace at either end, no longer than the line |
| TaskSyntax.CleanupAsWrittenIsGaps | taskpaper.py:200-204 | the source's clean-up is the stripped text between the stretches where any of the found tags occurs, wherever it occurs, not only where the tag pattern matched |
| TaskSyntax.CleanupAsWrittenOverRemoves | taskpaper.py:200-204 | on `x @a @ab` the source's clean-up gives `x  b` |
| TaskSyntax.CleanupTaskExample | taskpaper.py:200-204 | on `x @a @ab` the corrected clean-up gives `x` |
| TaskSyntax.TaggedDescriptionRoundTrip | taskpaper.py:195-204 | a trimmed description without `@`, followed by bare tags `@w`, is parsed back by the corrected clean-up into that description and the tags `@w`, in order |
| TagRemoval.AsWrittenRoundTrip | taskpaper.py:195-204 | when in addition no tag name is a prefix of another, the clean-up as written also gives back exactly the description |
| Tasks.NewTask | taskpaper.py:131-138 | a string tag becomes a one-element list, an empty value gives no tags, a list is kept as given, and no `@` is added; empty notes become the empty string |
| Tasks.TaskFromCapture | taskpaper.py:180-185 | a captured line becomes a task of the scanned project with no notes, a description trimmed at both ends and no longer than the line, and one tag per tag match, each starting with `@` |
| Tasks.TaskFromCaptureRoundTrip | taskpaper.py:180-185 | a trimmed description without `@` followed by bare tags with prefix-free names becomes the task with exactly that description and those tags |
| Tasks.TasksFromCaptures | taskpaper.py:180-185 | one task per captured line, in order |
| Tasks.AppendScanned | taskpaper.py:178-185 | `get_tasks` keeps what the list held and the snapshot, and appends exactly the tasks of the captured lines, one per match, in order |
| Tasks.CreateProjectObject | taskpaper.py:5-19 | the project object `create_project` returns has an empty task list whose snapshot is the buffer from BEFORE the heading was inserted, not the buffer returned |
| Tasks.AddSubprojectObject | taskpaper.py:90-97 | likewise for `add_subproject`: the new project's list holds the buffer without the subproject's heading |
| Tasks.ExtentText | taskpaper.py:187-193 | the text scanned runs from the heading's newline to the end of the extent, both computed on the current buffer, and is cut out of the snapshot; it is empty when the end does not lie past the start |
| Tasks.GetTasks | taskpaper.py:178-193 | the earlier items and the snapshot are kept, and the tasks appended are those of the task lines found in the extent text cut from the snapshot, in order |
| Tasks.GetTasksOfRendered | taskpaper.py:178-193 | for a heading at any depth followed by lines up to the next heading of its depth (which keeps its own tabs), `get_tasks` on an up-to-date snapshot appends exactly the tasks of the task lines one level deeper, in order |
| Tasks.TasksOf | taskpaper.py:55-59 | the list is filled by a scan only while it is empty; a non-empty list is returned as it is, whatever the buffer holds |
| Tasks.AppendRenderedLines | taskpaper.py:178-193 | over an extent laid out as lines, the tasks appended are those of the task lines one level below the project, in order |
| Tasks.AddedTaskHidesOthers | taskpaper.py:55-59 | after `add_task` on a project whose list was empty, `tasks` holds the added task alone and never scans the buffer for the others |
| Tasks.AddTask | taskpaper.py:104-112 | the buffer gains exactly the tabs, `- `, the description and a newline just past the heading's newline; tags and notes are not written; the task is appended to the list |
| Tasks.AddedTaskMatches | taskpaper.py:104-112 | the line `add_task` writes is a task line the scan matches, capturing exactly the description |
| Tasks.AddTaskBeforeUnterminatedHeading | taskpaper.py:104-115 | when the heading is the unterminated last line, the task line is written BEFORE the heading |
| Tasks.CompleteInList | taskpaper.py:140-162 | `complete` changes the task object the list holds: that entry gets the completed description, the other entries and the snapshot are kept, and the buffer is spliced as `complete` splices it |
| Tasks.AddedThenCompletedListed | taskpaper.py:55-59 | after `add_task` and `complete` on that task, `tasks` holds the task with the completed description |
| Tasks.Complete | taskpaper.py:140-162 | the description gains `@done(ts)` and `@project(name)`; the first occurrence of the old description in the buffer is replaced by the new one and everything else is kept; when there is none, the splice falls back to Python's negative slice bounds |
| Tasks.CompleteStillLocatable | taskpaper.py:140-162 | after `complete`, the first occurrence of both the old and the new description is where the old one was |
| Tasks.CompleteMissingDescription | taskpaper.py:155-161 | when the description is missing, the buffer keeps all but its last character, then the new text, then the buffer again from `len(description) - 1` |
| Scenarios.WorkTasks | taskpaper.py:55-59 | for `Work:\n\t- buy milk @today\n`, the project's tasks are the one task `buy milk` tagged `@today` |
| Scenarios.WorkCapture | taskpaper.py:180-185 | the captured `buy milk @today` becomes the task `buy milk` with tags `["@today"]` |
| Scenarios.WorkComplete | taskpaper.py:140-162 | completing that task gives `Work:\n\t- buy milk @done(ts) @project(Work) @today\n`: the tag stays after the new text |
| Scenarios.ShallowerHeadingIgnored | taskpaper.py:71-81 | in `A:`, `\tB:`, `C:`, `\tD:`, the extent of `B` runs past the shallower heading `C:` to `D:` |
| Scenarios.SubprojectGluedToLastLine | taskpaper.py:90-97 | for `A:\n\t- x\n`, `add_subproject` glues the heading onto the task line (`A:\n\t- x\tSub:\n\n`); the corrected version puts it on its own line |
| Scenarios.SubprojectTakesSiblingTab | taskpaper.py:90-97 | for `C` in `A:`, `\tB:`, `\t\tC:`, `\t\tD:`, `add_subproject` takes a tab from the sibling `D:`, which ends up under `A`; the corrected version keeps `\t\tD:` |
| Scenarios.NestedSiblingTasks | taskpaper.py:178-193 | for `A` at depth 1 followed by the sibling `\tB:`, `get_tasks` finds the one task `x` |
| Scenarios.ExtentEndsAtOnlyLater | taskpaper.py:71-81 | when the only headings at a project's level are its own and one after it, its extent ends at that one |

## Left out

- File I/O: `_write_to_project` (taskpaper.py:33-37) and reading the file in the `TaskPaper` constructor. Writing the buffer back changes nothing the model observes, so the buffer is simply passed in and returned.
- The clock in `complete`: the formatted timestamp is a parameter.
- The heading scanner `_get_projects`: it is called by the source but not defined in `taskpaper.py`. The project list it would produce is an input `seq<Project>`. For the same reason `subprojects`/`_get_subprojects` and the `TaskPaper` constructor are not part of this model.
- `Project.raw_content` (a plain slice of the buffer) and the `__repr__` methods: they are not used by any modelled operation.
- A heading that is gone (`project_index` is -1) and a project missing from the index list (the `ValueError` of `indexes.index`): these are preconditions (`ProjectIndex(raw, p.name) >= 0`, `Listed`) of the members that need them, not modelled error paths.
- Regular-expression metacharacters other than parentheses inside tag text in `_cleanup_task`: the model deletes tags as literal text. The source escapes only parentheses.
- `\w` beyond ASCII: Python's `\w` on `str` also matches non-ASCII letters and digits. The model restricts it to ASCII letters, digits and `_`.
- TaskSyntax.ScanRenderedLines: stated only for lines whose body is not a lone `-`. After such a line, `\s` can match the newline and the capture takes the NEXT line. `TaskMatchAt` still models that case.
- TaskSyntax.TaggedDescriptionRoundTrip: stated only for bare tags `@w`, not for `@w(value)`, and for descriptions without `@`.
- Projects.AddSubproject: its own contract states only the new project and the growth of the buffer. Where the heading lands is stated by `Projects.AddSubprojectLayout`.
- Tasks.TaskFromCapture: follows the clean-up as written, so its description is bounded only by the captured line, not by the line minus its tags: the clean-up can leave parts of tags behind (see Findings). The exact description and tags, for a description followed by bare tags with prefix-free names, are stated by `Tasks.TaskFromCaptureRoundTrip`.
- TagRemoval.AsWrittenRoundTrip: stated only when no tag name is a prefix of another's. Otherwise the clean-up as written cuts the shorter tag out of the longer one.
- Tasks.GetTasksOfRendered: stated for a snapshot equal to the buffer; a stale snapshot is covered only by `Tasks.ExtentText`.
- Tasks.TasksOf: a heading that is gone or a project missing from the index list is a precondition only while the list is empty, because only then does the property scan the buffer.

Behaviours of the code that are easy to misread; the model follows the code:

- The extent of a project ends only at the next heading of the SAME level (`next_project_index` filters on `indent_level == self.indent_level`). A shallower heading in between does not end it (`Scenarios.ShallowerHeadingIgnored`).
- No `@` is put in front of a tag given to `Task` (`_set_tags` only wraps a string in a list).
- The task pattern's `(.*)` is greedy, so the capture keeps the tags. They are removed afterwards by the clean-up. The capture does not stop before the first `@`.
- `add_task` writes only the tabs, `- ` and the description. It writes neither the tags nor the notes.
- `create_project` always writes a newline after the heading. The `False` passed to `format` is ignored by the template, and `_insert_in_project` adds the newline by default.
- After `complete`, tags that followed the description stay after the completed text (`Scenarios.WorkComplete`).

## Findings

| source | as written | input that shows it | evidently intended | confidence | as-written member | corrected member |
|---|---|---|---|---|---|---|
| taskpaper.py:90-97 | the subproject heading is inserted at `next_project_index - 1`, the last character of the parent's extent, with no newline before it | `A:\n\t- x\n` gives `A:\n\t- x\tSub:\n\n`: the heading is glued onto the task line; with a sibling `\t\tD:` after `\t\tC:`, adding to `C` turns it into `\t\t\t\tS:\n\tD:`, so `D` loses a tab | the heading on its own line at the bottom of the project, every other line unchanged | not executed | Scenarios.SubprojectGluedToLastLine and Scenarios.SubprojectTakesSiblingTab (on Projects.AddSubproject) | Projects.AddSubprojectOnOwnLine |
| taskpaper.py:200-204 | the tags found are joined into one alternation, and `re.sub` deletes every occurrence of any of them, anywhere, with the first listed alternative winning | the task text `x @a @ab`: the tags are `@a` and `@ab`; `@a` is deleted from inside `@ab` too, leaving `x  b` | remove exactly the tag matches found, giving `x` | not executed | TaskSyntax.CleanupAsWrittenOverRemoves (on TaskSyntax.CleanupAsWritten) | TaskSyntax.CleanupTaskExample, TaskSyntax.UntaggedIsGaps and TaskSyntax.TaggedDescriptionRoundTrip (on TaskSyntax.CleanupTask) |

The rest of the model keeps `Projects.AddSubproject` as written; `Projects.AddSubprojectOnOwnLine` is the corrected version beside it.

The task list follows the code as written: `Tasks.TaskFromCapture` uses `TaskSyntax.CleanupAsWritten`. The corrected clean-up is kept alongside it. `TagRemoval.AsWrittenRoundTrip` names the inputs on which the two agree.
