/**
 Tasks: the `Task` record, the per-project `Tasks` list that is filled by
 scanning the project's extent, `add_task` and `complete`. The list is a
 cache: it keeps the buffer as it was when the project object was made, and
 it is only filled from that copy while it is empty.
 */
module Tasks {
  import opened Text
  import opened Document
  import opened Projects
  import opened Outline
  import opened TaskSyntax
  import opened TagRemoval

  /** A task: its description, its tags (as given, or as found in the text),
      its notes and the project it belongs to. */
  datatype Task = Task(description: string, tags: seq<string>, notes: string, project: Project)

  /** The `tags` argument of `Task`: one string, or a list of them. */
  datatype TagArg = TagText(text: string) | TagList(items: seq<string>)

  /** A project's `Tasks` list: the buffer as it was when the project object
      was built, and the tasks the list holds. */
  datatype TaskCache = TaskCache(snapshot: string, items: seq<Task>)

  /** `Task.__init__` with `_set_tags`: one tag given as a string is wrapped in
      a list, an empty value gives no tags, and nothing is added to the tag
      text (no `@` is put in front). Empty notes become the empty string. */
  function NewTask(description: string, p: Project, tags: TagArg, notes: string): (r: Task)
    ensures r.description == description && r.project == p && r.notes == notes
    ensures tags.TagList? ==> r.tags == tags.items
    ensures tags.TagText? ==> |r.tags| <= 1 && (r.tags == [] <==> tags.text == [])
                              && forall t :: t in r.tags ==> t == tags.text
  {
    var ts := match tags
      case TagText(t) => if t == [] then [] else [t]
      case TagList(xs) => if xs == [] then [] else xs;
    Task(description, ts, if notes == [] then [] else notes, p)
  }

  /** The list a freshly built project starts with. */
  function NewCache(raw: string): TaskCache {
    TaskCache(raw, [])
  }

  /** `create_project` with the project object it returns: the object's
      `Tasks` list is built before the heading is inserted, so it starts
      empty and its snapshot is the buffer WITHOUT the new heading. */
  function CreateProjectObject(raw: string, name: string, indentLevel: nat, position: int,
                               extraNewline: bool): (r: (Project, string, TaskCache))
    ensures (r.0, r.1) == CreateProject(raw, name, indentLevel, position, extraNewline)
    ensures r.2.items == [] && r.2.snapshot == raw
    ensures |r.2.snapshot| < |r.1| && r.2.snapshot != r.1
  {
    var (q, raw') := CreateProject(raw, name, indentLevel, position, extraNewline);
    (q, raw', NewCache(raw))
  }

  /** `add_subproject` with the project object it returns, whose list again
      holds the buffer from before the subproject's heading went in. */
  function AddSubprojectObject(raw: string, projects: seq<Project>, p: Project, name: string)
    : (r: (Project, string, TaskCache))
    requires Listed(raw, projects, p)
    ensures (r.0, r.1) == AddSubproject(raw, projects, p, name)
    ensures r.2.items == [] && r.2.snapshot == raw
    ensures |r.2.snapshot| < |r.1| && r.2.snapshot != r.1
  {
    var (q, raw') := AddSubproject(raw, projects, p, name);
    (q, raw', NewCache(raw))
  }

  /** The slice `_get_all_tasks` scans: from the heading's newline to the end
      of the project's extent, both computed on the CURRENT buffer, cut out of
      the list's SNAPSHOT. */
  function ExtentText(cache: TaskCache, raw: string, projects: seq<Project>, p: Project): (r: string)
    requires ProjectIndex(raw, p.name) >= 0 && Listed(raw, projects, p)
    ensures var a, b := NextNewline(raw, p.name), NextProjectIndex(raw, projects, p);
      0 <= a <= b <= |cache.snapshot| ==> r == cache.snapshot[a..b]
    ensures var a, b := NextNewline(raw, p.name), NextProjectIndex(raw, projects, p);
      0 <= b <= a ==> r == []
  {
    PySlice(cache.snapshot, NextNewline(raw, p.name), NextProjectIndex(raw, projects, p))
  }

  /** The task a captured line becomes (`_get_all_tasks` with
      `_cleanup_task` as written): its text with every occurrence of its tags
      deleted and stripped, and the tags it holds, one per match of the tag
      pattern. */
  function TaskFromCapture(c: string, p: Project): (r: Task)
    ensures r.project == p && r.notes == []
    ensures r.description != [] ==> !IsSpace(r.description[0])
                                    && !IsSpace(r.description[|r.description| - 1])
    ensures |r.description| <= |c|
    ensures |r.tags| == |ScanTags(c, 0)|
    ensures forall k :: 0 <= k < |r.tags| ==> |r.tags[k]| >= 2 && r.tags[k][0] == '@'
  {
    NewTask(CleanupAsWritten(c), p, TagList(ExtractTags(c)), [])
  }

  /** A captured description without `@`, trimmed and non-empty, followed by
      bare tags none of whose names is a prefix of another's, becomes a task
      with exactly that description and those tags. */
  lemma TaskFromCaptureRoundTrip(desc: string, ws: seq<string>, p: Project)
    requires '@' !in desc
    requires desc != [] && !IsSpace(desc[0]) && !IsSpace(desc[|desc| - 1])
    requires forall k :: 0 <= k < |ws| ==> IsWord(ws[k])
    requires PrefixFree(ws)
    ensures TaskFromCapture(desc + RenderTags(ws), p) == Task(desc, TagNames(ws), [], p)
  {
    AsWrittenRoundTrip(desc, ws);
  }

  /** The tasks a list of captured lines becomes, one each, in order. */
  function TasksFromCaptures(caps: seq<string>, p: Project): (r: seq<Task>)
    ensures |r| == |caps|
    ensures forall k :: 0 <= k < |caps| ==> r[k] == TaskFromCapture(caps[k], p)
  {
    seq(|caps|, k requires 0 <= k < |caps| => TaskFromCapture(caps[k], p))
  }

  /** `r` is `cache` with `n` more tasks after the ones it held, on the same
      snapshot. */
  predicate ExtendedBy(r: TaskCache, cache: TaskCache, n: nat) {
    && r.snapshot == cache.snapshot
    && |r.items| == |cache.items| + n
    && r.items[..|cache.items|] == cache.items
  }

  /** `r` is `cache` with, after the tasks it held, the task of every task
      line one level below `p` that the scan finds in `text`, in order. */
  predicate ScannedOnto(r: TaskCache, cache: TaskCache, text: string, p: Project) {
    var caps := TaskCaptures(text, p.indentLevel + 1);
    && ExtendedBy(r, cache, |caps|)
    && r.items[|cache.items|..] == TasksFromCaptures(caps, p)
  }

  /** The list with a task appended for every task line of the depth one
      below `p` that the scan finds in `text`, in the order found. */
  function AppendScanned(cache: TaskCache, text: string, p: Project): (r: TaskCache)
    ensures ScannedOnto(r, cache, text, p)
  {
    var caps := TaskCaptures(text, p.indentLevel + 1);
    TaskCache(cache.snapshot, cache.items + TasksFromCaptures(caps, p))
  }

  /** `Tasks.get_tasks`: the project's extent, cut out of the snapshot, is
      scanned and its task lines are appended to what the list held. */
  function GetTasks(cache: TaskCache, raw: string, projects: seq<Project>, p: Project): (r: TaskCache)
    requires ProjectIndex(raw, p.name) >= 0 && Listed(raw, projects, p)
    ensures ScannedOnto(r, cache, ExtentText(cache, raw, projects, p), p)
  {
    AppendScanned(cache, ExtentText(cache, raw, projects, p), p)
  }

  /** For a project whose heading is followed by lines laid out as
      `RenderLines` up to the next heading of its depth (whose `k` tabs of
      indentation come before the offset `next_project_index` reports),
      `get_tasks` on an up-to-date snapshot appends exactly the tasks of the
      task lines one level deeper, in order, each from the line's text after
      `- `. */
  lemma GetTasksOfRendered(cache: TaskCache, raw: string, projects: seq<Project>, p: Project,
                           pre: string, ls: seq<Line>, k: nat, post: string)
    requires raw == pre + (p.name + ":") + (RenderLines(ls) + "\n" + Tabs(k)) + post
    requires '\n' !in p.name && ProjectIndex(raw, p.name) == |pre| && Listed(raw, projects, p)
    requires NextProjectIndex(raw, projects, p) == |raw| - |post|
    requires forall l :: l in ls ==> PlainLine(l)
    requires cache.snapshot == raw
    ensures GetTasks(cache, raw, projects, p).items
            == cache.items + TasksFromCaptures(TaskBodies(ls, p.indentLevel + 1), p)
  {
    var text := RenderLines(ls) + "\n" + Tabs(k);
    var c := |pre| + |p.name| + 1;
    ExtentAfterHeading(raw, pre, p.name + ":", text, post);
    RenderedStartsWithNewline(ls, k);
    HeadingNewline(raw, p.name, c);
    AppendRenderedLines(cache, text, p, ls, k);
  }

  /** The middle part of `pre + head + text + post`. */
  lemma ExtentAfterHeading(raw: string, pre: string, head: string, text: string, post: string)
    requires raw == pre + head + text + post
    ensures raw[|pre| + |head|..|raw| - |post|] == text
    ensures forall i :: 0 <= i < |head| ==> raw[|pre| + i] == head[i]
    ensures |text| > 0 ==> raw[|pre| + |head|] == text[0]
  {
    assert raw[|pre| + |head|..|raw| - |post|] == (pre + head + text + post)[|pre| + |head|..|pre| + |head| + |text|];
  }

  /** The laid-out lines, the final newline and the tabs start with a
      newline. */
  lemma RenderedStartsWithNewline(ls: seq<Line>, k: nat)
    ensures |RenderLines(ls) + "\n" + Tabs(k)| > 0 && (RenderLines(ls) + "\n" + Tabs(k))[0] == '\n'
  {
  }

  /** The newline right after a heading `name:` is the one `next_newline`
      finds. */
  lemma HeadingNewline(raw: string, name: string, c: nat)
    requires '\n' !in name && ProjectIndex(raw, name) >= 0 && c == ProjectIndex(raw, name) + |name| + 1
    requires c < |raw| && raw[c] == '\n'
    ensures NextNewline(raw, name) == c
  {
  }

  /** `Project.tasks`: the list is filled by scanning only while it is empty;
      otherwise it is returned as it is, whatever the buffer now holds. */
  function TasksOf(cache: TaskCache, raw: string, projects: seq<Project>, p: Project): (r: (seq<Task>, TaskCache))
    requires cache.items == [] ==> ProjectIndex(raw, p.name) >= 0 && Listed(raw, projects, p)
    ensures r.0 == r.1.items && r.1.snapshot == cache.snapshot
    ensures cache.items != [] ==> r.1 == cache
    ensures cache.items == [] ==> r.1 == GetTasks(cache, raw, projects, p)
  {
    if cache.items == [] then
      var c := GetTasks(cache, raw, projects, p);
      (c.items, c)
    else (cache.items, cache)
  }

  /** When the scanned text is laid out as lines, the tasks appended are
      exactly those of the task lines of the project's depth plus one, in
      order, each made from the line's text after `- `; the tabs of the
      heading that ends the extent add nothing. */
  lemma AppendRenderedLines(cache: TaskCache, text: string, p: Project, ls: seq<Line>, k: nat)
    requires text == RenderLines(ls) + "\n" + Tabs(k)
    requires forall l :: l in ls ==> PlainLine(l)
    ensures AppendScanned(cache, text, p).items
            == cache.items + TasksFromCaptures(TaskBodies(ls, p.indentLevel + 1), p)
  {
    var r := AppendScanned(cache, text, p);
    assert r.items == r.items[..|cache.items|] + r.items[|cache.items|..];
    ScanRenderedLines(ls, p.indentLevel + 1, k);
  }

  /** Once a task has been added to a project whose list was empty, the list
      is no longer empty, so `tasks` returns the added task alone and never
      scans the buffer for the others. */
  lemma AddedTaskHidesOthers(raw: string, projects: seq<Project>, p: Project, description: string,
                             tags: TagArg, notes: string)
    requires ProjectIndex(raw, p.name) >= 0
    ensures var r := AddTask(raw, p, NewCache(raw), description, tags, notes);
      TasksOf(r.2, r.1, projects, p).0 == [r.0]
  {
  }

  /** The line `add_task` writes: the project's depth plus one in tabs, a dash,
      a space and the description. */
  function TaskLine(p: Project, description: string): string {
    Tabs(p.indentLevel + 1) + ("- " + description)
  }

  /** `Project.add_task`: the task line and a newline are inserted just after
      the heading's newline, so the new task comes first in the project, and
      the task is appended to the list without any rescan. */
  function AddTask(raw: string, p: Project, cache: TaskCache, description: string,
                   tags: TagArg, notes: string): (r: (Task, string, TaskCache))
    requires ProjectIndex(raw, p.name) >= 0
    ensures r.0 == NewTask(description, p, tags, notes)
    ensures r.2 == TaskCache(cache.snapshot, cache.items + [r.0])
    ensures var at := TaskInsertPosition(raw, p.name); var n := p.indentLevel + 4 + |description|;
      && |r.1| == |raw| + n
      && r.1[..at] == raw[..at]
      && OccursAt(r.1, TaskLine(p, description) + "\n", at)
      && r.1[at + n..] == raw[at..]
  {
    var task := NewTask(description, p, tags, notes);
    var at := TaskInsertPosition(raw, p.name);
    var raw' := Insert(raw, TaskLine(p, task.description), at, true);
    var line := TaskLine(p, description);
    assert raw' == raw[..at] + (line + "\n") + raw[at..];
    assert raw'[at..at + |line| + 1] == line + "\n";
    (task, raw', TaskCache(cache.snapshot, cache.items + [task]))
  }

  /** When the heading line ends in a newline, the inserted line is a task
      line of the project's depth right at that newline, and the task
      pattern captures exactly the description there. */
  lemma AddedTaskMatches(raw: string, p: Project, cache: TaskCache, description: string,
                         tags: TagArg, notes: string)
    requires ProjectIndex(raw, p.name) >= 0
    requires NextNewline(raw, p.name) >= ProjectIndex(raw, p.name)
    requires '\n' !in description
    ensures CapturedAt(AddTask(raw, p, cache, description, tags, notes).1, NextNewline(raw, p.name),
                       p.indentLevel + 1, description)
  {
    var raw' := AddTask(raw, p, cache, description, tags, notes).1;
    AddTaskAfterNewline(raw, p, cache, description, tags, notes);
    WrittenLineCaptured(raw', NextNewline(raw, p.name), p.indentLevel, description);
  }

  /** The task pattern at depth `tabs` matches at the newline at `nl` and
      captures exactly `description`. */
  predicate CapturedAt(t: string, nl: nat, tabs: nat, description: string) {
    var e := nl + tabs + 3 + |description|;
    TaskMatchAt(t, nl, tabs) == Some(e) && e <= |t| && t[nl + tabs + 3..e] == description
  }

  /** The line `add_task` writes for a project at `level`, right after the
      newline at `nl`. */
  predicate WrittenTaskLine(t: string, nl: nat, level: nat, description: string) {
    && nl < |t| && t[nl] == '\n'
    && OccursAt(t, Tabs(level + 1) + ("- " + description) + "\n", nl + 1)
  }

  /** When the heading line ends in a newline, `add_task` keeps that newline
      and writes the task line right after it. */
  lemma AddTaskAfterNewline(raw: string, p: Project, cache: TaskCache, description: string,
                            tags: TagArg, notes: string)
    requires ProjectIndex(raw, p.name) >= 0
    requires NextNewline(raw, p.name) >= ProjectIndex(raw, p.name)
    ensures WrittenTaskLine(AddTask(raw, p, cache, description, tags, notes).1, NextNewline(raw, p.name),
                            p.indentLevel, description)
  {
    var nl := NextNewline(raw, p.name);
    var raw' := AddTask(raw, p, cache, description, tags, notes).1;
    var at := TaskInsertPosition(raw, p.name);
    assert at == nl + 1 && raw'[..at] == raw[..at];
    assert raw'[nl] == raw'[..at][nl];
  }

  /** Such a line is matched by the task pattern of the level below, which
      captures its description. */
  lemma WrittenLineCaptured(t: string, nl: nat, level: nat, description: string)
    requires WrittenTaskLine(t, nl, level, description) && '\n' !in description
    ensures CapturedAt(t, nl, level + 1, description)
  {
    WrittenTaskLineMatches(t, nl, level + 1, description);
  }


  /** When no newline follows the heading (it is the last line and not
      terminated), the insertion point is the heading's own offset, so the
      task line is written BEFORE the heading. */
  lemma AddTaskBeforeUnterminatedHeading(raw: string, p: Project, cache: TaskCache,
                                         description: string, tags: TagArg, notes: string)
    requires ProjectIndex(raw, p.name) >= 0
    requires forall i :: ProjectIndex(raw, p.name) <= i < |raw| ==> raw[i] != '\n'
    ensures var raw' := AddTask(raw, p, cache, description, tags, notes).1;
      var idx := ProjectIndex(raw, p.name); var line := TaskLine(p, description) + "\n";
      && OccursAt(raw', line, idx)
      && OccursAt(raw', p.name + ":", idx + |line|)
  {
    var idx := ProjectIndex(raw, p.name);
    var raw' := AddTask(raw, p, cache, description, tags, notes).1;
    var line := TaskLine(p, description) + "\n";
    assert TaskInsertPosition(raw, p.name) == idx;
    var q := p.name + ":";
    assert raw[idx..idx + |q|] == q;
    assert raw'[idx + |line|..] == raw[idx..];
    assert raw'[idx + |line|..idx + |line| + |q|] == raw'[idx + |line|..][..|q|];
  }

  /** The description `complete` gives a task: the old one, a `@done` tag with
      the timestamp and a `@project` tag with the project's name. */
  function CompletedDescription(t: Task, timestamp: string): string {
    t.description + " @done(" + timestamp + ") @project(" + t.project.name + ")"
  }

  /** `Task.complete`: the first occurrence of the description in the buffer
      is replaced by the completed description. The timestamp (the clock,
      formatted `%Y-%m-%d %H:%M`) is a parameter. The task's tag list is not
      updated. When the description does not occur, the search yields -1 and
      the splice uses Python's negative slice bounds. */
  function Complete(raw: string, t: Task, timestamp: string): (r: (Task, string))
    ensures r.0 == t.(description := CompletedDescription(t, timestamp))
    ensures var d := CompletedDescription(t, timestamp); var st := Find(raw, t.description);
      st >= 0 ==>
        && |r.1| == |raw| + |d| - |t.description|
        && r.1[..st] == raw[..st]
        && OccursAt(r.1, d, st)
        && r.1[st + |d|..] == raw[st + |t.description|..]
    ensures var d := CompletedDescription(t, timestamp);
      Find(raw, t.description) == -1 ==>
        r.1 == raw[..Bound(-1, raw)] + d + raw[Bound(|t.description| - 1, raw)..]
  {
    var d := CompletedDescription(t, timestamp);
    var st := TextPosition(raw, t.description, 0);
    assert st == Find(raw, t.description) by {
      FindUnique(raw, t.description, st);
    }
    var raw' := Replace(raw, d, st, st + |t.description|);
    assert st >= 0 ==> OccursAt(raw', d, st) by {
      if st >= 0 {
        assert raw'[st..st + |d|] == d;
      }
    }
    (t.(description := d), raw')
  }

  /** `complete` called on a task the list holds (the `k`-th): the Task
      object is changed in place, so besides the buffer the list now shows
      the completed description at `k`; every other entry and the snapshot
      stay as they were. */
  function CompleteInList(raw: string, cache: TaskCache, k: nat, timestamp: string): (r: (string, TaskCache))
    requires k < |cache.items|
    ensures r.0 == Complete(raw, cache.items[k], timestamp).1
    ensures r.1.snapshot == cache.snapshot && |r.1.items| == |cache.items|
    ensures r.1.items[k] == cache.items[k].(description := CompletedDescription(cache.items[k], timestamp))
    ensures forall j :: 0 <= j < |cache.items| && j != k ==> r.1.items[j] == cache.items[j]
  {
    var (t, raw') := Complete(raw, cache.items[k], timestamp);
    (raw', TaskCache(cache.snapshot, cache.items[k := t]))
  }

  /** A task added to a project whose list was empty and then completed is
      shown completed by `tasks`, whatever the buffer now holds: the list is
      not empty, so it is returned as it is. */
  lemma AddedThenCompletedListed(raw: string, projects: seq<Project>, p: Project, description: string,
                                 tags: TagArg, notes: string, timestamp: string)
    requires ProjectIndex(raw, p.name) >= 0
    ensures var a := AddTask(raw, p, NewCache(raw), description, tags, notes);
      var c := CompleteInList(a.1, a.2, 0, timestamp);
      TasksOf(c.1, c.0, projects, p).0 == [a.0.(description := CompletedDescription(a.0, timestamp))]
  {
    var a := AddTask(raw, p, NewCache(raw), description, tags, notes);
    var c := CompleteInList(a.1, a.2, 0, timestamp);
    assert |c.1.items| == 1;
  }

  /** Completing a task keeps it locatable: in the new buffer the first
      occurrence of both the old and the completed description is where the
      old one was, so a second `complete` finds the completed text. */
  lemma {:induction false} CompleteStillLocatable(raw: string, t: Task, timestamp: string)
    requires Find(raw, t.description) >= 0
    ensures var r := Complete(raw, t, timestamp).1;
      && Find(r, t.description) == Find(raw, t.description)
      && Find(r, CompletedDescription(t, timestamp)) == Find(raw, t.description)
  {
    var st := Find(raw, t.description);
    var desc := t.description;
    var d := CompletedDescription(t, timestamp);
    var r := Complete(raw, t, timestamp).1;
    assert d[..|desc|] == desc;
    AgreeThroughReplaced(raw, r, st, desc, d);
    FindInAgreeingPrefix(raw, r, desc, st);
    FindOfExtension(r, desc, d, st);
  }

  /** A buffer that agrees with `raw` before `st` and holds `d` at `st`,
      where `raw` holds a prefix `desc` of `d`, agrees with `raw` up to the
      end of `desc`. */
  lemma AgreeThroughReplaced(raw: string, r: string, st: nat, desc: string, d: string)
    requires OccursAt(raw, desc, st) && OccursAt(r, d, st) && r[..st] == raw[..st]
    requires |desc| <= |d| && d[..|desc|] == desc
    ensures r[..st + |desc|] == raw[..st + |desc|]
  {
    var k := st + |desc|;
    assert r[st..k] == r[st..st + |d|][..|desc|];
    assert r[..k] == r[..st] + r[st..k];
    assert raw[..k] == raw[..st] + raw[st..k];
  }

  /** When the description is missing and the buffer is at least as long,
      the splice keeps all but the last character, then the completed text,
      then the buffer again from offset `|description| - 1`: text before it
      appears twice. */
  lemma CompleteMissingDescription(raw: string, t: Task, timestamp: string)
    requires Find(raw, t.description) == -1 && |t.description| <= |raw|
    ensures Complete(raw, t, timestamp).1
            == raw[..|raw| - 1] + CompletedDescription(t, timestamp) + raw[|t.description| - 1..]
  {
    assert OccursAt(raw, [], 0);
  }
}
