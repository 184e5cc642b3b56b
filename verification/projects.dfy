/**
 The `Project` and `Projects` classes: where a project's heading is, where its
 heading line ends, where its extent ends, and the subproject mutation. Every
 position is recomputed from the current buffer by searching for `name:`;
 the list of projects is what the heading scanner returned, taken as given.
 */
module Projects {
  import opened Text
  import opened Document

  /** `Project.project_index`: the offset of the first `name:` in the buffer,
      or -1 when the heading is gone. */
  function ProjectIndex(raw: string, name: string): (r: int)
    ensures r == -1 || OccursAt(raw, name + ":", r)
    ensures r == -1 <==> forall j :: !OccursAt(raw, name + ":", j)
    ensures forall j :: 0 <= j < r ==> !OccursAt(raw, name + ":", j)
    ensures r < |raw|
  {
    TextPosition(raw, name + ":", 0)
  }

  /** `Project.next_newline`: the absolute offset of the first newline at or
      after the heading. When no newline follows, the relative search result
      -1 is added to the heading offset, giving the offset just before it. */
  function NextNewline(raw: string, name: string): (r: int)
    requires ProjectIndex(raw, name) >= 0
    ensures var idx := ProjectIndex(raw, name);
      || (idx <= r < |raw| && raw[r] == '\n' && forall i :: idx <= i < r ==> raw[i] != '\n')
      || (r == idx - 1 && forall i :: idx <= i < |raw| ==> raw[i] != '\n')
    ensures '\n' !in name && r >= ProjectIndex(raw, name) ==> r > ProjectIndex(raw, name) + |name|
  {
    var idx := ProjectIndex(raw, name);
    var rel := TextPosition(raw, "\n", idx);
    TextPositionOfChar(raw, '\n', idx);
    HeadingHasNoNewline(raw, name, idx);
    idx + rel
  }

  /** A heading `name:` whose name has no newline holds none either. */
  lemma HeadingHasNoNewline(raw: string, name: string, idx: int)
    requires OccursAt(raw, name + ":", idx)
    ensures '\n' !in name ==> forall i :: idx <= i <= idx + |name| ==> raw[i] != '\n'
  {
    if '\n' !in name {
      forall i | idx <= i <= idx + |name|
        ensures raw[i] != '\n'
      {
        assert raw[i] == raw[idx..idx + |name| + 1][i - idx];
      }
    }
  }

  /** `Project._get_position`: where `add_task` inserts, just past the first
      newline after the heading; at the heading itself when no newline
      follows it. */
  function TaskInsertPosition(raw: string, name: string): (r: nat)
    requires ProjectIndex(raw, name) >= 0
    ensures ProjectIndex(raw, name) <= r <= |raw|
    ensures r > ProjectIndex(raw, name) ==> raw[r - 1] == '\n'
    ensures forall i :: ProjectIndex(raw, name) <= i < r - 1 ==> raw[i] != '\n'
    ensures r == ProjectIndex(raw, name) ==> forall i :: r <= i < |raw| ==> raw[i] != '\n'
  {
    NextNewline(raw, name) + 1
  }

  /** Some project at `level` in the scanned list has its heading at `y`. */
  ghost predicate HeadingAt(raw: string, projects: seq<Project>, level: nat, y: int) {
    exists q :: q in projects && q.indentLevel == level && ProjectIndex(raw, q.name) == y
  }

  /** The heading offsets of the projects at `level`, in list order (the list
      comprehension inside `get_all_indexes`). */
  function LevelIndexes(raw: string, projects: seq<Project>, level: nat): (r: seq<int>)
    ensures forall y :: y in r <==> HeadingAt(raw, projects, level, y)
  {
    if projects == [] then []
    else
      var rest := LevelIndexes(raw, projects[1..], level);
      assert forall q :: q in projects[1..] ==> q in projects;
      assert forall q :: q in projects ==> q == projects[0] || q in projects[1..];
      if projects[0].indentLevel == level then [ProjectIndex(raw, projects[0].name)] + rest
      else rest
  }

  ghost predicate StrictlyIncreasing(xs: seq<int>) {
    forall i, j :: 0 <= i < j < |xs| ==> xs[i] < xs[j]
  }

  /** One step of `sorted(set(...))`: `x` placed in order, unless present. */
  function InsertSorted(xs: seq<int>, x: int): (r: seq<int>)
    requires StrictlyIncreasing(xs)
    ensures StrictlyIncreasing(r)
    ensures forall y :: y in r <==> y in xs || y == x
  {
    if xs == [] then [x]
    else if x < xs[0] then [x] + xs
    else if x == xs[0] then xs
    else
      var rest := InsertSorted(xs[1..], x);
      assert forall y :: y in xs <==> y == xs[0] || y in xs[1..];
      assert forall i :: 0 <= i < |rest| ==> xs[0] < rest[i] by {
        forall i | 0 <= i < |rest|
          ensures xs[0] < rest[i]
        {
          assert rest[i] in rest;
          if rest[i] != x {
            var j :| 0 <= j < |xs[1..]| && xs[1..][j] == rest[i];
            assert xs[0] < xs[j + 1];
          }
        }
      }
      [xs[0]] + rest
  }

  /** `sorted(set(xs))`. */
  function SortedDistinct(xs: seq<int>): (r: seq<int>)
    ensures StrictlyIncreasing(r)
    ensures forall y :: y in r <==> y in xs
  {
    if xs == [] then []
    else
      var init := xs[..|xs| - 1];
      assert forall y :: y in xs <==> y in init || y == xs[|xs| - 1];
      InsertSorted(SortedDistinct(init), xs[|xs| - 1])
  }

  /** `Projects.get_all_indexes`: the distinct heading offsets of the projects
      at `level`, ascending. */
  function AllIndexes(raw: string, projects: seq<Project>, level: nat): (r: seq<int>)
    ensures StrictlyIncreasing(r)
    ensures forall y :: y in r <==> HeadingAt(raw, projects, level, y)
  {
    SortedDistinct(LevelIndexes(raw, projects, level))
  }

  /** `list.index`: the first position holding `x`. */
  function IndexOf(xs: seq<int>, x: int): (r: nat)
    requires x in xs
    ensures r < |xs| && xs[r] == x
    ensures forall i :: 0 <= i < r ==> xs[i] != x
  {
    if xs[0] == x then 0 else 1 + IndexOf(xs[1..], x)
  }

  /** The project's own heading is among those its level's index list holds,
      which `indexes.index` needs in order not to raise. */
  ghost predicate Listed(raw: string, projects: seq<Project>, p: Project) {
    HeadingAt(raw, projects, p.indentLevel, ProjectIndex(raw, p.name))
  }

  /** Every heading offset the list yields lies inside the buffer. */
  lemma HeadingsInsideBuffer(raw: string, projects: seq<Project>, level: nat)
    ensures forall y :: HeadingAt(raw, projects, level, y) ==> y < |raw|
  {
    forall y | HeadingAt(raw, projects, level, y)
      ensures y < |raw|
    {
      var q :| q in projects && q.indentLevel == level && ProjectIndex(raw, q.name) == y;
    }
  }

  /** In an ascending list, the entry after position `k` is the least entry
      greater than `xs[k]`. */
  lemma NextInSorted(xs: seq<int>, k: nat)
    requires StrictlyIncreasing(xs) && k < |xs|
    ensures forall y :: y in xs && xs[k] < y ==> k + 1 < |xs| && xs[k + 1] <= y
  {
    forall y | y in xs && xs[k] < y
      ensures k + 1 < |xs| && xs[k + 1] <= y
    {
      var i :| 0 <= i < |xs| && xs[i] == y;
      assert k < i;
    }
  }

  /** `Project.next_project_index`: the end of the project's extent, which is
      the next heading offset at the SAME level, or the buffer length when
      there is none. A shallower heading in between does not end the extent. */
  function NextProjectIndex(raw: string, projects: seq<Project>, p: Project): (r: int)
    requires Listed(raw, projects, p)
    ensures var idx := ProjectIndex(raw, p.name);
      && idx < r <= |raw|
      && (r == |raw| <==> forall y :: HeadingAt(raw, projects, p.indentLevel, y) ==> y <= idx)
      && (r < |raw| ==> HeadingAt(raw, projects, p.indentLevel, r))
      && (forall y :: HeadingAt(raw, projects, p.indentLevel, y) && idx < y ==> r <= y)
  {
    var idx := ProjectIndex(raw, p.name);
    var indexes := AllIndexes(raw, projects, p.indentLevel);
    var k := IndexOf(indexes, idx);
    HeadingsInsideBuffer(raw, projects, p.indentLevel);
    NextInSorted(indexes, k);
    if k + 1 < |indexes| then
      assert indexes[k + 1] in indexes;
      indexes[k + 1]
    else |raw|
  }

  /** The extents of two projects at the same level do not overlap: the one
      whose heading comes first ends at or before the other's heading. */
  lemma SiblingExtentsDisjoint(raw: string, projects: seq<Project>, a: Project, b: Project)
    requires a in projects && b in projects && a.indentLevel == b.indentLevel
    requires ProjectIndex(raw, a.name) < ProjectIndex(raw, b.name)
    ensures NextProjectIndex(raw, projects, a) <= ProjectIndex(raw, b.name)
  {
    assert HeadingAt(raw, projects, b.indentLevel, ProjectIndex(raw, b.name));
  }

  /** `Projects.get_by_name`: the first project in the list with that name, or
      nothing when no project has it. */
  function GetByName(projects: seq<Project>, name: string): (r: Option<Project>)
    ensures r.Some? ==> exists i :: 0 <= i < |projects| && projects[i] == r.value
                          && forall j :: 0 <= j < i ==> projects[j].name != name
    ensures r.Some? ==> r.value.name == name
    ensures r.None? <==> forall q :: q in projects ==> q.name != name
  {
    if projects == [] then None
    else if projects[0].name == name then Some(projects[0])
    else
      var r := GetByName(projects[1..], name);
      assert forall q :: q in projects ==> q == projects[0] || q in projects[1..];
      assert r.Some? ==> exists i :: 0 <= i < |projects| && projects[i] == r.value
                           && forall j :: 0 <= j < i ==> projects[j].name != name by {
        if r.Some? {
          var i :| 0 <= i < |projects[1..]| && projects[1..][i] == r.value
                   && forall j :: 0 <= j < i ==> projects[1..][j].name != name;
          assert projects[i + 1] == r.value;
        }
      }
      r
  }

  /** `Project.add_subproject`: a heading one level deeper is written with
      `create_project` one character before the end of this project's extent,
      without a leading blank line. */
  function AddSubproject(raw: string, projects: seq<Project>, p: Project, name: string): (r: (Project, string))
    requires Listed(raw, projects, p)
    ensures r.0 == Project(name, p.indentLevel + 1)
    ensures |r.1| == |raw| + p.indentLevel + |name| + 3
  {
    CreateProject(raw, name, p.indentLevel + 1, NextProjectIndex(raw, projects, p) - 1, false)
  }

  /** The start of the line holding offset `n`: the greatest offset at or
      before `n` that starts the buffer or follows a newline. */
  function LineStartBefore(raw: string, n: nat): (r: nat)
    requires n <= |raw|
    ensures r <= n && (r == 0 || raw[r - 1] == '\n')
    ensures forall i :: r <= i < n ==> raw[i] != '\n'
    decreases n
  {
    if n == 0 || raw[n - 1] == '\n' then n else LineStartBefore(raw, n - 1)
  }

  /** `r` is `raw` with a heading of `lvl` tabs, `name` and a colon written
      as a line of its own at the bottom of an extent ending at `end`: at
      the start of the line holding `end`, or after a newline added to a last
      line that has none. */
  ghost predicate HeadingLineAtBottom(raw: string, end: nat, r: string, name: string, lvl: nat)
    requires end <= |raw|
  {
    var partial := end == |raw| && raw != [] && raw[|raw| - 1] != '\n';
    var base := if partial then raw + "\n" else raw;
    var at := if partial then |raw| + 1 else LineStartBefore(raw, end);
    && HeadingInsertedAt(base, r, at, name, lvl)
    && (at == 0 || base[at - 1] == '\n')
    && (forall i :: at <= i < end ==> raw[i] != '\n')
  }

  /** `add_subproject` as its comment means it ("at the very bottom of the
      project"): the heading goes in as a line of its own, at the start of
      the line where the extent ends, so the parent's last line and the next
      sibling's heading line are both left whole. */
  function AddSubprojectOnOwnLine(raw: string, projects: seq<Project>, p: Project, name: string): (r: (Project, string))
    requires Listed(raw, projects, p)
    ensures r.0 == Project(name, p.indentLevel + 1)
    ensures HeadingLineAtBottom(raw, NextProjectIndex(raw, projects, p), r.1, name, p.indentLevel + 1)
  {
    var end := NextProjectIndex(raw, projects, p);
    var lvl := p.indentLevel + 1;
    if end == |raw| && raw != [] && raw[|raw| - 1] != '\n' then
      HeadingAfterLastLine(raw, name, lvl);
      CreateProject(raw, name, lvl, |raw|, true)
    else
      HeadingAtLineStart(raw, end, name, lvl);
      CreateProject(raw, name, lvl, LineStartBefore(raw, end), false)
  }

  /** A last line without a newline is ended before the heading. */
  lemma HeadingAfterLastLine(raw: string, name: string, lvl: nat)
    requires raw != [] && raw[|raw| - 1] != '\n'
    ensures HeadingLineAtBottom(raw, |raw|, CreateProject(raw, name, lvl, |raw|, true).1, name, lvl)
  {
    var r := CreateProject(raw, name, lvl, |raw|, true).1;
    assert r[..|raw|] == raw;
    assert r[..|raw| + 1] == raw + "\n";
    assert HeadingInsertedAt(raw + "\n", r, |raw| + 1, name, lvl);
  }

  /** Otherwise the heading goes in at the start of the line holding `end`. */
  lemma HeadingAtLineStart(raw: string, end: nat, name: string, lvl: nat)
    requires end <= |raw| && !(end == |raw| && raw != [] && raw[|raw| - 1] != '\n')
    ensures HeadingLineAtBottom(raw, end, CreateProject(raw, name, lvl, LineStartBefore(raw, end), false).1, name, lvl)
  {
    var at := LineStartBefore(raw, end);
    var r := CreateProject(raw, name, lvl, at, false).1;
    CreateProjectInside(raw, name, lvl, at);
    assert HeadingInsertedAt(raw, r, at, name, lvl) && (at == 0 || raw[at - 1] == '\n');
  }

  /** Where the subproject's heading lands: at the last character of the
      parent's extent, which lies inside the buffer, so the heading (its
      tabs, name, colon and newline) goes in before that character and all
      text before it is kept. */
  lemma AddSubprojectLayout(raw: string, projects: seq<Project>, p: Project, name: string)
    requires ProjectIndex(raw, p.name) >= 0 && Listed(raw, projects, p)
    ensures var at := NextProjectIndex(raw, projects, p) - 1;
      && ProjectIndex(raw, p.name) <= at < |raw|
      && HeadingInsertedAt(raw, AddSubproject(raw, projects, p, name).1, at, name, p.indentLevel + 1)
  {
    CreateProjectInside(raw, name, p.indentLevel + 1, NextProjectIndex(raw, projects, p) - 1);
  }
}
