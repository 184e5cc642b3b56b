/**
 Small worked documents, each following one operation from the buffer
 text to its result, so that the general contracts can be read against a
 concrete TaskPaper file.
 */
module Scenarios {
  import opened Text
  import opened Document
  import opened Projects
  import opened Outline
  import opened TaskSyntax
  import opened Tasks

  /** A query whose first character does not occur before `r`, and which
      occurs at `r`, is first found at `r`. */
  lemma FoundAtFirstChar(s: string, q: string, r: nat)
    requires q != [] && OccursAt(s, q, r)
    requires forall j :: 0 <= j < r ==> s[j] != q[0]
    ensures forall j :: 0 <= j < r ==> !OccursAt(s, q, j)
    ensures Find(s, q) == r
  {
    forall j | 0 <= j < r
      ensures !OccursAt(s, q, j)
    {
      if j + |q| <= |s| {
        assert s[j..j + |q|][0] == s[j];
      }
    }
    FindUnique(s, q, r);
  }

  // ---------------------------------------------------------------------
  // One project with one task
  // ---------------------------------------------------------------------

  /** The heading `Work:` starts the buffer. */
  lemma WorkIndex(raw: string)
    requires raw == "Work:\n\t- buy milk @today\n"
    ensures ProjectIndex(raw, "Work") == 0
  {
    assert raw[0..5] == "Work:";
    FoundAtFirstChar(raw, "Work:", 0);
  }

  /** Its line ends at offset 5. */
  lemma WorkNewline(raw: string)
    requires raw == "Work:\n\t- buy milk @today\n"
    ensures ProjectIndex(raw, "Work") == 0 && NextNewline(raw, "Work") == 5
  {
    WorkIndex(raw);
    assert raw[..6] == "Work:\n";
    assert raw[5] == '\n' && forall i :: 0 <= i < 5 ==> raw[i] != '\n';
    TextPositionOfChar(raw, '\n', 0);
  }

  /** The project is the only one in the list. */
  lemma WorkListed(raw: string)
    requires raw == "Work:\n\t- buy milk @today\n"
    ensures ProjectIndex(raw, "Work") == 0
    ensures Listed(raw, [Project("Work", 0)], Project("Work", 0))
    ensures forall y :: HeadingAt(raw, [Project("Work", 0)], 0, y) ==> y == 0
  {
    WorkIndex(raw);
    assert Project("Work", 0) in [Project("Work", 0)];
  }

  /** No other heading of its level follows, so its extent runs to the end. */
  lemma WorkExtentEnd(raw: string)
    requires raw == "Work:\n\t- buy milk @today\n"
    ensures ProjectIndex(raw, "Work") == 0 && Listed(raw, [Project("Work", 0)], Project("Work", 0))
    ensures NextProjectIndex(raw, [Project("Work", 0)], Project("Work", 0)) == 25
  {
    WorkListed(raw);
  }

  /** The extent scanned, from the heading's newline to the end, is the
      task's line laid out after its newline. */
  lemma WorkExtentText(raw: string, ls: seq<Line>)
    requires raw == "Work:\n\t- buy milk @today\n"
    requires ls == [Line(1, "- buy milk @today")]
    ensures ProjectIndex(raw, "Work") == 0 && Listed(raw, [Project("Work", 0)], Project("Work", 0))
    ensures ExtentText(NewCache(raw), raw, [Project("Work", 0)], Project("Work", 0))
            == RenderLines(ls) + "\n"
  {
    WorkNewline(raw);
    WorkExtentEnd(raw);
    WorkLinesRendered(raw, ls);
  }

  /** The slice after the heading is the task line rendered, then the
      buffer's final newline. */
  lemma WorkLinesRendered(raw: string, ls: seq<Line>)
    requires raw == "Work:\n\t- buy milk @today\n"
    requires ls == [Line(1, "- buy milk @today")]
    ensures raw[5..25] == RenderLines(ls) + "\n"
  {
    WorkTail(raw, ls[0].body);
    RenderOne(ls);
    assert Tabs(1) == "\t";
  }

  /** The buffer after the heading, character by character. */
  lemma WorkTail(raw: string, body: string)
    requires raw == "Work:\n\t- buy milk @today\n"
    requires body == "- buy milk @today"
    ensures raw[5..25] == "\n" + "\t" + body + "\n"
  {
  }

  /** A single line renders as its newline, its tabs and its body. */
  lemma RenderOne(ls: seq<Line>)
    requires |ls| == 1
    ensures RenderLines(ls) == "\n" + Tabs(ls[0].tabs) + ls[0].body
  {
    assert RenderLines(ls[1..]) == [];
  }

  /** The captured text `buy milk @today` becomes the task `buy milk` tagged
      `@today`, with no notes. */
  lemma WorkCapture(c: string, desc: string, ws: seq<string>)
    requires c == "buy milk @today" && desc == "buy milk" && ws == ["today"]
    ensures TaskFromCapture(c, Project("Work", 0)) == Task(desc, ["@today"], [], Project("Work", 0))
  {
    WorkCaptureSplit(c, desc, ws);
    WorkDescription(desc);
    TaskFromCaptureRoundTrip(desc, ws, Project("Work", 0));
  }

  /** The capture is the description followed by its one bare tag. */
  lemma WorkCaptureSplit(c: string, desc: string, ws: seq<string>)
    requires c == "buy milk @today" && desc == "buy milk" && ws == ["today"]
    ensures c == desc + RenderTags(ws) && TagNames(ws) == ["@today"]
    ensures forall k :: 0 <= k < |ws| ==> IsWord(ws[k])
  {
    OneTag(ws);
    WorkCaptureText(c, desc, ws[0]);
    WorkTag(ws[0]);
  }

  /** `buy milk @today` split after the description. */
  lemma WorkCaptureText(c: string, desc: string, w: string)
    requires c == "buy milk @today" && desc == "buy milk" && w == "today"
    ensures c == desc + (" @" + w)
  {
    assert c[..8] == desc;
    assert c[8..] == " @" + w;
    assert c == c[..8] + c[8..];
  }

  /** `today` is a word, and `@today` is its tag. */
  lemma WorkTag(w: string)
    requires w == "today"
    ensures IsWord(w) && "@" + w == "@today"
  {
  }

  /** A single tag renders as a space, `@` and the word, and names `@word`. */
  lemma OneTag(ws: seq<string>)
    requires |ws| == 1
    ensures RenderTags(ws) == " @" + ws[0] && TagNames(ws) == ["@" + ws[0]]
  {
    assert RenderTags(ws[1..]) == [] && TagNames(ws[1..]) == [];
  }

  /** The description has no `@` and no whitespace at its ends. */
  lemma WorkDescription(desc: string)
    requires desc == "buy milk"
    ensures '@' !in desc && desc != [] && !IsSpace(desc[0]) && !IsSpace(desc[|desc| - 1])
  {
  }

  /** The line is a plain task line one tab deep, and what it yields is the
      text after its dash. */
  lemma WorkBodies(ls: seq<Line>, c: string)
    requires ls == [Line(1, "- buy milk @today")] && c == "buy milk @today"
    ensures forall l :: l in ls ==> PlainLine(l)
    ensures TaskBodies(ls, 1) == [c]
  {
    WorkLineShape(ls[0], c);
    assert TaskBodies(ls[1..], 1) == [];
  }

  /** The task line's shape: plain, one tab deep, a dash and a space. */
  lemma WorkLineShape(l: Line, c: string)
    requires l == Line(1, "- buy milk @today") && c == "buy milk @today"
    ensures PlainLine(l) && IsTaskLine(l, 1) && l.body[2..] == c
  {
  }

  /** Scanning that line into an empty list gives the one task. */
  lemma WorkAppend(cache: TaskCache, text: string, ls: seq<Line>)
    requires cache.items == [] && text == RenderLines(ls) + "\n"
    requires ls == [Line(1, "- buy milk @today")]
    ensures AppendScanned(cache, text, Project("Work", 0)).items
            == [Task("buy milk", ["@today"], [], Project("Work", 0))]
  {
    WorkAppendCapture(cache, text, ls, "buy milk @today");
    WorkCapture("buy milk @today", "buy milk", ["today"]);
  }

  /** The scan appends the task of the one captured line. */
  lemma WorkAppendCapture(cache: TaskCache, text: string, ls: seq<Line>, c: string)
    requires cache.items == [] && text == RenderLines(ls) + "\n"
    requires ls == [Line(1, "- buy milk @today")] && c == "buy milk @today"
    ensures AppendScanned(cache, text, Project("Work", 0)).items == [TaskFromCapture(c, Project("Work", 0))]
  {
    WorkBodies(ls, c);
    assert text == RenderLines(ls) + "\n" + Tabs(0);
    AppendRenderedLines(cache, text, Project("Work", 0), ls, 0);
    SingleCapture([c], Project("Work", 0));
  }

  /** One captured line gives one task. */
  lemma SingleCapture(caps: seq<string>, p: Project)
    requires |caps| == 1
    ensures TasksFromCaptures(caps, p) == [TaskFromCapture(caps[0], p)]
  {
  }

  /** `Work.tasks` on the freshly read file is the one task `buy milk`,
      tagged `@today`. */
  lemma WorkTasks(raw: string, ls: seq<Line>)
    requires raw == "Work:\n\t- buy milk @today\n"
    requires ls == [Line(1, "- buy milk @today")]
    ensures ProjectIndex(raw, "Work") == 0 && Listed(raw, [Project("Work", 0)], Project("Work", 0))
    ensures TasksOf(NewCache(raw), raw, [Project("Work", 0)], Project("Work", 0)).0
            == [Task("buy milk", ["@today"], [], Project("Work", 0))]
  {
    WorkExtentText(raw, ls);
    WorkAppend(NewCache(raw), ExtentText(NewCache(raw), raw, [Project("Work", 0)], Project("Work", 0)), ls);
  }

  /** A string whose length and three slices agree with `a`, `b` and `c` is
      their concatenation. */
  lemma FromParts(r: string, a: string, b: string, c: string)
    requires |r| == |a| + |b| + |c|
    requires r[..|a|] == a && r[|a|..|a| + |b|] == b && r[|a| + |b|..] == c
    ensures r == a + b + c
  {
    assert r == r[..|a|] + r[|a|..|a| + |b|] + r[|a| + |b|..];
  }

  /** The description `buy milk` first occurs just after the dash. */
  lemma WorkFindsTask(raw: string, desc: string)
    requires raw == "Work:\n\t- buy milk @today\n" && desc == "buy milk"
    ensures Find(raw, desc) == 9
    ensures raw[..9] == "Work:\n\t- " && raw[17..] == " @today\n"
  {
    assert raw[9..17] == desc;
    FoundAtFirstChar(raw, desc, 9);
  }

  /** Completing the task rewrites its text in place: the heading, the tabs
      and the dash stay, the completed description replaces `buy milk`, and
      the tag after it stays. */
  lemma WorkComplete(raw: string, desc: string, timestamp: string)
    requires raw == "Work:\n\t- buy milk @today\n" && desc == "buy milk"
    ensures var t := Task(desc, ["@today"], [], Project("Work", 0));
      Complete(raw, t, timestamp).1
        == "Work:\n\t- " + CompletedDescription(t, timestamp) + " @today\n"
  {
    var t := Task(desc, ["@today"], [], Project("Work", 0));
    WorkFindsTask(raw, desc);
    var d := CompletedDescription(t, timestamp);
    var r := Complete(raw, t, timestamp).1;
    FromParts(r, raw[..9], d, raw[17..]);
  }

  // ---------------------------------------------------------------------
  // A shallower heading inside a deeper project's extent
  // ---------------------------------------------------------------------

  /** Where each of the four headings of `A:`, `\tB:`, `C:`, `\tD:` is. */
  lemma OutlineIndexes(raw: string)
    requires raw == "A:\n\tB:\nC:\n\tD:\n"
    ensures ProjectIndex(raw, "A") == 0 && ProjectIndex(raw, "B") == 4
    ensures ProjectIndex(raw, "C") == 7 && ProjectIndex(raw, "D") == 11
  {
    OutlineIndexA(raw);
    OutlineIndexB(raw);
    OutlineIndexC(raw);
    OutlineIndexD(raw);
  }

  /** Each heading, found at its first letter. */
  lemma OutlineIndexA(raw: string)
    requires raw == "A:\n\tB:\nC:\n\tD:\n"
    ensures ProjectIndex(raw, "A") == 0
  {
    LetterHeadingAt(raw, 'A', 0);
  }

  lemma OutlineIndexB(raw: string)
    requires raw == "A:\n\tB:\nC:\n\tD:\n"
    ensures ProjectIndex(raw, "B") == 4
  {
    assert raw[..4] == "A:\n\t";
    LetterHeadingAt(raw, 'B', 4);
  }

  lemma OutlineIndexC(raw: string)
    requires raw == "A:\n\tB:\nC:\n\tD:\n"
    ensures ProjectIndex(raw, "C") == 7
  {
    assert raw[..7] == "A:\n\tB:\n";
    LetterHeadingAt(raw, 'C', 7);
  }

  lemma OutlineIndexD(raw: string)
    requires raw == "A:\n\tB:\nC:\n\tD:\n"
    ensures ProjectIndex(raw, "D") == 11
  {
    assert raw[..11] == "A:\n\tB:\nC:\n\t";
    LetterHeadingAt(raw, 'D', 11);
  }

  /** A heading whose name is the single letter `c`, at `r`, with no `c`
      before it, is the one the search finds. */
  lemma LetterHeadingAt(raw: string, c: char, r: nat)
    requires r + 2 <= |raw| && raw[r] == c && raw[r + 1] == ':' && c !in raw[..r]
    ensures ProjectIndex(raw, [c]) == r
  {
    assert raw[r..r + 2] == [c] + ":";
    forall j | 0 <= j < r
      ensures raw[j] != ([c] + ":")[0]
    {
      assert raw[j] == raw[..r][j];
    }
    FoundAtFirstChar(raw, [c] + ":", r);
  }

  /** The headings at depth one are those of `B` and `D`. */
  lemma OutlineLevelOne(raw: string, ps: seq<Project>)
    requires raw == "A:\n\tB:\nC:\n\tD:\n"
    requires ps == [Project("A", 0), Project("B", 1), Project("C", 0), Project("D", 1)]
    ensures forall y :: HeadingAt(raw, ps, 1, y) <==> y == 4 || y == 11
  {
    OutlineIndexes(raw);
    HeadingsOfOddEntries(raw, ps, 4, 11);
  }

  /** In a list of four whose second and fourth entries alone are at depth
      one, the depth-one headings are those two entries'. */
  lemma HeadingsOfOddEntries(raw: string, ps: seq<Project>, b: int, d: int)
    requires |ps| == 4 && ps[0].indentLevel != 1 && ps[2].indentLevel != 1
    requires ps[1].indentLevel == 1 && ps[3].indentLevel == 1
    requires ProjectIndex(raw, ps[1].name) == b && ProjectIndex(raw, ps[3].name) == d
    ensures forall y :: HeadingAt(raw, ps, 1, y) <==> y == b || y == d
  {
    assert HeadingAt(raw, ps, 1, b) by {
      assert ps[1] in ps;
    }
    assert HeadingAt(raw, ps, 1, d) by {
      assert ps[3] in ps;
    }
    forall y | HeadingAt(raw, ps, 1, y)
      ensures y == b || y == d
    {
      OddEntry(raw, ps, y);
    }
  }

  /** A depth-one heading of such a list is the second or the fourth
      entry's. */
  lemma OddEntry(raw: string, ps: seq<Project>, y: int)
    requires |ps| == 4 && ps[0].indentLevel != 1 && ps[2].indentLevel != 1
    requires HeadingAt(raw, ps, 1, y)
    ensures y == ProjectIndex(raw, ps[1].name) || y == ProjectIndex(raw, ps[3].name)
  {
    var q :| q in ps && q.indentLevel == 1 && ProjectIndex(raw, q.name) == y;
    assert ps == [ps[0], ps[1], ps[2], ps[3]];
    assert q == ps[1] || q == ps[3];
  }

  /** In `A:`, `\tB:`, `C:`, `\tD:` the extent of `B` runs on to `D`'s
      heading, past the heading of the shallower `C` between them. */
  lemma ShallowerHeadingIgnored(raw: string, ps: seq<Project>)
    requires raw == "A:\n\tB:\nC:\n\tD:\n"
    requires ps == [Project("A", 0), Project("B", 1), Project("C", 0), Project("D", 1)]
    ensures ProjectIndex(raw, "B") == 4 && Listed(raw, ps, Project("B", 1))
    ensures ProjectIndex(raw, "B") < ProjectIndex(raw, "C") < NextProjectIndex(raw, ps, Project("B", 1))
    ensures NextProjectIndex(raw, ps, Project("B", 1)) == ProjectIndex(raw, "D")
  {
    OutlineIndexes(raw);
    OutlineLevelOne(raw, ps);
    ExtentEndsAtOnlyLater(raw, ps, Project("B", 1), 11);
  }

  /** `add_subproject` on a top-level project whose last line ends the
      buffer: the heading is spliced in before that line's newline, onto the
      end of the task line, and an empty line follows it. Written as meant,
      it comes after the task line as a line of its own. */
  lemma SubprojectGluedToLastLine(raw: string, ps: seq<Project>)
    requires raw == "A:\n\t- x\n" && ps == [Project("A", 0)]
    ensures Listed(raw, ps, Project("A", 0))
    ensures AddSubproject(raw, ps, Project("A", 0), "Sub").1 == "A:\n\t- x\tSub:\n\n"
    ensures AddSubprojectOnOwnLine(raw, ps, Project("A", 0), "Sub").1 == "A:\n\t- x\n\tSub:\n"
  {
    LetterHeadingAt(raw, 'A', 0);
    assert HeadingAt(raw, ps, 0, 0);
    assert NextProjectIndex(raw, ps, Project("A", 0)) == 8;
    assert Tabs(1) == "\t";
    assert HeadingText("Sub", 1, false) == "\tSub:";
    assert Bound(7, raw) == 7 && Bound(8, raw) == 8;
    assert LineStartBefore(raw, 8) == 8;
  }

  /** `add_subproject` on a second-level project followed by a sibling: the
      heading goes in one character before the sibling's, after the first of
      its two tabs, so the new heading gets four tabs and the sibling is left
      with one. Written as meant, both keep their levels. */
  lemma SubprojectTakesSiblingTab(raw: string, ps: seq<Project>)
    requires raw == "A:\n\tB:\n\t\tC:\n\t\tD:\n"
    requires ps == [Project("A", 0), Project("B", 1), Project("C", 2), Project("D", 2)]
    ensures Listed(raw, ps, Project("C", 2))
    ensures AddSubproject(raw, ps, Project("C", 2), "S").1 == "A:\n\tB:\n\t\tC:\n\t\t\t\tS:\n\tD:\n"
    ensures AddSubprojectOnOwnLine(raw, ps, Project("C", 2), "S").1 == "A:\n\tB:\n\t\tC:\n\t\t\tS:\n\t\tD:\n"
  {
    SecondLevelExtent(raw, ps);
    SecondLevelInserts(raw);
    AsWrittenBeforeSibling(raw, ps, Project("C", 2), "S", 14);
    OwnLineBeforeSibling(raw, ps, Project("C", 2), "S", 14);
  }

  /** The two insertions of `\t\t\tS:` into that outline: one character
      before `D`'s heading, and at the start of its line. */
  lemma SecondLevelInserts(raw: string)
    requires raw == "A:\n\tB:\n\t\tC:\n\t\tD:\n"
    ensures |raw| == 17 && LineStartBefore(raw, 14) == 12
    ensures CreateProject(raw, "S", 3, 13, false).1 == "A:\n\tB:\n\t\tC:\n\t\t\t\tS:\n\tD:\n"
    ensures CreateProject(raw, "S", 3, 12, false).1 == "A:\n\tB:\n\t\tC:\n\t\t\tS:\n\t\tD:\n"
  {
    SiblingLineStart(raw);
    InsertBeforeSiblingTab(raw);
    InsertAtSiblingLine(raw);
  }

  /** `D`'s line starts two tabs before its heading. */
  lemma SiblingLineStart(raw: string)
    requires raw == "A:\n\tB:\n\t\tC:\n\t\tD:\n"
    ensures |raw| == 17 && LineStartBefore(raw, 14) == 12
  {
    assert LineStartBefore(raw, 12) == 12;
    assert LineStartBefore(raw, 13) == 12;
  }

  /** A heading three tabs deep. */
  lemma ThreeTabHeading(name: string)
    ensures HeadingText(name, 3, false) == "\t\t\t" + name + ":"
  {
    assert Tabs(1) == "\t" && Tabs(2) == "\t\t" && Tabs(3) == "\t\t\t";
  }

  lemma InsertBeforeSiblingTab(raw: string)
    requires raw == "A:\n\tB:\n\t\tC:\n\t\tD:\n"
    ensures CreateProject(raw, "S", 3, 13, false).1 == "A:\n\tB:\n\t\tC:\n\t\t\t\tS:\n\tD:\n"
  {
    assert raw[..13] == "A:\n\tB:\n\t\tC:\n\t" && raw[13..] == "\tD:\n";
    CreateProjectText(raw, "S", 3, 13);
    ThreeTabHeading("S");
  }

  lemma InsertAtSiblingLine(raw: string)
    requires raw == "A:\n\tB:\n\t\tC:\n\t\tD:\n"
    ensures CreateProject(raw, "S", 3, 12, false).1 == "A:\n\tB:\n\t\tC:\n\t\t\tS:\n\t\tD:\n"
  {
    assert raw[..12] == "A:\n\tB:\n\t\tC:\n" && raw[12..] == "\t\tD:\n";
    CreateProjectText(raw, "S", 3, 12);
    ThreeTabHeading("S");
  }

  /** Where the two versions of `add_subproject` write, for a project whose
      extent ends at `end`, before the end of the buffer. */
  lemma AsWrittenBeforeSibling(raw: string, ps: seq<Project>, p: Project, name: string, end: nat)
    requires Listed(raw, ps, p) && end == NextProjectIndex(raw, ps, p) && end < |raw|
    ensures AddSubproject(raw, ps, p, name).1 == CreateProject(raw, name, p.indentLevel + 1, end - 1, false).1
  {
  }

  lemma OwnLineBeforeSibling(raw: string, ps: seq<Project>, p: Project, name: string, end: nat)
    requires Listed(raw, ps, p) && end == NextProjectIndex(raw, ps, p) && end < |raw|
    ensures AddSubprojectOnOwnLine(raw, ps, p, name).1
            == CreateProject(raw, name, p.indentLevel + 1, LineStartBefore(raw, end), false).1
  {
  }

  /** `create_project` at an offset inside the buffer, without a blank line,
      as one concatenation. */
  lemma CreateProjectText(raw: string, name: string, lvl: nat, at: nat)
    requires at <= |raw|
    ensures CreateProject(raw, name, lvl, at, false).1 == raw[..at] + (HeadingText(name, lvl, false) + "\n") + raw[at..]
  {
    assert Bound(at, raw) == at;
  }

  /** In that outline, `C`'s extent ends at `D`'s heading. */
  lemma SecondLevelExtent(raw: string, ps: seq<Project>)
    requires raw == "A:\n\tB:\n\t\tC:\n\t\tD:\n"
    requires ps == [Project("A", 0), Project("B", 1), Project("C", 2), Project("D", 2)]
    ensures Listed(raw, ps, Project("C", 2)) && NextProjectIndex(raw, ps, Project("C", 2)) == 14
  {
    SecondLevelIndexC(raw);
    SecondLevelIndexD(raw);
    LastTwoEntries(raw, ps, 2, 9, 14);
    ExtentEndsAtOnlyLater(raw, ps, Project("C", 2), 14);
  }

  lemma SecondLevelIndexC(raw: string)
    requires raw == "A:\n\tB:\n\t\tC:\n\t\tD:\n"
    ensures ProjectIndex(raw, "C") == 9
  {
    assert raw[..9] == "A:\n\tB:\n\t\t";
    LetterHeadingAt(raw, 'C', 9);
  }

  lemma SecondLevelIndexD(raw: string)
    requires raw == "A:\n\tB:\n\t\tC:\n\t\tD:\n"
    ensures ProjectIndex(raw, "D") == 14
  {
    assert raw[..14] == "A:\n\tB:\n\t\tC:\n\t\t";
    LetterHeadingAt(raw, 'D', 14);
  }

  /** In a list of four whose last two entries alone are at `lvl`, the
      headings at `lvl` are those two entries'. */
  lemma LastTwoEntries(raw: string, ps: seq<Project>, lvl: nat, c: int, d: int)
    requires |ps| == 4 && ps[0].indentLevel != lvl && ps[1].indentLevel != lvl
    requires ps[2].indentLevel == lvl && ps[3].indentLevel == lvl
    requires ProjectIndex(raw, ps[2].name) == c && ProjectIndex(raw, ps[3].name) == d
    ensures forall y :: HeadingAt(raw, ps, lvl, y) <==> y == c || y == d
  {
    assert ps[2] in ps && ps[3] in ps;
    forall y | HeadingAt(raw, ps, lvl, y)
      ensures y == c || y == d
    {
      var q :| q in ps && q.indentLevel == lvl && ProjectIndex(raw, q.name) == y;
      assert ps == [ps[0], ps[1], ps[2], ps[3]];
      assert q == ps[2] || q == ps[3];
    }
  }

  // ---------------------------------------------------------------------
  // A nested project followed by a sibling
  // ---------------------------------------------------------------------

  /** The tasks of `A` in `X:`, `\tA:`, `\t\t- x`, `\tB:`: its extent ends at
      `B`'s heading, after the tab that starts `B`'s line, and the one task
      line two tabs deep gives the one task. */
  lemma NestedSiblingTasks(raw: string, ps: seq<Project>)
    requires raw == "X:\n\tA:\n\t\t- x\n\tB:\n"
    requires ps == [Project("X", 0), Project("A", 1), Project("B", 1)]
    ensures ProjectIndex(raw, "A") >= 0 && Listed(raw, ps, Project("A", 1))
    ensures GetTasks(NewCache(raw), raw, ps, Project("A", 1)).items == [TaskFromCapture("x", Project("A", 1))]
  {
    var ls := [Line(2, "- x")];
    NestedRendered(raw, ps, ls);
    OneCapture(ls, 2, Project("A", 1));
  }

  /** The scan of `A`'s extent yields the task lines of the laid-out
      lines. */
  lemma NestedRendered(raw: string, ps: seq<Project>, ls: seq<Line>)
    requires raw == "X:\n\tA:\n\t\t- x\n\tB:\n"
    requires ps == [Project("X", 0), Project("A", 1), Project("B", 1)]
    requires ls == [Line(2, "- x")]
    ensures ProjectIndex(raw, "A") >= 0 && Listed(raw, ps, Project("A", 1))
    ensures GetTasks(NewCache(raw), raw, ps, Project("A", 1)).items
            == TasksFromCaptures(TaskBodies(ls, 2), Project("A", 1))
  {
    var pre, post := "X:\n\t", "B:\n";
    NestedExtent(raw, ps);
    NestedLayout(raw, Project("A", 1), pre, ls, post);
    GetTasksOfRendered(NewCache(raw), raw, ps, Project("A", 1), pre, ls, 1, post);
  }

  /** A single task line gives a single task, from its text after `- `. */
  lemma OneCapture(ls: seq<Line>, tabs: nat, p: Project)
    requires |ls| == 1 && IsTaskLine(ls[0], tabs)
    ensures TasksFromCaptures(TaskBodies(ls, tabs), p) == [TaskFromCapture(ls[0].body[2..], p)]
  {
    assert TaskBodies(ls[1..], tabs) == [];
  }

  /** The buffer around `A`'s heading: what precedes it, the task line laid
      out with the tab of `B`'s line, and `B`'s heading. */
  lemma NestedLayout(raw: string, p: Project, pre: string, ls: seq<Line>, post: string)
    requires raw == "X:\n\tA:\n\t\t- x\n\tB:\n" && p == Project("A", 1)
    requires pre == "X:\n\t" && ls == [Line(2, "- x")] && post == "B:\n"
    ensures raw == pre + (p.name + ":") + (RenderLines(ls) + "\n" + Tabs(1)) + post
    ensures '\n' !in p.name && |pre| == 4 && |raw| - |post| == 14
    ensures forall l :: l in ls ==> PlainLine(l)
  {
    RenderOne(ls);
    assert Tabs(1) == "\t" && Tabs(2) == "\t\t";
  }

  /** `A` is found after `X:` and a tab, `B` after `A`'s task line, and `A`'s
      extent ends at `B`. */
  lemma NestedExtent(raw: string, ps: seq<Project>)
    requires raw == "X:\n\tA:\n\t\t- x\n\tB:\n"
    requires ps == [Project("X", 0), Project("A", 1), Project("B", 1)]
    ensures ProjectIndex(raw, "A") == 4 && Listed(raw, ps, Project("A", 1))
    ensures NextProjectIndex(raw, ps, Project("A", 1)) == 14
  {
    NestedIndexes(raw);
    LaterTwoOfThree(raw, ps, 1, 4, 14);
    ExtentEndsAtOnlyLater(raw, ps, Project("A", 1), 14);
  }

  lemma NestedIndexes(raw: string)
    requires raw == "X:\n\tA:\n\t\t- x\n\tB:\n"
    ensures ProjectIndex(raw, "A") == 4 && ProjectIndex(raw, "B") == 14
  {
    assert raw[..4] == "X:\n\t";
    LetterHeadingAt(raw, 'A', 4);
    assert raw[..14] == "X:\n\tA:\n\t\t- x\n\t";
    LetterHeadingAt(raw, 'B', 14);
  }

  /** In a list of three whose last two entries alone are at `lvl`, the
      headings at `lvl` are those two entries'. */
  lemma LaterTwoOfThree(raw: string, ps: seq<Project>, lvl: nat, a: int, b: int)
    requires |ps| == 3 && ps[0].indentLevel != lvl
    requires ps[1].indentLevel == lvl && ps[2].indentLevel == lvl
    requires ProjectIndex(raw, ps[1].name) == a && ProjectIndex(raw, ps[2].name) == b
    ensures forall y :: HeadingAt(raw, ps, lvl, y) <==> y == a || y == b
  {
    assert ps[1] in ps && ps[2] in ps;
    forall y | HeadingAt(raw, ps, lvl, y)
      ensures y == a || y == b
    {
      var q :| q in ps && q.indentLevel == lvl && ProjectIndex(raw, q.name) == y;
      assert ps == [ps[0], ps[1], ps[2]];
      assert q == ps[1] || q == ps[2];
    }
  }

  /** When the only headings of a project's level are its own and one at
      `y` after it, its extent ends at `y`. */
  lemma ExtentEndsAtOnlyLater(raw: string, ps: seq<Project>, p: Project, y: int)
    requires Listed(raw, ps, p) && ProjectIndex(raw, p.name) < y
    requires forall z :: HeadingAt(raw, ps, p.indentLevel, z) <==> z == ProjectIndex(raw, p.name) || z == y
    ensures NextProjectIndex(raw, ps, p) == y
  {
    assert HeadingAt(raw, ps, p.indentLevel, y);
  }
}
