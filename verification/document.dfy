/**
 The `Base` part of a TaskPaper document: the one text buffer every view is
 computed from, and the splice primitives that change it. The buffer is a
 plain `string` threaded through pure functions; persisting it to a file is
 outside the model.
 */
module Document {
  import opened Text

  /** A project heading as the (unmodelled) heading scanner reports it: its
      name and how many indentation characters precede it. Its position in
      the buffer is never stored; it is recomputed by searching for the name. */
  datatype Project = Project(name: string, indentLevel: nat)

  /** What `_insert_in_project` inserts: the content, then a newline unless
      `trailingNewline` is off. */
  function InsertPayload(content: string, trailingNewline: bool): string {
    content + (if trailingNewline then "\n" else "")
  }

  /** `_insert_in_project`: `content` (and a newline) spliced in at `position`;
      a position past the end appends, as Python slicing does. */
  function Insert(raw: string, content: string, position: int, trailingNewline: bool): (r: string)
    ensures var p := Bound(position, raw); var n := |InsertPayload(content, trailingNewline)|;
      && |r| == |raw| + |content| + (if trailingNewline then 1 else 0)
      && r[..p] == raw[..p]
      && r[p..p + |content|] == content
      && (trailingNewline ==> r[p + |content|] == '\n')
      && r[p + n..] == raw[p..]
  {
    var p := Bound(position, raw);
    raw[..p] + InsertPayload(content, trailingNewline) + raw[p..]
  }

  /** `_replace_in_project`: the range `[start, end)` replaced by `content`.
      Bounds past the end are clamped; when `start` is past `end` Python's
      slices overlap and the characters between them appear twice. */
  function Replace(raw: string, content: string, start: int, end: int): (r: string)
    ensures var a := Bound(start, raw); var b := Bound(end, raw);
      && |r| == a + |content| + (|raw| - b)
      && r[..a] == raw[..a]
      && r[a..a + |content|] == content
      && r[a + |content|..] == raw[b..]
  {
    raw[..Bound(start, raw)] + content + raw[Bound(end, raw)..]
  }

  /** For a proper range, the buffer length changes by the difference between
      the new content and the replaced range, and every character outside the
      range keeps its value, shifted past the new content. */
  lemma ReplaceFrame(raw: string, content: string, start: nat, end: nat)
    requires start <= end <= |raw|
    ensures var r := Replace(raw, content, start, end);
      && |r| == |raw| + |content| - (end - start)
      && (forall i :: 0 <= i < start ==> r[i] == raw[i])
      && (forall i :: end <= i < |raw| ==> r[i - end + start + |content|] == raw[i])
  {
    var r := Replace(raw, content, start, end);
    forall i | end <= i < |raw|
      ensures r[i - end + start + |content|] == raw[i]
    {
      assert r[start + |content|..][i - end] == raw[end..][i - end];
    }
  }

  /** `_get_text_position`: where `query` first occurs in `raw[from:]`,
      RELATIVE to where that slice starts, or -1. A negative `from` counts
      from the end of the buffer, as in Python. */
  function TextPosition(raw: string, query: string, from: int): (r: int)
    ensures var b := Bound(from, raw);
      && (r == -1 || (r >= 0 && OccursAt(raw, query, b + r)))
      && (r == -1 <==> forall j :: b <= j ==> !OccursAt(raw, query, j))
      && (forall j :: b <= j < b + r ==> !OccursAt(raw, query, j))
  {
    var b := Bound(from, raw);
    OccursInSuffix(raw, query, b);
    Find(raw[b..], query)
  }

  /** An occurrence in `raw[b..]` is an occurrence in `raw`, shifted by `b`. */
  lemma OccursInSuffix(raw: string, query: string, b: nat)
    requires b <= |raw|
    ensures forall j :: b <= j ==> (OccursAt(raw, query, j) <==> OccursAt(raw[b..], query, j - b))
  {
    forall j | b <= j
      ensures OccursAt(raw, query, j) <==> OccursAt(raw[b..], query, j - b)
    {
      if j + |query| <= |raw| {
        assert raw[b..][j - b..j - b + |query|] == raw[j..j + |query|];
      }
    }
  }

  /** Searching for a one-character string finds the first position holding
      that character. */
  lemma TextPositionOfChar(raw: string, c: char, from: nat)
    requires from <= |raw|
    ensures var r := TextPosition(raw, [c], from);
      || (r == -1 && forall i :: from <= i < |raw| ==> raw[i] != c)
      || (0 <= r && from + r < |raw| && raw[from + r] == c
          && forall i :: from <= i < from + r ==> raw[i] != c)
  {
    var r := TextPosition(raw, [c], from);
    forall i | from <= i < |raw|
      ensures raw[i] == c <==> OccursAt(raw, [c], i)
    {
      assert raw[i..i + 1] == [raw[i]];
    }
  }

  /** The heading `create_project` formats: an optional leading newline, the
      indentation, the name and a colon. The source's format call passes a
      fourth argument (`False`) that the template ignores. */
  function HeadingText(name: string, indentLevel: nat, extraNewline: bool): string {
    (if extraNewline then "\n" else "") + Tabs(indentLevel) + name + ":"
  }

  /** `create_project`: the buffer gains the heading at `position`, always
      followed by the newline `_insert_in_project` adds by default, and the
      new project carries the given name and level. */
  function CreateProject(raw: string, name: string, indentLevel: nat, position: int,
                         extraNewline: bool): (r: (Project, string))
    ensures r.0 == Project(name, indentLevel)
    ensures var p := Bound(position, raw); var e := if extraNewline then 1 else 0;
      && |r.1| == |raw| + e + indentLevel + |name| + 2
      && r.1[..p] == raw[..p]
      && (extraNewline ==> r.1[p] == '\n')
      && (forall i :: p + e <= i < p + e + indentLevel ==> r.1[i] == '\t')
      && OccursAt(r.1, name + ":\n", p + e + indentLevel)
      && r.1[p + e + indentLevel + |name| + 2..] == raw[p..]
  {
    var h := HeadingText(name, indentLevel, extraNewline);
    var raw' := Insert(raw, h, position, true);
    var p := Bound(position, raw);
    var e := if extraNewline then 1 else 0;
    assert raw' == raw[..p] + (h + "\n") + raw[p..];
    assert (h + "\n")[e + indentLevel..] == name + ":\n";
    assert raw'[p + e + indentLevel..p + e + indentLevel + |name| + 2] == (h + "\n")[e + indentLevel..];
    (Project(name, indentLevel), raw')
  }

  /** `r` is `raw` with a heading of `lvl` tabs, `name`, a colon and a
      newline inserted at `at`, and nothing else changed. */
  predicate HeadingInsertedAt(raw: string, r: string, at: nat, name: string, lvl: nat) {
    && at <= |raw|
    && |r| == |raw| + lvl + |name| + 2
    && r[..at] == raw[..at]
    && (forall i :: at <= i < at + lvl ==> r[i] == '\t')
    && OccursAt(r, name + ":\n", at + lvl)
    && r[at + lvl + |name| + 2..] == raw[at..]
  }

  /** `create_project` at an offset inside the buffer, with no blank line. */
  lemma CreateProjectInside(raw: string, name: string, lvl: nat, at: nat)
    requires at <= |raw|
    ensures HeadingInsertedAt(raw, CreateProject(raw, name, lvl, at, false).1, at, name, lvl)
  {
    assert Bound(at, raw) == at;
  }

  /** After `create_project`, searching for the heading finds the new one,
      provided the name has no colon (as project names never do) and the text
      before the insertion point does not already hold `name:`. */
  lemma {:induction false} CreateProjectIsFound(raw: string, name: string, indentLevel: nat,
                                                position: int, extraNewline: bool)
    requires ':' !in name
    requires Find(raw[..Bound(position, raw)], name + ":") == -1
    ensures var p := Bound(position, raw); var e := if extraNewline then 1 else 0;
      Find(CreateProject(raw, name, indentLevel, position, extraNewline).1, name + ":")
        == p + e + indentLevel
  {
    var r := CreateProject(raw, name, indentLevel, position, extraNewline).1;
    var p := Bound(position, raw);
    var e := if extraNewline then 1 else 0;
    var q := name + ":";
    var at := p + e + indentLevel;
    assert OccursAt(r, q, at) by {
      assert r[at..at + |q|] == r[at..at + |name| + 2][..|q|];
    }
    assert forall i :: p <= i < at ==> r[i] != ':';
    assert forall i :: 0 <= i < |q| - 1 ==> q[i] != ':' by {
      forall i | 0 <= i < |q| - 1
        ensures q[i] != ':'
      {
        assert q[i] == name[i];
      }
    }
    FirstAfterColonFree(raw, r, q, p, at);
  }

  /** A colon-terminated query whose other characters are no colons, absent
      from `raw[..p]`, first occurs in `r` at `at` when `r` agrees with `raw`
      before `p`, holds no colon in `[p, at)`, and holds the query at `at`. */
  lemma FirstAfterColonFree(raw: string, r: string, q: string, p: nat, at: nat)
    requires p <= at && p <= |raw| && p <= |r|
    requires |q| >= 1 && q[|q| - 1] == ':'
    requires forall i :: 0 <= i < |q| - 1 ==> q[i] != ':'
    requires r[..p] == raw[..p]
    requires Find(raw[..p], q) == -1
    requires OccursAt(r, q, at)
    requires forall i :: p <= i < at ==> r[i] != ':'
    ensures Find(r, q) == at
  {
    forall j | 0 <= j < at
      ensures !OccursAt(r, q, j)
    {
      if j + |q| <= p {
        assert r[j..j + |q|] == raw[..p][j..j + |q|] by {
          forall i | j <= i < j + |q|
            ensures r[i] == raw[..p][i]
          {
            assert r[i] == r[..p][i];
          }
        }
        assert !OccursAt(raw[..p], q, j);
      } else if j + |q| - 1 < at {
        assert r[j + |q| - 1] != ':';
        assert r[j..j + |q|][|q| - 1] == r[j + |q| - 1];
      } else if j + |q| <= |r| {
        var c := j + |q| - 1;
        assert r[c] == r[at..at + |q|][c - at];
        assert r[c] == q[c - at] != ':';
        assert r[j..j + |q|][|q| - 1] == r[c];
      }
    }
    FindUnique(r, q, at);
  }
}
