/**
 How the text the patterns are run over is laid out: a project's extent as
 a sequence of lines, each after its newline, and a description followed by
 bare tags. These layouts are the inputs the scans are proved correct on.
 */
module Outline {
  import opened Text

  /** One line of an outline: its leading tabs and the rest of it. */
  datatype Line = Line(tabs: nat, body: string)

  /** Each line preceded by its newline, the layout a project's extent has
      after its heading. */
  function RenderLines(ls: seq<Line>): string {
    if ls == [] then [] else "\n" + Tabs(ls[0].tabs) + ls[0].body + RenderLines(ls[1..])
  }

  /** A line whose leading tabs are all counted in `tabs`, that spans one line,
      and that is not a lone dash (a lone dash followed by a newline makes the
      pattern's `\s` consume the newline and capture the NEXT line). */
  predicate PlainLine(l: Line) {
    && '\n' !in l.body
    && (l.body != [] ==> l.body[0] != '\t')
    && l.body != "-"
  }

  /** A task line of the given depth: `tabs` tabs, a dash, one whitespace. */
  predicate IsTaskLine(l: Line, tabs: nat) {
    l.tabs == tabs && |l.body| >= 2 && l.body[0] == '-' && IsSpace(l.body[1])
  }

  /** What a task line yields: its text after the dash and the whitespace. */
  function TaskBodies(ls: seq<Line>, tabs: nat): seq<string> {
    if ls == [] then []
    else if IsTaskLine(ls[0], tabs) then [ls[0].body[2..]] + TaskBodies(ls[1..], tabs)
    else TaskBodies(ls[1..], tabs)
  }

  /** Line `l` sits at `pos` in `t`: its newline, its tabs, its body, and the
      newline that ends it. */
  predicate LineAt(t: string, pos: nat, l: Line) {
    && pos + 1 + l.tabs + |l.body| < |t|
    && t[pos] == '\n'
    && (forall j :: pos + 1 <= j < pos + 1 + l.tabs ==> t[j] == '\t')
    && t[pos + 1 + l.tabs..pos + 1 + l.tabs + |l.body|] == l.body
    && t[pos + 1 + l.tabs + |l.body|] == '\n'
  }

  lemma SplitAt(t: string, pos: nat, a: string, b: string)
    requires pos <= |t| && t[pos..] == a + b
    ensures pos + |a| <= |t| && t[pos..pos + |a|] == a && t[pos + |a|..] == b
  {
    assert t[pos..pos + |a|] == t[pos..][..|a|];
    assert t[pos + |a|..] == t[pos..][|a|..];
  }

  /** The first line of a rendering, and the rest of it. */
  lemma RenderedHead(ls: seq<Line>)
    requires ls != []
    ensures RenderLines(ls) + "\n"
            == ("\n" + Tabs(ls[0].tabs) + ls[0].body) + (RenderLines(ls[1..]) + "\n")
  {
  }

  /** A newline, tabs and body laid out at `pos` and followed by a newline
      are line `l` at `pos`. */
  lemma HeadLineAt(t: string, pos: nat, l: Line, head: string, tail: string)
    requires head == "\n" + Tabs(l.tabs) + l.body && tail != [] && tail[0] == '\n'
    requires pos + |head| <= |t| && t[pos..pos + |head|] == head && t[pos + |head|..] == tail
    ensures LineAt(t, pos, l)
  {
    var n := |head|;
    assert t[pos + n] == tail[0];
    assert t[pos] == head[0];
    forall j | pos + 1 <= j < pos + 1 + l.tabs
      ensures t[j] == '\t'
    {
      assert t[j] == head[j - pos];
    }
    SliceOfSlice(t, pos, pos + n, 1 + l.tabs, n);
    assert head[1 + l.tabs..n] == l.body;
  }

  /** From `pos` on, `t` is the lines `ls` laid out, a final newline and
      `k` tabs: the indentation of the heading that ends the extent. */
  predicate RenderedFrom(t: string, pos: nat, ls: seq<Line>, k: nat) {
    pos <= |t| && t[pos..] == RenderLines(ls) + "\n" + Tabs(k)
  }

  lemma RenderedLineAt(t: string, pos: nat, ls: seq<Line>, k: nat)
    requires ls != [] && RenderedFrom(t, pos, ls, k)
    ensures LineAt(t, pos, ls[0])
    ensures RenderedFrom(t, pos + 1 + ls[0].tabs + |ls[0].body|, ls[1..], k)
  {
    var head := "\n" + Tabs(ls[0].tabs) + ls[0].body;
    var tail := RenderLines(ls[1..]) + "\n" + Tabs(k);
    RenderedHead(ls);
    assert RenderLines(ls) + "\n" + Tabs(k) == head + tail;
    SplitAt(t, pos, head, tail);
    HeadLineAt(t, pos, ls[0], head, tail);
  }

  /** A newline followed by the tabs, body and newline of `l` is `l` laid out
      at that newline. */
  lemma LineAtFromText(t: string, nl: nat, l: Line)
    requires nl < |t| && t[nl] == '\n'
    requires OccursAt(t, Tabs(l.tabs) + l.body + "\n", nl + 1)
    ensures LineAt(t, nl, l)
  {
    var line := Tabs(l.tabs) + l.body + "\n";
    var at := nl + 1;
    var w := t[at..at + |line|];
    assert w == line;
    forall j | at <= j < at + l.tabs
      ensures t[j] == '\t'
    {
      assert t[j] == w[j - at] == line[j - at];
    }
    SliceOfSlice(t, at, at + |line|, l.tabs, l.tabs + |l.body|);
    assert w[l.tabs..l.tabs + |l.body|] == l.body;
    assert t[at + l.tabs + |l.body|] == w[l.tabs + |l.body|];
  }

  /** A slice of a slice is a slice of the whole. */
  lemma SliceOfSlice(t: string, a: nat, b: nat, c: nat, d: nat)
    requires a <= b <= |t| && c <= d <= b - a
    ensures t[a..b][c..d] == t[a + c..a + d]
  {
    assert |t[a..b][c..d]| == |t[a + c..a + d]|;
    forall i | 0 <= i < d - c
      ensures t[a..b][c..d][i] == t[a + c..a + d][i]
    {
      assert t[a..b][c..d][i] == t[a..b][c + i];
    }
  }

  /** The body `- description` of a task line `add_task` writes. */
  lemma DashedBody(description: string)
    ensures var b := "- " + description;
      && b[0] == '-' && IsSpace(b[1]) && b[2..] == description
      && ('\n' !in description ==> '\n' !in b)
  {
    var b := "- " + description;
    assert forall i :: 2 <= i < |b| ==> b[i] == description[i - 2];
  }

  /** What the first line contributes to the scan's result. */
  function LineYield(l: Line, tabs: nat): seq<string> {
    if IsTaskLine(l, tabs) then [l.body[2..]] else []
  }

  lemma TaskBodiesCons(ls: seq<Line>, tabs: nat)
    requires ls != []
    ensures TaskBodies(ls, tabs) == LineYield(ls[0], tabs) + TaskBodies(ls[1..], tabs)
  {
  }

  // ---------------------------------------------------------------------
  // A description followed by tags
  // ---------------------------------------------------------------------

  /** A non-empty run of word characters: the name of a tag. */
  predicate IsWord(w: string) {
    w != [] && forall i :: 0 <= i < |w| ==> IsWordChar(w[i])
  }

  /** ` @w1 @w2 ...`: bare tags written after a description. */
  function RenderTags(ws: seq<string>): string {
    if ws == [] then [] else " @" + ws[0] + RenderTags(ws[1..])
  }

  /** The tags `@w1`, `@w2`, ... */
  function TagNames(ws: seq<string>): (r: seq<string>)
    ensures |r| == |ws| && forall k :: 0 <= k < |ws| ==> r[k] == "@" + ws[k]
  {
    if ws == [] then [] else ["@" + ws[0]] + TagNames(ws[1..])
  }

  /** `alts` are the tags `@w` of the names `ws`, in order. */
  predicate NamedTags(alts: seq<string>, ws: seq<string>) {
    |alts| == |ws| && forall k :: 0 <= k < |ws| ==> alts[k] == "@" + ws[k]
  }

  /** Every tag is non-empty and starts with `@`. */
  lemma NamedTagsStartWithAt(alts: seq<string>, ws: seq<string>)
    requires NamedTags(alts, ws)
    ensures forall k :: 0 <= k < |alts| ==> alts[k] != [] && alts[k][0] == '@'
  {
  }

  /** No tag name is a proper prefix of another, as `a` is of `ab`. */
  predicate PrefixFree(ws: seq<string>) {
    forall a, b :: 0 <= a < |ws| && 0 <= b < |ws| && |ws[a]| <= |ws[b]| && ws[a] == ws[b][..|ws[a]|]
                   ==> ws[a] == ws[b]
  }

  function Spaces(n: nat): (r: string)
    ensures |r| == n && forall i :: 0 <= i < n ==> r[i] == ' '
  {
    if n == 0 then [] else " " + Spaces(n - 1)
  }

  /** A bare tag `@w` at `pos + 1`, after a space and before a space or the
      end of the text. */
  predicate BareTagAt(s: string, pos: nat, w: string) {
    var e := pos + 2 + |w|;
    && e <= |s|
    && s[pos] == ' ' && s[pos + 1] == '@'
    && s[pos + 2..e] == w
    && (e == |s| || s[e] == ' ')
  }

  /** Rendered tags split into the first tag and the rest. */
  lemma RenderedTagAt(s: string, pos: nat, ws: seq<string>, next: nat)
    requires ws != [] && pos <= |s| && s[pos..] == RenderTags(ws) && next == pos + 2 + |ws[0]|
    ensures BareTagAt(s, pos, ws[0])
    ensures next <= |s| && s[next..] == RenderTags(ws[1..])
  {
    var head := " @" + ws[0];
    var tail := RenderTags(ws[1..]);
    assert s[pos..] == head + tail;
    assert s[pos..pos + |head|] == s[pos..][..|head|] == head;
    assert s[next..] == s[pos..][|head|..] == tail;
    assert s[pos] == head[0] && s[pos + 1] == head[1];
    assert s[pos + 2..next] == head[2..] == ws[0];
    if next < |s| {
      assert s[next] == tail[0];
    }
  }

}
