/**
 The two regular expressions of the `Tasks` class and the clean-up that
 follows them, written out as the left-to-right scans Python's `re.findall`
 and `re.sub` perform:

 - a task line: `\n\t{n}-(?:\s|\t)(.*)(?:(?=@)|(?=\n))`, where `n` is the
   project's indent level plus one;
 - a tag: `@\w+(?:\(.*\))?`.

 Both patterns only look forward from where a match starts, so a match is a
 function of the text from that offset on.
 */
module TaskSyntax {
  import opened Text
  import opened Outline

  /** The first offset at or after `from` holding `c`, or `|s|`. */
  function FirstFrom(s: string, c: char, from: nat): (r: nat)
    requires from <= |s|
    ensures from <= r <= |s|
    ensures r < |s| ==> s[r] == c
    ensures forall i :: from <= i < r ==> s[i] != c
    decreases |s| - from
  {
    if from == |s| || s[from] == c then from else FirstFrom(s, c, from + 1)
  }

  /** The last offset in `[lo, hi)` holding `c`, or -1. */
  function LastIn(s: string, c: char, lo: nat, hi: nat): (r: int)
    requires lo <= hi <= |s|
    ensures r == -1 || (lo <= r < hi && s[r] == c)
    ensures r == -1 ==> forall i :: lo <= i < hi ==> s[i] != c
    ensures forall i :: lo <= i && r < i < hi ==> s[i] != c
    decreases hi - lo
  {
    if hi == lo then -1
    else if s[hi - 1] == c then hi - 1
    else LastIn(s, c, lo, hi - 1)
  }

  /** The first offset at or after `from` that does not hold a word character,
      or `|s|`: where a greedy `\w+` stops. */
  function WordEnd(s: string, from: nat): (r: nat)
    requires from <= |s|
    ensures from <= r <= |s|
    ensures r < |s| ==> !IsWordChar(s[r])
    ensures forall i :: from <= i < r ==> IsWordChar(s[i])
    decreases |s| - from
  {
    if from == |s| || !IsWordChar(s[from]) then from else WordEnd(s, from + 1)
  }

  // ---------------------------------------------------------------------
  // Task lines
  // ---------------------------------------------------------------------

  /** The fixed part of the task pattern at `i`: a newline, exactly `tabs`
      tabs, a dash and one whitespace character (which may itself be a
      newline, since `\s` matches one). */
  predicate TaskPrefixAt(t: string, i: nat, tabs: nat) {
    && i + tabs + 3 <= |t|
    && t[i] == '\n'
    && (forall j :: i < j <= i + tabs ==> t[j] == '\t')
    && t[i + tabs + 1] == '-'
    && IsSpace(t[i + tabs + 2])
  }

  /** Where the capture of the task pattern ends when the match starts at `i`
      (the capture starts at `i + tabs + 3`), or None. The greedy `(.*)`
      first runs to the end of the line; a newline there satisfies the
      look-ahead. At the end of the text there is no newline, so the engine
      backs off to the last `@` on the line, and there is no match when the
      line holds none. */
  function TaskMatchAt(t: string, i: nat, tabs: nat): (r: Option<nat>)
    ensures r.Some? ==> TaskPrefixAt(t, i, tabs) && i + tabs + 3 <= r.value < |t|
    ensures r.Some? ==> forall j :: i + tabs + 3 <= j < r.value ==> t[j] != '\n'
    ensures r.Some? ==> t[r.value] == '\n' || (t[r.value] == '@'
                          && forall j :: r.value < j < |t| ==> t[j] != '\n' && t[j] != '@')
    ensures r.None? && TaskPrefixAt(t, i, tabs) ==>
              forall j :: i + tabs + 3 <= j < |t| ==> t[j] != '\n' && t[j] != '@'
  {
    if !TaskPrefixAt(t, i, tabs) then None
    else
      var c := i + tabs + 3;
      var e := FirstFrom(t, '\n', c);
      if e < |t| then Some(e)
      else
        var a := LastIn(t, '@', c, |t|);
        if a >= 0 then Some(a) else None
  }

  /** A match of the task pattern: where it starts (the newline) and where
      its capture ends. */
  datatype TaskMatch = TaskMatch(at: nat, end: nat)

  /** `findall` with the task pattern from offset `pos` on: the leftmost match,
      then the search resumes where that match ended. */
  function ScanTasks(t: string, tabs: nat, pos: nat): (r: seq<TaskMatch>)
    requires pos <= |t|
    ensures forall m :: m in r ==> pos <= m.at && m.at + tabs + 3 <= m.end < |t|
    decreases |t| - pos
  {
    if pos == |t| then []
    else
      match TaskMatchAt(t, pos, tabs)
      case Some(e) => [TaskMatch(pos, e)] + ScanTasks(t, tabs, e)
      case None => ScanTasks(t, tabs, pos + 1)
  }

  /** Matches in buffer order, none overlapping the next. */
  ghost predicate MatchesInOrder(ms: seq<TaskMatch>) {
    forall a, b :: 0 <= a < b < |ms| ==> ms[a].end <= ms[b].at
  }

  lemma MatchesInOrderCons(m: TaskMatch, rest: seq<TaskMatch>)
    requires MatchesInOrder(rest)
    requires forall x :: x in rest ==> m.end <= x.at
    ensures MatchesInOrder([m] + rest)
  {
    var ms := [m] + rest;
    forall a, b | 0 <= a < b < |ms|
      ensures ms[a].end <= ms[b].at
    {
      assert ms[b] == rest[b - 1] && rest[b - 1] in rest;
      if a > 0 {
        assert ms[a] == rest[a - 1];
      }
    }
  }

  /** The matches come in buffer order and do not overlap. */
  lemma {:induction false} ScanTasksOrdered(t: string, tabs: nat, pos: nat)
    requires pos <= |t|
    ensures MatchesInOrder(ScanTasks(t, tabs, pos))
    decreases |t| - pos
  {
    if pos < |t| {
      match TaskMatchAt(t, pos, tabs)
      case Some(e) =>
        ScanTasksOrdered(t, tabs, e);
        MatchesInOrderCons(TaskMatch(pos, e), ScanTasks(t, tabs, e));
      case None =>
        ScanTasksOrdered(t, tabs, pos + 1);
    }
  }

  /** Every match the scan reports is a match of the pattern at its start. */
  lemma {:induction false} ScanTasksSound(t: string, tabs: nat, pos: nat)
    requires pos <= |t|
    ensures forall m :: m in ScanTasks(t, tabs, pos) ==> TaskMatchAt(t, m.at, tabs) == Some(m.end)
    decreases |t| - pos
  {
    if pos < |t| {
      match TaskMatchAt(t, pos, tabs)
      case Some(e) => ScanTasksSound(t, tabs, e);
      case None => ScanTasksSound(t, tabs, pos + 1);
    }
  }

  /** No match of the pattern is missed: every offset where the pattern
      matches lies within a reported match (it starts one, or an earlier
      match already consumed it). */
  lemma {:induction false} ScanTasksComplete(t: string, tabs: nat, pos: nat, i: nat)
    requires pos <= i <= |t| && TaskMatchAt(t, i, tabs).Some?
    ensures exists m :: m in ScanTasks(t, tabs, pos) && m.at <= i < m.end
    decreases |t| - pos
  {
    match TaskMatchAt(t, pos, tabs)
    case Some(e) =>
      if i < e {
        assert TaskMatch(pos, e) in ScanTasks(t, tabs, pos);
      } else {
        ScanTasksComplete(t, tabs, e, i);
        var m :| m in ScanTasks(t, tabs, e) && m.at <= i < m.end;
        assert m in ScanTasks(t, tabs, pos);
      }
    case None =>
      ScanTasksComplete(t, tabs, pos + 1, i);
  }

  /** The text each match captures. */
  function Captures(t: string, tabs: nat, ms: seq<TaskMatch>): (r: seq<string>)
    requires forall m :: m in ms ==> m.at + tabs + 3 <= m.end <= |t|
    ensures |r| == |ms|
  {
    if ms == [] then []
    else
      assert ms[0] in ms;
      [t[ms[0].at + tabs + 3..ms[0].end]] + Captures(t, tabs, ms[1..])
  }

  /** The `j`-th capture is the text of the `j`-th match. */
  lemma {:induction false} CaptureAt(t: string, tabs: nat, ms: seq<TaskMatch>, j: nat)
    requires forall m :: m in ms ==> m.at + tabs + 3 <= m.end <= |t|
    requires j < |ms|
    ensures ms[j].at + tabs + 3 <= ms[j].end <= |t|
    ensures Captures(t, tabs, ms)[j] == t[ms[j].at + tabs + 3..ms[j].end]
  {
    assert ms[j] in ms;
    if j > 0 {
      assert ms[1..][j - 1] == ms[j];
      CaptureAt(t, tabs, ms[1..], j - 1);
    }
  }

  lemma NoneInRange(s: string, c: char, a: nat, b: nat)
    requires a <= b <= |s|
    requires forall k :: a <= k < b ==> s[k] != c
    ensures c !in s[a..b]
  {
    forall k | 0 <= k < b - a
      ensures s[a..b][k] != c
    {
      assert s[a..b][k] == s[a + k];
    }
  }

  /** `Tasks._get_all_tasks` on a piece of text: the captured text of every
      task line, in buffer order; none of them spans a line break. */
  function TaskCaptures(t: string, tabs: nat): (r: seq<string>)
    ensures |r| == |ScanTasks(t, tabs, 0)|
    ensures forall j :: 0 <= j < |r| ==> '\n' !in r[j]
  {
    var ms := ScanTasks(t, tabs, 0);
    var r := Captures(t, tabs, ms);
    assert forall j :: 0 <= j < |r| ==> '\n' !in r[j] by {
      ScanTasksSound(t, tabs, 0);
      forall j | 0 <= j < |r|
        ensures '\n' !in r[j]
      {
        assert ms[j] in ms;
        CaptureAt(t, tabs, ms, j);
        NoneInRange(t, '\n', ms[j].at + tabs + 3, ms[j].end);
      }
    }
    r
  }

  /** Positions where nothing matches are skipped without changing the
      result. */
  lemma {:induction false} ScanSkips(t: string, tabs: nat, a: nat, b: nat)
    requires a <= b <= |t|
    requires forall i :: a <= i < b ==> TaskMatchAt(t, i, tabs).None?
    ensures ScanTasks(t, tabs, a) == ScanTasks(t, tabs, b)
    decreases b - a
  {
    if a < b {
      ScanSkips(t, tabs, a + 1, b);
    }
  }

  /** No offset strictly inside a line holds a newline, so none starts a match. */
  lemma NoMatchInsideLine(t: string, tabs: nat, pos: nat, l: Line, i: nat)
    requires LineAt(t, pos, l) && '\n' !in l.body
    requires pos < i < pos + 1 + l.tabs + |l.body|
    ensures TaskMatchAt(t, i, tabs).None?
  {
    if i >= pos + 1 + l.tabs {
      assert t[i] == t[pos + 1 + l.tabs..pos + 1 + l.tabs + |l.body|][i - pos - 1 - l.tabs];
    }
  }

  /** A task line of the scanned depth matches, capturing its text after `- `. */
  lemma TaskLineMatches(t: string, tabs: nat, pos: nat, l: Line)
    requires LineAt(t, pos, l) && '\n' !in l.body && IsTaskLine(l, tabs)
    ensures TaskMatchAt(t, pos, tabs) == Some(pos + 1 + tabs + |l.body|)
    ensures t[pos + tabs + 3..pos + 1 + tabs + |l.body|] == l.body[2..]
  {
    var body := t[pos + 1 + tabs..pos + 1 + tabs + |l.body|];
    assert t[pos + 1 + tabs] == body[0] && t[pos + 2 + tabs] == body[1];
    assert TaskPrefixAt(t, pos, tabs);
    forall i | pos + tabs + 3 <= i < pos + 1 + tabs + |l.body|
      ensures t[i] != '\n'
    {
      assert t[i] == body[i - pos - 1 - tabs];
    }
    assert t[pos + tabs + 3..pos + 1 + tabs + |l.body|] == body[2..];
  }

  /** A task line written right after a newline (as `add_task` writes one)
      matches there and captures its description. */
  lemma WrittenTaskLineMatches(t: string, nl: nat, tabs: nat, description: string)
    requires nl < |t| && t[nl] == '\n' && '\n' !in description
    requires OccursAt(t, Tabs(tabs) + ("- " + description) + "\n", nl + 1)
    ensures var e := nl + tabs + 3 + |description|;
      TaskMatchAt(t, nl, tabs) == Some(e) && t[nl + tabs + 3..e] == description
  {
    var l := Line(tabs, "- " + description);
    LineAtFromText(t, nl, l);
    DashedBody(description);
    assert IsTaskLine(l, tabs);
    TaskLineMatches(t, tabs, nl, l);
    assert nl + 1 + tabs + |l.body| == nl + tabs + 3 + |description|;
  }

  /** Any other plain line does not match at its newline. */
  lemma OtherLineDoesNotMatch(t: string, tabs: nat, pos: nat, l: Line)
    requires LineAt(t, pos, l) && PlainLine(l) && !IsTaskLine(l, tabs)
    ensures TaskMatchAt(t, pos, tabs).None?
  {
    var body := t[pos + 1 + l.tabs..pos + 1 + l.tabs + |l.body|];
    assert body == l.body;
  }

  /** Where the pattern matches, the scan reports that match and resumes
      at its end. */
  lemma ScanAtMatch(t: string, tabs: nat, pos: nat, e: nat)
    requires pos < |t| && TaskMatchAt(t, pos, tabs) == Some(e)
    ensures ScanTasks(t, tabs, pos) == [TaskMatch(pos, e)] + ScanTasks(t, tabs, e)
  {
  }

  lemma CapturesCons(t: string, tabs: nat, m: TaskMatch, rest: seq<TaskMatch>)
    requires m.at + tabs + 3 <= m.end <= |t|
    requires forall m' :: m' in rest ==> m'.at + tabs + 3 <= m'.end <= |t|
    ensures Captures(t, tabs, [m] + rest) == [t[m.at + tabs + 3..m.end]] + Captures(t, tabs, rest)
  {
    assert ([m] + rest)[1..] == rest;
  }

  lemma CapturesAtMatch(t: string, tabs: nat, pos: nat, e: nat)
    requires pos < |t| && TaskMatchAt(t, pos, tabs) == Some(e)
    ensures Captures(t, tabs, ScanTasks(t, tabs, pos))
            == [t[pos + tabs + 3..e]] + Captures(t, tabs, ScanTasks(t, tabs, e))
  {
    ScanAtMatch(t, tabs, pos, e);
    CapturesCons(t, tabs, TaskMatch(pos, e), ScanTasks(t, tabs, e));
  }

  /** Scanning across a task line of the scanned depth yields its text. */
  lemma StepOverTaskLine(t: string, tabs: nat, pos: nat, l: Line, next: nat)
    requires LineAt(t, pos, l) && PlainLine(l) && IsTaskLine(l, tabs)
    requires next == pos + 1 + l.tabs + |l.body|
    ensures Captures(t, tabs, ScanTasks(t, tabs, pos))
            == LineYield(l, tabs) + Captures(t, tabs, ScanTasks(t, tabs, next))
  {
    TaskLineMatches(t, tabs, pos, l);
    CapturesAtMatch(t, tabs, pos, next);
  }

  /** Scanning across any other plain line yields nothing. */
  lemma StepOverOtherLine(t: string, tabs: nat, pos: nat, l: Line, next: nat)
    requires LineAt(t, pos, l) && PlainLine(l) && !IsTaskLine(l, tabs)
    requires next == pos + 1 + l.tabs + |l.body|
    ensures Captures(t, tabs, ScanTasks(t, tabs, pos))
            == LineYield(l, tabs) + Captures(t, tabs, ScanTasks(t, tabs, next))
  {
    forall i | pos <= i < next
      ensures TaskMatchAt(t, i, tabs).None?
    {
      if i == pos {
        OtherLineDoesNotMatch(t, tabs, pos, l);
      } else {
        NoMatchInsideLine(t, tabs, pos, l, i);
      }
    }
    ScanSkips(t, tabs, pos, next);
    EmptyConcat(Captures(t, tabs, ScanTasks(t, tabs, next)));
  }

  /** A final newline followed only by tabs holds no match: no dash follows
      the tabs. */
  lemma ScanFinalNewline(t: string, tabs: nat, pos: nat, k: nat)
    requires pos <= |t| && t[pos..] == "\n" + Tabs(k)
    ensures ScanTasks(t, tabs, pos) == []
  {
    assert |t| == pos + 1 + k;
    forall i | pos <= i < |t|
      ensures TaskMatchAt(t, i, tabs).None?
    {
      assert t[i] == t[pos..][i - pos];
      if i == pos && pos + tabs + 3 <= |t| {
        assert t[pos + tabs + 1] == t[pos..][tabs + 1] == '\t';
      }
    }
    ScanSkips(t, tabs, pos, |t|);
  }

  /** Scanning across one plain line yields that line's part. */
  lemma StepOverLine(t: string, tabs: nat, pos: nat, l: Line, next: nat)
    requires LineAt(t, pos, l) && PlainLine(l) && next == pos + 1 + l.tabs + |l.body|
    ensures Captures(t, tabs, ScanTasks(t, tabs, pos))
            == LineYield(l, tabs) + Captures(t, tabs, ScanTasks(t, tabs, next))
  {
    if IsTaskLine(l, tabs) {
      StepOverTaskLine(t, tabs, pos, l, next);
    } else {
      StepOverOtherLine(t, tabs, pos, l, next);
    }
  }

  /** One line of a rendered extent: the scan yields the line's part and
      resumes at the next line. */
  lemma StepRendered(t: string, tabs: nat, pos: nat, ls: seq<Line>, k: nat, next: nat)
    requires ls != [] && RenderedFrom(t, pos, ls, k)
    requires PlainLine(ls[0]) && next == pos + 1 + ls[0].tabs + |ls[0].body|
    ensures RenderedFrom(t, next, ls[1..], k)
    ensures Captures(t, tabs, ScanTasks(t, tabs, pos))
            == LineYield(ls[0], tabs) + Captures(t, tabs, ScanTasks(t, tabs, next))
  {
    var l := ls[0];
    RenderedLineAt(t, pos, ls, k);
    assert LineAt(t, pos, l) && next == pos + 1 + l.tabs + |l.body|;
    StepOverLine(t, tabs, pos, l, next);
  }

  lemma {:induction false} ScanRenderedFrom(t: string, tabs: nat, pos: nat, ls: seq<Line>, k: nat)
    requires RenderedFrom(t, pos, ls, k)
    requires forall i :: 0 <= i < |ls| ==> PlainLine(ls[i])
    ensures Captures(t, tabs, ScanTasks(t, tabs, pos)) == TaskBodies(ls, tabs)
    decreases ls
  {
    if ls == [] {
      ScanFinalNewline(t, tabs, pos, k);
    } else {
      var next := pos + 1 + ls[0].tabs + |ls[0].body|;
      StepRendered(t, tabs, pos, ls, k, next);
      ScanRenderedFrom(t, tabs, next, ls[1..], k);
      TaskBodiesCons(ls, tabs);
    }
  }

  /** Scanning an extent laid out as lines finds exactly the task lines of
      the scanned depth, in order, and yields each one's text after `- `:
      deeper and shallower lines, headings and notes yield nothing. The
      extent may end in the tabs of the heading that follows it. */
  lemma ScanRenderedLines(ls: seq<Line>, tabs: nat, k: nat)
    requires forall l :: l in ls ==> PlainLine(l)
    ensures TaskCaptures(RenderLines(ls) + "\n" + Tabs(k), tabs) == TaskBodies(ls, tabs)
  {
    var t := RenderLines(ls) + "\n" + Tabs(k);
    ScanRenderedFrom(t, tabs, 0, ls, k);
  }

  // ---------------------------------------------------------------------
  // Tags
  // ---------------------------------------------------------------------

  /** Where a match of the tag pattern starting at `i` ends, or None. The
      pattern needs an `@` and at least one word character; the greedy `\w+`
      takes the whole run of them. When an opening parenthesis follows the
      run, the optional group `\(.*\)` extends the tag to the LAST closing
      parenthesis before the end of the line; when there is none, the group
      matches nothing and the tag ends with the run. */
  function TagMatchAt(s: string, i: nat): (r: Option<nat>)
    ensures r.Some? <==> i + 1 < |s| && s[i] == '@' && IsWordChar(s[i + 1])
    ensures r.Some? ==> var w := WordEnd(s, i + 1);
      && i + 2 <= w <= r.value <= |s|
      && (r.value == w || (s[w] == '(' && w + 2 <= r.value && s[r.value - 1] == ')'
                           && forall j :: w < j < r.value ==> s[j] != '\n'))
    ensures r.Some? ==> var w := WordEnd(s, i + 1);
      w < |s| && s[w] == '(' ==>
        forall j :: w < j && r.value <= j < FirstFrom(s, '\n', w + 1) ==> s[j] != ')'
  {
    if !(i + 1 < |s| && s[i] == '@' && IsWordChar(s[i + 1])) then None
    else
      var w := WordEnd(s, i + 1);
      if w < |s| && s[w] == '(' then
        var e := FirstFrom(s, '\n', w + 1);
        var c := LastIn(s, ')', w + 1, e);
        if c >= 0 then Some(c + 1) else Some(w)
      else Some(w)
  }

  /** A stretch `[start, end)` of a string. */
  datatype Span = Span(start: nat, end: nat)

  /** `findall` with the tag pattern from offset `pos` on. */
  function ScanTags(s: string, pos: nat): (r: seq<Span>)
    ensures forall sp :: sp in r ==> pos <= sp.start && sp.start + 2 <= sp.end <= |s|
    decreases |s| - pos
  {
    if pos >= |s| then []
    else
      match TagMatchAt(s, pos)
      case Some(e) => [Span(pos, e)] + ScanTags(s, e)
      case None => ScanTags(s, pos + 1)
  }

  /** Every reported tag is a match of the pattern at its start. */
  lemma {:induction false} ScanTagsSound(s: string, pos: nat)
    ensures forall sp :: sp in ScanTags(s, pos) ==> TagMatchAt(s, sp.start) == Some(sp.end)
    decreases |s| - pos
  {
    if pos < |s| {
      match TagMatchAt(s, pos)
      case Some(e) => ScanTagsSound(s, e);
      case None => ScanTagsSound(s, pos + 1);
    }
  }

  /** Spans in order, none overlapping the next. */
  ghost predicate SpansInOrder(spans: seq<Span>) {
    forall a, b :: 0 <= a < b < |spans| ==> spans[a].end <= spans[b].start
  }

  lemma SpansInOrderCons(sp: Span, rest: seq<Span>)
    requires SpansInOrder(rest)
    requires forall x :: x in rest ==> sp.end <= x.start
    ensures SpansInOrder([sp] + rest)
  {
    var spans := [sp] + rest;
    forall a, b | 0 <= a < b < |spans|
      ensures spans[a].end <= spans[b].start
    {
      assert spans[b] == rest[b - 1] && rest[b - 1] in rest;
      if a > 0 {
        assert spans[a] == rest[a - 1];
      }
    }
  }

  /** The tags come in order and do not overlap. */
  lemma {:induction false} ScanTagsOrdered(s: string, pos: nat)
    ensures SpansInOrder(ScanTags(s, pos))
    decreases |s| - pos
  {
    if pos < |s| {
      match TagMatchAt(s, pos)
      case Some(e) =>
        ScanTagsOrdered(s, e);
        SpansInOrderCons(Span(pos, e), ScanTags(s, e));
      case None =>
        ScanTagsOrdered(s, pos + 1);
    }
  }

  /** No tag is missed: every offset where the pattern matches lies inside a
      reported tag. */
  lemma {:induction false} ScanTagsComplete(s: string, pos: nat, i: nat)
    requires pos <= i && TagMatchAt(s, i).Some?
    ensures exists sp :: sp in ScanTags(s, pos) && sp.start <= i < sp.end
    decreases |s| - pos
  {
    match TagMatchAt(s, pos)
    case Some(e) =>
      if i < e {
        assert Span(pos, e) in ScanTags(s, pos);
      } else {
        ScanTagsComplete(s, e, i);
        var sp :| sp in ScanTags(s, e) && sp.start <= i < sp.end;
        assert sp in ScanTags(s, pos);
      }
    case None =>
      ScanTagsComplete(s, pos + 1, i);
  }

  /** The text of each span. */
  function Slices(s: string, spans: seq<Span>): (r: seq<string>)
    requires forall sp :: sp in spans ==> sp.start <= sp.end <= |s|
    ensures |r| == |spans|
    ensures forall k :: 0 <= k < |r| ==> r[k] == s[spans[k].start..spans[k].end]
  {
    if spans == [] then []
    else
      assert spans[0] in spans;
      [s[spans[0].start..spans[0].end]] + Slices(s, spans[1..])
  }

  /** `Tasks._get_tags_from_task`: every tag of the task text, in order; each
      is an `@` followed by a word character. */
  function ExtractTags(s: string): (r: seq<string>)
    ensures |r| == |ScanTags(s, 0)|
    ensures forall k :: 0 <= k < |r| ==> |r[k]| >= 2 && r[k][0] == '@' && IsWordChar(r[k][1])
  {
    var spans := ScanTags(s, 0);
    ScanTagsSound(s, 0);
    assert forall k :: 0 <= k < |spans| ==> spans[k] in spans;
    Slices(s, spans)
  }

  /** The text from `pos` on with every tag match removed: `re.sub` with the
      tag pattern itself, which is what the clean-up sets out to do. */
  function Untagged(s: string, pos: nat): (r: string)
    requires pos <= |s|
    ensures |r| <= |s| - pos
    decreases |s| - pos
  {
    if pos == |s| then []
    else
      match TagMatchAt(s, pos)
      case Some(e) => Untagged(s, e)
      case None => [s[pos]] + Untagged(s, pos + 1)
  }

  /** Where no tag starts, the character is kept. */
  lemma UntaggedKeeps(s: string, pos: nat)
    requires pos < |s| && TagMatchAt(s, pos).None?
    ensures Untagged(s, pos) == [s[pos]] + Untagged(s, pos + 1)
  {
  }

  /** Where a tag starts, it is removed. */
  lemma UntaggedDrops(s: string, pos: nat, e: nat)
    requires pos < |s| && TagMatchAt(s, pos) == Some(e)
    ensures Untagged(s, pos) == Untagged(s, e)
  {
  }

  /** Total length of a list of strings. */
  function TotalLength(xs: seq<string>): nat {
    if xs == [] then 0 else |xs[0]| + TotalLength(xs[1..])
  }

  lemma TotalLengthCons(x: string, xs: seq<string>)
    ensures TotalLength([x] + xs) == |x| + TotalLength(xs)
  {
    assert ([x] + xs)[1..] == xs;
  }

  /** Removing the tags loses no other character: what is kept and what the
      tags hold add up to the whole text. */
  lemma {:induction false} UntaggedPartition(s: string, pos: nat)
    requires pos <= |s|
    ensures |Untagged(s, pos)| + TotalLength(Slices(s, ScanTags(s, pos))) == |s| - pos
    decreases |s| - pos
  {
    if pos < |s| {
      match TagMatchAt(s, pos)
      case Some(e) =>
        UntaggedPartition(s, e);
        TagSliceLength(s, pos, e);
      case None =>
        UntaggedPartition(s, pos + 1);
        assert ScanTags(s, pos) == ScanTags(s, pos + 1);
    }
  }

  /** A tag matched at `pos` adds its own length to the tagged total. */
  lemma TagSliceLength(s: string, pos: nat, e: nat)
    requires pos < |s| && TagMatchAt(s, pos) == Some(e)
    ensures TotalLength(Slices(s, ScanTags(s, pos))) == e - pos + TotalLength(Slices(s, ScanTags(s, e)))
  {
    var rest := ScanTags(s, e);
    assert ScanTags(s, pos) == [Span(pos, e)] + rest;
    assert Slices(s, [Span(pos, e)] + rest) == [s[pos..e]] + Slices(s, rest);
    TotalLengthCons(s[pos..e], Slices(s, rest));
  }

  /** Text without tags is left as it is. */
  lemma {:induction false} UntaggedWithoutTags(s: string, pos: nat)
    requires pos <= |s| && ScanTags(s, pos) == []
    ensures Untagged(s, pos) == s[pos..]
    decreases |s| - pos
  {
    if pos < |s| {
      assert TagMatchAt(s, pos).None?;
      UntaggedWithoutTags(s, pos + 1);
      assert s[pos..] == [s[pos]] + s[pos + 1..];
    }
  }

  /** Spans that lie in `s` at or after `pos`, in order. */
  ghost predicate SpansWithin(s: string, pos: nat, spans: seq<Span>) {
    && SpansInOrder(spans)
    && forall k :: 0 <= k < |spans| ==> pos <= spans[k].start <= spans[k].end <= |s|
  }

  /** The text of `s` from `pos` on that lies outside the spans, in order. */
  function Gaps(s: string, pos: nat, spans: seq<Span>): (r: string)
    requires pos <= |s| && SpansWithin(s, pos, spans)
    decreases |spans|
  {
    if spans == [] then s[pos..]
    else
      assert forall k :: 1 <= k < |spans| ==> spans[0].end <= spans[k].start;
      s[pos..spans[0].start] + Gaps(s, spans[0].end, spans[1..])
  }

  /** The tags the scan reports lie in the text, in order. */
  lemma ScanTagsWithin(s: string, pos: nat)
    ensures SpansWithin(s, pos, ScanTags(s, pos))
  {
    ScanTagsOrdered(s, pos);
    var spans := ScanTags(s, pos);
    assert forall k :: 0 <= k < |spans| ==> spans[k] in spans;
  }

  /** Removing the tag matches keeps exactly the text between the tags the
      scan reports: the tag spans are cut out and nothing else. */
  lemma {:induction false} UntaggedIsGaps(s: string, pos: nat)
    requires pos <= |s|
    ensures SpansWithin(s, pos, ScanTags(s, pos))
    ensures Untagged(s, pos) == Gaps(s, pos, ScanTags(s, pos))
    decreases |s| - pos
  {
    ScanTagsWithin(s, pos);
    if pos < |s| {
      match TagMatchAt(s, pos)
      case Some(e) =>
        UntaggedIsGaps(s, e);
        UntaggedGapsAfterTag(s, pos, e);
      case None =>
        UntaggedIsGaps(s, pos + 1);
        UntaggedGapsAfterKeep(s, pos);
    }
  }

  /** The step of `UntaggedIsGaps` where a tag ends at `e`. */
  lemma UntaggedGapsAfterTag(s: string, pos: nat, e: nat)
    requires pos < |s| && TagMatchAt(s, pos) == Some(e)
    requires SpansWithin(s, e, ScanTags(s, e)) && Untagged(s, e) == Gaps(s, e, ScanTags(s, e))
    ensures SpansWithin(s, pos, ScanTags(s, pos)) && Untagged(s, pos) == Gaps(s, pos, ScanTags(s, pos))
  {
    var rest, all := ScanTags(s, e), ScanTags(s, pos);
    assert all == [Span(pos, e)] + rest;
    GapsSkip(s, pos, e, rest, all);
  }

  /** The step of `UntaggedIsGaps` where no tag starts at `pos`. */
  lemma UntaggedGapsAfterKeep(s: string, pos: nat)
    requires pos < |s| && TagMatchAt(s, pos).None?
    requires SpansWithin(s, pos + 1, ScanTags(s, pos + 1))
    requires Untagged(s, pos + 1) == Gaps(s, pos + 1, ScanTags(s, pos + 1))
    ensures SpansWithin(s, pos, ScanTags(s, pos)) && Untagged(s, pos) == Gaps(s, pos, ScanTags(s, pos))
  {
    assert ScanTags(s, pos) == ScanTags(s, pos + 1);
    GapsStep(s, pos, ScanTags(s, pos + 1));
    UntaggedKeeps(s, pos);
  }

  /** Starting the gaps one character earlier adds that character. */
  lemma GapsStep(s: string, pos: nat, spans: seq<Span>)
    requires pos < |s| && SpansWithin(s, pos + 1, spans)
    ensures SpansWithin(s, pos, spans)
    ensures Gaps(s, pos, spans) == [s[pos]] + Gaps(s, pos + 1, spans)
  {
    if spans != [] {
      assert forall k :: 1 <= k < |spans| ==> spans[0].end <= spans[k].start;
      var rest := Gaps(s, spans[0].end, spans[1..]);
      SliceCons(s, pos, spans[0].start);
      ConsAssoc(s[pos], s[pos + 1..spans[0].start], rest);
    }
  }

  /** The clean-up as it is meant to work: the task text without its tags,
      stripped. */
  function CleanupTask(s: string): (r: string)
    ensures SpansWithin(s, 0, ScanTags(s, 0)) && r == Strip(Gaps(s, 0, ScanTags(s, 0)))
    ensures r != [] ==> !IsSpace(r[0]) && !IsSpace(r[|r| - 1])
    ensures |r| + TotalLength(ExtractTags(s)) <= |s|
  {
    UntaggedPartition(s, 0);
    UntaggedIsGaps(s, 0);
    Strip(Untagged(s, 0))
  }

  /** The first of the alternatives `alts` that occurs at `pos`, as Python's
      regular-expression engine tries the branches of an alternation. */
  function FirstAlt(s: string, alts: seq<string>, pos: nat): (r: Option<nat>)
    ensures r.Some? ==> r.value < |alts| && OccursAt(s, alts[r.value], pos)
    ensures r.Some? ==> forall k :: 0 <= k < r.value ==> !OccursAt(s, alts[k], pos)
    ensures r.None? ==> forall k :: 0 <= k < |alts| ==> !OccursAt(s, alts[k], pos)
  {
    FirstAltFrom(s, alts, pos, 0)
  }

  /** The first alternative from the `i`-th on that occurs at `pos`. */
  function FirstAltFrom(s: string, alts: seq<string>, pos: nat, i: nat): (r: Option<nat>)
    requires i <= |alts|
    ensures r.Some? ==> i <= r.value < |alts| && OccursAt(s, alts[r.value], pos)
    ensures r.Some? ==> forall k :: i <= k < r.value ==> !OccursAt(s, alts[k], pos)
    ensures r.None? ==> forall k :: i <= k < |alts| ==> !OccursAt(s, alts[k], pos)
    decreases |alts| - i
  {
    if i == |alts| then None
    else if OccursAt(s, alts[i], pos) then Some(i)
    else FirstAltFrom(s, alts, pos, i + 1)
  }

  /** `re.sub("a1|a2|...", "", s[pos:])` for non-empty literal alternatives:
      at each offset the first alternative that occurs there is deleted and
      the scan resumes after it; otherwise the character is kept. */
  function SubLiterals(s: string, alts: seq<string>, pos: nat): (r: string)
    requires pos <= |s|
    requires forall k :: 0 <= k < |alts| ==> alts[k] != []
    ensures |r| <= |s| - pos
    decreases |s| - pos
  {
    if pos == |s| then []
    else
      match FirstAlt(s, alts, pos)
      case Some(k) => SubLiterals(s, alts, pos + |alts[k]|)
      case None => [s[pos]] + SubLiterals(s, alts, pos + 1)
  }

  /** With no alternatives nothing is deleted; this is also what the source's
      empty pattern does, since it matches only the empty string. */
  lemma {:induction false} SubNothing(s: string, pos: nat)
    requires pos <= |s|
    ensures SubLiterals(s, [], pos) == s[pos..]
    decreases |s| - pos
  {
    if pos < |s| {
      SubNothing(s, pos + 1);
      assert s[pos..] == [s[pos]] + s[pos + 1..];
    }
  }

  /** The stretches `re.sub` deletes from `pos` on: at each offset where an
      alternative occurs, the occurrence of the first such alternative. */
  function SubSpans(s: string, alts: seq<string>, pos: nat): (r: seq<Span>)
    requires pos <= |s|
    requires forall k :: 0 <= k < |alts| ==> alts[k] != []
    ensures forall sp :: sp in r ==> pos <= sp.start < sp.end <= |s|
    decreases |s| - pos
  {
    if pos == |s| then []
    else
      match FirstAlt(s, alts, pos)
      case Some(k) => [Span(pos, pos + |alts[k]|)] + SubSpans(s, alts, pos + |alts[k]|)
      case None => SubSpans(s, alts, pos + 1)
  }

  /** Every deleted stretch is an occurrence of the first alternative that
      occurs at its start. */
  lemma {:induction false} SubSpansSound(s: string, alts: seq<string>, pos: nat)
    requires pos <= |s|
    requires forall k :: 0 <= k < |alts| ==> alts[k] != []
    ensures forall sp :: sp in SubSpans(s, alts, pos) ==>
      FirstAlt(s, alts, sp.start).Some? && sp.end == sp.start + |alts[FirstAlt(s, alts, sp.start).value]|
    decreases |s| - pos
  {
    if pos < |s| {
      match FirstAlt(s, alts, pos)
      case Some(k) => SubSpansSound(s, alts, pos + |alts[k]|);
      case None => SubSpansSound(s, alts, pos + 1);
    }
  }

  /** The deleted stretches lie in the text, in order, without overlap. */
  lemma {:induction false} SubSpansWithin(s: string, alts: seq<string>, pos: nat)
    requires pos <= |s|
    requires forall k :: 0 <= k < |alts| ==> alts[k] != []
    ensures SpansWithin(s, pos, SubSpans(s, alts, pos))
    decreases |s| - pos
  {
    if pos < |s| {
      match FirstAlt(s, alts, pos)
      case Some(k) =>
        var e := pos + |alts[k]|;
        SubSpansWithin(s, alts, e);
        var rest, all := SubSpans(s, alts, e), SubSpans(s, alts, pos);
        assert all == [Span(pos, e)] + rest;
        GapsSkip(s, pos, e, rest, all);
      case None =>
        SubSpansWithin(s, alts, pos + 1);
        GapsStep(s, pos, SubSpans(s, alts, pos + 1));
    }
  }

  /** Nothing that could be deleted is kept: no alternative occurs at an
      offset outside every deleted stretch. */
  lemma {:induction false} SubSpansComplete(s: string, alts: seq<string>, pos: nat, i: nat)
    requires pos <= i < |s|
    requires forall k :: 0 <= k < |alts| ==> alts[k] != []
    requires forall sp :: sp in SubSpans(s, alts, pos) ==> !(sp.start <= i < sp.end)
    ensures FirstAlt(s, alts, i).None?
    decreases |s| - pos
  {
    match FirstAlt(s, alts, pos)
    case Some(k) =>
      var e := pos + |alts[k]|;
      assert Span(pos, e) in SubSpans(s, alts, pos);
      SubSpansComplete(s, alts, e, i);
    case None =>
      if pos < i {
        SubSpansComplete(s, alts, pos + 1, i);
      }
  }

  /** The substitution keeps exactly the text between the deleted
      stretches. */
  lemma {:induction false} SubLiteralsIsGaps(s: string, alts: seq<string>, pos: nat)
    requires pos <= |s|
    requires forall k :: 0 <= k < |alts| ==> alts[k] != []
    ensures SpansWithin(s, pos, SubSpans(s, alts, pos))
    ensures SubLiterals(s, alts, pos) == Gaps(s, pos, SubSpans(s, alts, pos))
    decreases |s| - pos
  {
    if pos < |s| {
      match FirstAlt(s, alts, pos)
      case Some(k) =>
        var e := pos + |alts[k]|;
        SubLiteralsIsGaps(s, alts, e);
        GapsAfterDelete(s, alts, pos, k, e);
      case None =>
        SubLiteralsIsGaps(s, alts, pos + 1);
        GapsAfterKeep(s, alts, pos);
    }
  }

  /** One deletion step of the substitution agrees with one skipped span. */
  lemma GapsAfterDelete(s: string, alts: seq<string>, pos: nat, k: nat, e: nat)
    requires pos < |s| && forall j :: 0 <= j < |alts| ==> alts[j] != []
    requires FirstAlt(s, alts, pos) == Some(k) && e == pos + |alts[k]|
    requires e <= |s| && SpansWithin(s, e, SubSpans(s, alts, e))
    requires SubLiterals(s, alts, e) == Gaps(s, e, SubSpans(s, alts, e))
    ensures SpansWithin(s, pos, SubSpans(s, alts, pos))
    ensures SubLiterals(s, alts, pos) == Gaps(s, pos, SubSpans(s, alts, pos))
  {
    var rest, all := SubSpans(s, alts, e), SubSpans(s, alts, pos);
    assert all == [Span(pos, e)] + rest;
    GapsSkip(s, pos, e, rest, all);
    DeleteFirstAlt(s, alts, pos, e);
  }

  /** One keeping step of the substitution agrees with one kept character. */
  lemma GapsAfterKeep(s: string, alts: seq<string>, pos: nat)
    requires pos < |s| && forall j :: 0 <= j < |alts| ==> alts[j] != []
    requires FirstAlt(s, alts, pos) == None
    requires SpansWithin(s, pos + 1, SubSpans(s, alts, pos + 1))
    requires SubLiterals(s, alts, pos + 1) == Gaps(s, pos + 1, SubSpans(s, alts, pos + 1))
    ensures SpansWithin(s, pos, SubSpans(s, alts, pos))
    ensures SubLiterals(s, alts, pos) == Gaps(s, pos, SubSpans(s, alts, pos))
  {
    assert SubSpans(s, alts, pos) == SubSpans(s, alts, pos + 1);
    GapsStep(s, pos, SubSpans(s, alts, pos + 1));
    SubKeeps(s, alts, pos);
  }

  /** A span from `pos` to `e` put in front of spans from `e` on: the spans
      stay in order, and the gaps are those from `e` on. */
  lemma GapsSkip(s: string, pos: nat, e: nat, spans: seq<Span>, all: seq<Span>)
    requires pos <= e <= |s| && SpansWithin(s, e, spans)
    requires all == [Span(pos, e)] + spans
    ensures SpansWithin(s, pos, all)
    ensures Gaps(s, pos, all) == Gaps(s, e, spans)
  {
    assert forall x :: x in spans ==> e <= x.start by {
      forall x | x in spans
        ensures e <= x.start
      {
        var k :| 0 <= k < |spans| && spans[k] == x;
      }
    }
    SpansInOrderCons(Span(pos, e), spans);
    assert all[1..] == spans;
    assert s[pos..pos] == [];
  }

  /** `r` is what lies outside the spans, stripped. */
  ghost predicate StrippedGaps(s: string, spans: seq<Span>, r: string) {
    SpansWithin(s, 0, spans) && r == Strip(Gaps(s, 0, spans))
  }

  /** `Tasks._cleanup_task` as written: the tags found are joined into one
      alternation and every occurrence of any of them is deleted, wherever it
      is, before stripping. */
  function CleanupAsWritten(s: string): (r: string)
    ensures r != [] ==> !IsSpace(r[0]) && !IsSpace(r[|r| - 1])
    ensures |r| <= |s|
  {
    var tags := ExtractTags(s);
    Strip(SubLiterals(s, tags, 0))
  }

  /** The clean-up as written keeps exactly the text outside the stretches
      the substitution deletes, stripped. */
  lemma CleanupAsWrittenIsGaps(s: string)
    ensures StrippedGaps(s, SubSpans(s, ExtractTags(s), 0), CleanupAsWritten(s))
  {
    SubLiteralsIsGaps(s, ExtractTags(s), 0);
  }

  /** Text without tags comes out of either clean-up merely stripped. */
  lemma CleanupsWithoutTags(s: string)
    requires ScanTags(s, 0) == []
    ensures CleanupTask(s) == Strip(s)
    ensures CleanupAsWritten(s) == Strip(s)
  {
    UntaggedWithoutTags(s, 0);
    SubNothing(s, 0);
    assert ExtractTags(s) == [];
  }

  /** Where the tag pattern matches in `x @a @ab`. */
  lemma ExampleTagMatches(s: string)
    requires s == "x @a @ab"
    ensures TagMatchAt(s, 0).None? && TagMatchAt(s, 1).None? && TagMatchAt(s, 4).None?
    ensures TagMatchAt(s, 2) == Some(4) && TagMatchAt(s, 5) == Some(8)
  {
    assert |s| == 8 && s[2] == '@' && s[3] == 'a' && s[4] == ' ';
    assert s[5] == '@' && s[6] == 'a' && s[7] == 'b';
    assert WordEnd(s, 4) == 4 && WordEnd(s, 3) == 4;
    assert WordEnd(s, 8) == 8 && WordEnd(s, 7) == 8 && WordEnd(s, 6) == 8;
  }

  /** The tags of `x @a @ab`: `@a`, then `@ab`. */
  lemma ExampleTags(s: string)
    requires s == "x @a @ab"
    ensures ScanTags(s, 0) == [Span(2, 4), Span(5, 8)]
    ensures ExtractTags(s) == ["@a", "@ab"]
  {
    ExampleTagMatches(s);
    assert ScanTags(s, 8) == [];
    ScanAtTag(s, 5, 8);
    ScanPastNoTag(s, 4);
    ScanAtTag(s, 2, 4);
    ScanPastNoTag(s, 1);
    ScanPastNoTag(s, 0);
    var tags := ExtractTags(s);
    assert tags[0] == s[2..4] == "@a";
    assert tags[1] == s[5..8] == "@ab";
  }

  /** A tag that is a prefix of a later tag is deleted from inside the later
      one: for `x @a @ab` the tags are `@a` and `@ab`, and the as-written
      clean-up leaves a stray `b`. */
  lemma CleanupAsWrittenOverRemoves(s: string)
    requires s == "x @a @ab"
    ensures CleanupAsWritten(s) == "x  b"
  {
    ExampleTags(s);
    ExampleSub(s, ["@a", "@ab"]);
    StripKeepsTrimmed("x  b");
  }

  /** Removing the tags found in `x @a @ab` leaves `x`. */
  lemma CleanupTaskExample(s: string)
    requires s == "x @a @ab"
    ensures CleanupTask(s) == "x"
  {
    ExampleTagMatches(s);
    assert Untagged(s, 8) == [];
    UntaggedDrops(s, 5, 8);
    UntaggedKeeps(s, 4);
    UntaggedDrops(s, 2, 4);
    UntaggedKeeps(s, 1);
    UntaggedKeeps(s, 0);
    assert Untagged(s, 0) == "x  ";
    StripPadding([], "x", "  ");
    assert [] + "x" + "  " == "x  ";
  }

  /** No alternative starts with the character at `pos`, so none occurs there. */
  lemma NoAltAt(s: string, alts: seq<string>, pos: nat)
    requires pos < |s|
    requires forall k :: 0 <= k < |alts| ==> alts[k] != [] && alts[k][0] != s[pos]
    ensures FirstAlt(s, alts, pos) == None
  {
    forall k | 0 <= k < |alts|
      ensures !OccursAt(s, alts[k], pos)
    {
      if pos + |alts[k]| <= |s| {
        assert s[pos..pos + |alts[k]|][0] == s[pos];
      }
    }
  }

  /** Where no alternative occurs, the character is kept. */
  lemma SubKeeps(s: string, alts: seq<string>, pos: nat)
    requires pos < |s| && forall k :: 0 <= k < |alts| ==> alts[k] != []
    requires FirstAlt(s, alts, pos) == None
    ensures SubLiterals(s, alts, pos) == [s[pos]] + SubLiterals(s, alts, pos + 1)
  {
  }

  /** The first alternative occurring at `at`, which ends at `e`, is
      deleted. */
  lemma DeleteFirstAlt(s: string, alts: seq<string>, at: nat, e: nat)
    requires at < |s| && forall j :: 0 <= j < |alts| ==> alts[j] != []
    requires FirstAlt(s, alts, at).Some? && at + |alts[FirstAlt(s, alts, at).value]| == e
    ensures e <= |s| && SubLiterals(s, alts, at) == SubLiterals(s, alts, e)
  {
    SubDeletes(s, alts, at, FirstAlt(s, alts, at).value);
  }

  /** Where an alternative occurs first, it is deleted. */
  lemma SubDeletes(s: string, alts: seq<string>, pos: nat, k: nat)
    requires pos < |s| && forall j :: 0 <= j < |alts| ==> alts[j] != []
    requires FirstAlt(s, alts, pos) == Some(k)
    ensures k < |alts| && pos + |alts[k]| <= |s|
    ensures SubLiterals(s, alts, pos) == SubLiterals(s, alts, pos + |alts[k]|)
  {
    assert OccursAt(s, alts[k], pos);
    var r := SubLiterals(s, alts, pos);
    assert r == SubLiterals(s, alts, pos + |alts[k]|);
  }

  /** The steps of the as-written deletion on `x @a @ab`, from the end. */
  lemma ExampleSubFrom7(s: string, alts: seq<string>)
    requires s == "x @a @ab" && alts == ["@a", "@ab"]
    ensures SubLiterals(s, alts, 7) == "b"
  {
    NoAltAt(s, alts, 7);
    SubKeeps(s, alts, 7);
    assert SubLiterals(s, alts, 8) == [];
  }

  lemma ExampleSubFrom4(s: string, alts: seq<string>)
    requires s == "x @a @ab" && alts == ["@a", "@ab"]
    ensures SubLiterals(s, alts, 4) == " b"
  {
    ExampleSubFrom7(s, alts);
    assert s[5..7] == alts[0];
    assert FirstAlt(s, alts, 5) == Some(0);
    SubDeletes(s, alts, 5, 0);
    NoAltAt(s, alts, 4);
    SubKeeps(s, alts, 4);
  }

  lemma ExampleSubFrom1(s: string, alts: seq<string>)
    requires s == "x @a @ab" && alts == ["@a", "@ab"]
    ensures SubLiterals(s, alts, 1) == "  b"
  {
    ExampleSubFrom4(s, alts);
    assert s[2..4] == alts[0];
    assert FirstAlt(s, alts, 2) == Some(0);
    SubDeletes(s, alts, 2, 0);
    NoAltAt(s, alts, 1);
    SubKeeps(s, alts, 1);
  }

  lemma ExampleSub(s: string, alts: seq<string>)
    requires s == "x @a @ab" && alts == ["@a", "@ab"]
    ensures SubLiterals(s, alts, 0) == "x  b"
  {
    ExampleSubFrom1(s, alts);
    NoAltAt(s, alts, 0);
    SubKeeps(s, alts, 0);
  }

  // ---------------------------------------------------------------------
  // A description followed by tags
  // ---------------------------------------------------------------------

  /** Characters other than `@` start no tag. */
  lemma {:induction false} SkipPlainScan(s: string, a: nat, b: nat)
    requires a <= b <= |s|
    requires forall i :: a <= i < b ==> s[i] != '@'
    ensures ScanTags(s, a) == ScanTags(s, b)
    decreases b - a
  {
    if a < b {
      assert TagMatchAt(s, a).None?;
      SkipPlainScan(s, a + 1, b);
    }
  }

  /** Characters other than `@` are kept by the removal. */
  lemma {:induction false} SkipPlainKept(s: string, a: nat, b: nat)
    requires a <= b <= |s|
    requires forall i :: a <= i < b ==> s[i] != '@'
    ensures Untagged(s, a) == s[a..b] + Untagged(s, b)
    decreases b - a
  {
    if a < b {
      SkipPlainKept(s, a + 1, b);
      assert TagMatchAt(s, a).None?;
      assert Untagged(s, a) == [s[a]] + Untagged(s, a + 1);
      ConsAssoc(s[a], s[a + 1..b], Untagged(s, b));
      SliceCons(s, a, b);
    }
  }

  /** The greedy word run of a bare tag is its name, and no parenthesis
      follows, so the tag is exactly `@w`. */
  lemma BareTagMatches(s: string, pos: nat, w: string)
    requires BareTagAt(s, pos, w) && IsWord(w)
    ensures TagMatchAt(s, pos).None?
    ensures TagMatchAt(s, pos + 1) == Some(pos + 2 + |w|)
    ensures s[pos + 1..pos + 2 + |w|] == "@" + w
  {
    var e := pos + 2 + |w|;
    forall i | pos + 2 <= i < e
      ensures IsWordChar(s[i])
    {
      assert s[i] == s[pos + 2..e][i - pos - 2];
    }
    assert s[pos + 2] == s[pos + 2..e][0];
    var we := WordEnd(s, pos + 2);
    assert we == e;
    assert s[pos + 1..e] == [s[pos + 1]] + s[pos + 2..e];
  }

  lemma SlicesCons(s: string, sp: Span, rest: seq<Span>)
    requires sp.start <= sp.end <= |s|
    requires forall x :: x in rest ==> x.start <= x.end <= |s|
    ensures Slices(s, [sp] + rest) == [s[sp.start..sp.end]] + Slices(s, rest)
  {
    assert ([sp] + rest)[1..] == rest;
  }

  /** Where the tag pattern matches, the scan reports that tag and resumes
      at its end. */
  lemma ScanAtTag(s: string, pos: nat, e: nat)
    requires pos < |s| && TagMatchAt(s, pos) == Some(e)
    ensures ScanTags(s, pos) == [Span(pos, e)] + ScanTags(s, e)
  {
  }

  /** Where the tag pattern does not match, the scan moves on. */
  lemma ScanPastNoTag(s: string, pos: nat)
    requires pos < |s| && TagMatchAt(s, pos).None?
    ensures ScanTags(s, pos) == ScanTags(s, pos + 1)
  {
  }

  /** Across one bare tag the scan reports it. */
  lemma StepOverBareTagScan(s: string, pos: nat, w: string, next: nat)
    requires BareTagAt(s, pos, w) && IsWord(w) && next == pos + 2 + |w|
    ensures Slices(s, ScanTags(s, pos)) == ["@" + w] + Slices(s, ScanTags(s, next))
  {
    BareTagMatches(s, pos, w);
    ScanPastNoTag(s, pos);
    ScanAtTag(s, pos + 1, next);
    SlicesCons(s, Span(pos + 1, next), ScanTags(s, next));
  }

  /** Across one bare tag the removal keeps only the space before it. */
  lemma StepOverBareTagKept(s: string, pos: nat, w: string, next: nat)
    requires BareTagAt(s, pos, w) && IsWord(w) && next == pos + 2 + |w|
    ensures Untagged(s, pos) == " " + Untagged(s, next)
  {
    BareTagMatches(s, pos, w);
    assert Untagged(s, pos) == [s[pos]] + Untagged(s, pos + 1);
    assert Untagged(s, pos + 1) == Untagged(s, next);
  }

  /** Scanning rendered bare tags finds each one, and removing them leaves one
      space per tag. */
  lemma {:induction false} ScanRenderedTags(s: string, pos: nat, ws: seq<string>)
    requires pos <= |s| && s[pos..] == RenderTags(ws)
    requires forall k :: 0 <= k < |ws| ==> IsWord(ws[k])
    ensures Slices(s, ScanTags(s, pos)) == TagNames(ws)
    ensures Untagged(s, pos) == Spaces(|ws|)
    decreases ws
  {
    if ws == [] {
      assert pos == |s|;
    } else {
      var next := pos + 2 + |ws[0]|;
      RenderedTagAt(s, pos, ws, next);
      StepOverBareTagScan(s, pos, ws[0], next);
      StepOverBareTagKept(s, pos, ws[0], next);
      ScanRenderedTags(s, next, ws[1..]);
      assert Spaces(|ws|) == " " + Spaces(|ws| - 1);
    }
  }

  /** A description without `@`, trimmed and non-empty, followed by bare tags:
      the tags are found in order and the clean-up gives back the
      description. */
  lemma TaggedDescriptionRoundTrip(desc: string, ws: seq<string>)
    requires '@' !in desc
    requires desc != [] && !IsSpace(desc[0]) && !IsSpace(desc[|desc| - 1])
    requires forall k :: 0 <= k < |ws| ==> IsWord(ws[k])
    ensures ExtractTags(desc + RenderTags(ws)) == TagNames(ws)
    ensures CleanupTask(desc + RenderTags(ws)) == desc
  {
    var s := desc + RenderTags(ws);
    var n := |desc|;
    forall i | 0 <= i < n
      ensures s[i] != '@'
    {
      assert s[i] == desc[i];
    }
    SkipPlainScan(s, 0, n);
    SkipPlainKept(s, 0, n);
    ConcatParts(desc, RenderTags(ws));
    assert s[0..n] == s[..n];
    ScanRenderedTags(s, n, ws);
    StripTrailing(desc, Spaces(|ws|));
  }
}
