/**
 The two clean-ups on a description followed by bare tags. The as-written
 clean-up deletes every occurrence of any tag found; when no tag name is a
 prefix of another, each occurrence it finds is exactly one of the tags,
 so it gives back the description, as the corrected clean-up does.
 */
module TagRemoval {
  import opened Text
  import opened Outline
  import opened TaskSyntax

  /** A tag `@v` found where the bare tag `@w` is written names a prefix of
      `w`: the word run of `w` ends at a space or at the end of the text. */
  lemma TagAtBareTagIsPrefix(s: string, pos: nat, w: string, v: string)
    requires BareTagAt(s, pos, w) && IsWord(v)
    requires OccursAt(s, "@" + v, pos + 1)
    ensures |v| <= |w| && v == w[..|v|]
  {
    var e := pos + 2 + |w|;
    var q := "@" + v;
    forall i | 0 <= i < |v|
      ensures v[i] == w[i]
    {
      assert v[i] == q[i + 1] == s[pos + 1..pos + 1 + |q|][i + 1] == s[pos + 2 + i];
      assert w[i] == s[pos + 2..e][i];
    }
  }

  /** At a bare tag `@w` whose name is one of the prefix-free `ws`, the first
      of their tags that occurs is `@w` itself, in length. */
  lemma AltAtBareTag(s: string, pos: nat, w: string, ws: seq<string>, alts: seq<string>)
    requires BareTagAt(s, pos, w) && w in ws && PrefixFree(ws) && NamedTags(alts, ws)
    requires forall k :: 0 <= k < |ws| ==> IsWord(ws[k])
    ensures FirstAlt(s, alts, pos + 1).Some?
    ensures pos + 1 + |alts[FirstAlt(s, alts, pos + 1).value]| == pos + 2 + |w|
  {
    var b :| 0 <= b < |ws| && ws[b] == w;
    assert OccursAt(s, alts[b], pos + 1) by {
      assert s[pos + 1..pos + 2 + |w|] == [s[pos + 1]] + s[pos + 2..pos + 2 + |w|];
    }
    match FirstAlt(s, alts, pos + 1)
    case Some(a) =>
      TagAtBareTagIsPrefix(s, pos, w, ws[a]);
    case None =>
  }

  /** The as-written deletion over rendered bare tags, all named in the
      prefix-free `ws`, leaves one space per tag: the space before each tag
      is kept. */
  lemma {:induction false} SubRenderedTags(s: string, pos: nat, rest: seq<string>, ws: seq<string>,
                                           alts: seq<string>)
    requires pos <= |s| && s[pos..] == RenderTags(rest)
    requires forall k :: 0 <= k < |rest| ==> rest[k] in ws
    requires PrefixFree(ws) && NamedTags(alts, ws) && forall k :: 0 <= k < |ws| ==> IsWord(ws[k])
    ensures forall k :: 0 <= k < |alts| ==> alts[k] != []
    ensures SubLiterals(s, alts, pos) == Spaces(|rest|)
    decreases rest, 1
  {
    NamedTagsStartWithAt(alts, ws);
    if rest == [] {
      assert pos == |s|;
    } else {
      RenderedTagAt(s, pos, rest, pos + 2 + |rest[0]|);
      NoAltAt(s, alts, pos);
      SubKeeps(s, alts, pos);
      SubRenderedTagAt(s, pos, pos + 1, rest, ws, alts);
      assert Spaces(|rest|) == " " + Spaces(|rest| - 1);
    }
  }

  /** ... and each tag itself, from its `@` at `at` on, is deleted whole. */
  lemma {:induction false} SubRenderedTagAt(s: string, pos: nat, at: nat, rest: seq<string>,
                                            ws: seq<string>, alts: seq<string>)
    requires rest != [] && pos <= |s| && s[pos..] == RenderTags(rest) && at == pos + 1
    requires forall k :: 0 <= k < |rest| ==> rest[k] in ws
    requires PrefixFree(ws) && NamedTags(alts, ws) && forall k :: 0 <= k < |ws| ==> IsWord(ws[k])
    requires forall k :: 0 <= k < |alts| ==> alts[k] != []
    ensures at <= |s| && SubLiterals(s, alts, at) == Spaces(|rest| - 1)
    decreases rest, 0
  {
    var next := pos + 2 + |rest[0]|;
    RenderedTagAt(s, pos, rest, next);
    assert rest[0] in ws;
    DeleteBareTag(s, pos, at, next, rest[0], ws, alts);
    assert forall k :: 0 <= k < |rest[1..]| ==> rest[1..][k] in ws by {
      assert forall k :: 0 <= k < |rest[1..]| ==> rest[1..][k] == rest[k + 1];
    }
    SubRenderedTags(s, next, rest[1..], ws, alts);
  }

  /** A bare tag `@w` at `at`, ending at `e`, named in the prefix-free `ws`,
      is deleted whole by the alternation of their tags. */
  lemma DeleteBareTag(s: string, pos: nat, at: nat, e: nat, w: string, ws: seq<string>, alts: seq<string>)
    requires BareTagAt(s, pos, w) && w in ws && PrefixFree(ws) && NamedTags(alts, ws)
    requires forall k :: 0 <= k < |ws| ==> IsWord(ws[k])
    requires forall k :: 0 <= k < |alts| ==> alts[k] != []
    requires at == pos + 1 && e == pos + 2 + |w|
    ensures e <= |s| && SubLiterals(s, alts, at) == SubLiterals(s, alts, e)
  {
    AltAtBareTag(s, pos, w, ws, alts);
    DeleteFirstAlt(s, alts, at, e);
  }

  /** Characters other than `@` are kept by the as-written deletion when
      every alternative starts with `@`. */
  lemma {:induction false} SkipPlainSub(s: string, alts: seq<string>, a: nat, b: nat)
    requires a <= b <= |s|
    requires forall i :: a <= i < b ==> s[i] != '@'
    requires forall k :: 0 <= k < |alts| ==> alts[k] != [] && alts[k][0] == '@'
    ensures SubLiterals(s, alts, a) == s[a..b] + SubLiterals(s, alts, b)
    decreases b - a
  {
    if a < b {
      SkipPlainSub(s, alts, a + 1, b);
      NoAltAt(s, alts, a);
      SubKeeps(s, alts, a);
      ConsAssoc(s[a], s[a + 1..b], SubLiterals(s, alts, b));
      SliceCons(s, a, b);
    }
  }

  /** A description without `@`, trimmed and non-empty, followed by bare tags
      none of whose names is a prefix of another's: the clean-up as written
      gives back the description, as the corrected one does. */
  lemma AsWrittenRoundTrip(desc: string, ws: seq<string>)
    requires '@' !in desc
    requires desc != [] && !IsSpace(desc[0]) && !IsSpace(desc[|desc| - 1])
    requires forall k :: 0 <= k < |ws| ==> IsWord(ws[k])
    requires PrefixFree(ws)
    ensures ExtractTags(desc + RenderTags(ws)) == TagNames(ws)
    ensures CleanupAsWritten(desc + RenderTags(ws)) == desc
    ensures CleanupTask(desc + RenderTags(ws)) == desc
  {
    TaggedDescriptionRoundTrip(desc, ws);
    var s := desc + RenderTags(ws);
    var alts := TagNames(ws);
    AsWrittenKeepsDescription(s, desc, ws, alts);
    StripTrailing(desc, Spaces(|ws|));
  }

  /** The as-written deletion keeps the `@`-free description and one space
      per tag. */
  lemma AsWrittenKeepsDescription(s: string, desc: string, ws: seq<string>, alts: seq<string>)
    requires s == desc + RenderTags(ws) && '@' !in desc
    requires forall k :: 0 <= k < |ws| ==> IsWord(ws[k])
    requires PrefixFree(ws) && NamedTags(alts, ws)
    ensures forall k :: 0 <= k < |alts| ==> alts[k] != []
    ensures SubLiterals(s, alts, 0) == desc + Spaces(|ws|)
  {
    var n := |desc|;
    forall i | 0 <= i < n
      ensures s[i] != '@'
    {
      assert s[i] == desc[i];
    }
    NamedTagsStartWithAt(alts, ws);
    SkipPlainSub(s, alts, 0, n);
    ConcatParts(desc, RenderTags(ws));
    assert s[0..n] == s[..n];
    SubRenderedTags(s, n, ws, ws, alts);
  }
}
