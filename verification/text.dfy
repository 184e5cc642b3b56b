/**
 The string primitives the document model is built from, stated with the
 semantics of the Python built-ins they stand for: `str.find`, `str.strip`,
 slicing with non-negative bounds, and the character classes `\s` and `\w`
 of the `re` module.
 */
module Text {

  datatype Option<+T> = None | Some(value: T)

  /** `query` occurs in `s` starting at offset `i`. */
  predicate OccursAt(s: string, query: string, i: int) {
    0 <= i && i + |query| <= |s| && s[i..i + |query|] == query
  }

  /** Python's `s.find(query, from)`: the least offset at or after `from`
      where `query` occurs, or -1 when there is none. */
  function FindFrom(s: string, query: string, from: nat): (r: int)
    requires from <= |s|
    ensures r == -1 || (from <= r && OccursAt(s, query, r))
    ensures r == -1 ==> forall j :: from <= j ==> !OccursAt(s, query, j)
    ensures r != -1 ==> forall j :: from <= j < r ==> !OccursAt(s, query, j)
    decreases |s| - from
  {
    if from + |query| > |s| then -1
    else if s[from..from + |query|] == query then from
    else FindFrom(s, query, from + 1)
  }

  /** Python's `s.find(query)`. */
  function Find(s: string, query: string): (r: int)
    ensures r == -1 || OccursAt(s, query, r)
    ensures r == -1 <==> forall j :: !OccursAt(s, query, j)
    ensures forall j :: 0 <= j < r ==> !OccursAt(s, query, j)
  {
    FindFrom(s, query, 0)
  }

  /** A slice is its first character followed by the rest. */
  lemma SliceCons(s: string, a: nat, b: nat)
    requires a < b <= |s|
    ensures s[a..b] == [s[a]] + s[a + 1..b]
  {
  }

  /** The two parts of a concatenation, recovered by slicing. */
  lemma ConcatParts(x: string, y: string)
    ensures (x + y)[..|x|] == x && (x + y)[|x|..] == y
  {
  }

  lemma EmptyConcat<T>(x: seq<T>)
    ensures [] + x == x
  {
  }

  lemma ConsAssoc(c: char, x: string, y: string)
    ensures [c] + (x + y) == ([c] + x) + y
  {
  }

  /** The first occurrence is unique: an offset where `query` occurs with
      no earlier occurrence is what `Find` returns. */
  lemma FindUnique(s: string, query: string, r: int)
    requires r == -1 ==> forall j :: !OccursAt(s, query, j)
    requires r != -1 ==> OccursAt(s, query, r) && forall j :: 0 <= j < r ==> !OccursAt(s, query, j)
    ensures Find(s, query) == r
  {
    var f := Find(s, query);
    if f != -1 && r != -1 {
      assert !(f < r) && !(r < f);
    }
  }

  /** Two strings that agree up to the end of the first occurrence of
      `query` in one have that same first occurrence. */
  lemma FindInAgreeingPrefix(a: string, b: string, query: string, st: nat)
    requires Find(a, query) == st
    requires st + |query| <= |a| && st + |query| <= |b|
    requires a[..st + |query|] == b[..st + |query|]
    ensures Find(b, query) == st
  {
    var k := st + |query|;
    forall j | 0 <= j <= st
      ensures OccursAt(b, query, j) == OccursAt(a, query, j)
    {
      assert b[j..j + |query|] == b[..k][j..j + |query|];
      assert a[j..j + |query|] == a[..k][j..j + |query|];
    }
    FindUnique(b, query, st);
  }

  /** Where `query` first occurs and is continued to `longer`, `longer` also
      first occurs there, since each occurrence of it holds one of `query`. */
  lemma FindOfExtension(s: string, query: string, longer: string, st: nat)
    requires Find(s, query) == st && OccursAt(s, longer, st)
    requires |query| <= |longer| && longer[..|query|] == query
    ensures Find(s, longer) == st
  {
    forall j | 0 <= j < st && OccursAt(s, longer, j)
      ensures OccursAt(s, query, j)
    {
      assert s[j..j + |query|] == s[j..j + |longer|][..|query|];
    }
    FindUnique(s, longer, st);
  }

  /** Where Python puts the slice bound `n` of `s`: a negative bound counts
      from the end, and the result is clamped to `[0, |s|]`. */
  function Bound(n: int, s: string): (r: nat)
    ensures r <= |s|
    ensures 0 <= n ==> r <= n && (r == n || r == |s|)
    ensures n < 0 ==> r == |s| + n || (r == 0 && |s| + n < 0)
  {
    if n < 0 then (if |s| + n < 0 then 0 else |s| + n)
    else if n <= |s| then n else |s|
  }

  /** Python's `s[a:b]`: both bounds are placed by `Bound`, and the slice is
      empty when the first lands past the second. */
  function PySlice(s: string, a: int, b: int): (r: string)
    ensures 0 <= a <= b <= |s| ==> r == s[a..b]
    ensures 0 <= b <= a ==> r == []
    ensures 0 <= a <= |s| <= b ==> r == s[a..]
    ensures Bound(a, s) <= Bound(b, s) ==> r == s[Bound(a, s)..Bound(b, s)]
    ensures Bound(b, s) < Bound(a, s) ==> r == []
  {
    var lo := Bound(a, s);
    var hi := Bound(b, s);
    if lo <= hi then s[lo..hi] else []
  }

  /** `"\t" * n` */
  function Tabs(n: nat): (r: string)
    ensures |r| == n
    ensures forall i :: 0 <= i < n ==> r[i] == '\t'
  {
    if n == 0 then [] else Tabs(n - 1) + "\t"
  }

  /** The characters for which Python's `str.isspace()` holds, which is also
      what `\s` matches in a `str` pattern and what `str.strip()` removes. */
  predicate IsSpace(c: char) {
    || c == ' ' || c == '\t' || c == '\n' || c == '\r'
    || c == '\U{0B}' || c == '\U{0C}'
    || ('\U{1C}' <= c <= '\U{1F}')
    || c == '\U{85}' || c == '\U{A0}' || c == '\U{1680}'
    || ('\U{2000}' <= c <= '\U{200A}')
    || c == '\U{2028}' || c == '\U{2029}' || c == '\U{202F}'
    || c == '\U{205F}' || c == '\U{3000}'
  }

  /** `\w`, restricted to ASCII: letters, digits and the underscore. */
  predicate IsWordChar(c: char) {
    ('a' <= c <= 'z') || ('A' <= c <= 'Z') || ('0' <= c <= '9') || c == '_'
  }

  /** The first offset at or after `i` that does not hold whitespace, or
      `|s|` when there is none. */
  function SpaceRunEnd(s: string, i: nat): (k: nat)
    requires i <= |s|
    ensures i <= k <= |s|
    ensures forall j :: i <= j < k ==> IsSpace(s[j])
    ensures k < |s| ==> !IsSpace(s[k])
    decreases |s| - i
  {
    if i < |s| && IsSpace(s[i]) then SpaceRunEnd(s, i + 1) else i
  }

  /** The last offset at or before `i` whose preceding character is not
      whitespace, or 0 when there is none. */
  function SpaceRunStart(s: string, i: nat): (k: nat)
    requires i <= |s|
    ensures k <= i
    ensures forall j :: k <= j < i ==> IsSpace(s[j])
    ensures 0 < k ==> !IsSpace(s[k - 1])
  {
    if 0 < i && IsSpace(s[i - 1]) then SpaceRunStart(s, i - 1) else i
  }

  /** `s` without its leading whitespace. */
  function TrimStart(s: string): (r: string)
    ensures |r| <= |s| && r == s[|s| - |r|..]
    ensures forall i :: 0 <= i < |s| - |r| ==> IsSpace(s[i])
    ensures r != [] ==> !IsSpace(r[0])
  {
    s[SpaceRunEnd(s, 0)..]
  }

  /** `s` without its trailing whitespace. */
  function TrimEnd(s: string): (r: string)
    ensures |r| <= |s| && r == s[..|r|]
    ensures forall i :: |r| <= i < |s| ==> IsSpace(s[i])
    ensures r != [] ==> !IsSpace(r[|r| - 1])
  {
    s[..SpaceRunStart(s, |s|)]
  }

  /** Python's `s.strip()`: `s` without the whitespace at either end;
      `StripIsStretch` places the result inside `s`. */
  function Strip(s: string): (r: string)
    ensures |r| <= |s|
    ensures r != [] ==> !IsSpace(r[0]) && !IsSpace(r[|r| - 1])
    ensures r == [] <==> forall i :: 0 <= i < |s| ==> IsSpace(s[i])
  {
    StripEmpty(s, TrimStart(s));
    TrimEnd(TrimStart(s))
  }

  /** Trimming both ends keeps nothing exactly when `s` is all whitespace. */
  lemma StripEmpty(s: string, t: string)
    requires t == TrimStart(s)
    ensures TrimEnd(t) == [] <==> forall i :: 0 <= i < |s| ==> IsSpace(s[i])
  {
    if TrimEnd(t) != [] {
      assert t != [] && !IsSpace(t[0]);
      assert s[|s| - |t|] == t[0];
    } else {
      assert t == [];
    }
  }

  /** The result of `Strip` is the stretch of `s` that starts at its first
      non-space, with only whitespace before and after it. */
  lemma StripIsStretch(s: string)
    ensures var k := |s| - |TrimStart(s)|; var r := Strip(s);
      && k + |r| <= |s| && r == s[k..k + |r|]
      && (forall i :: 0 <= i < k ==> IsSpace(s[i]))
      && (forall i :: k + |r| <= i < |s| ==> IsSpace(s[i]))
  {
    var t := TrimStart(s);
    StretchOfSuffix(s, t, TrimEnd(t));
  }

  /** A prefix `r` of a suffix `t` of `s`, with whitespace after it in `t`,
      is a stretch of `s` with whitespace after it in `s`. */
  lemma StretchOfSuffix(s: string, t: string, r: string)
    requires |t| <= |s| && t == s[|s| - |t|..]
    requires |r| <= |t| && r == t[..|r|]
    requires forall i :: |r| <= i < |t| ==> IsSpace(t[i])
    ensures var k := |s| - |t|;
      && r == s[k..k + |r|]
      && (forall i :: k + |r| <= i < |s| ==> IsSpace(s[i]))
  {
    var k := |s| - |t|;
    forall i | k + |r| <= i < |s|
      ensures IsSpace(s[i])
    {
      assert s[i] == t[i - k];
    }
  }

  /** Stripping a string with no whitespace at either end leaves it alone. */
  lemma {:induction false} StripKeepsTrimmed(s: string)
    requires s != [] ==> !IsSpace(s[0]) && !IsSpace(s[|s| - 1])
    ensures Strip(s) == s
  {
    assert TrimStart(s) == s;
    assert TrimEnd(s) == s;
  }

  /** Leading whitespace before a non-space is exactly what `TrimStart`
      removes. */
  lemma TrimStartPadding(pre: string, rest: string)
    requires forall i :: 0 <= i < |pre| ==> IsSpace(pre[i])
    requires rest != [] && !IsSpace(rest[0])
    ensures TrimStart(pre + rest) == rest
  {
    var x := pre + rest;
    var t := TrimStart(x);
    assert x[|pre|] == rest[0];
    assert t != [] && t[0] == x[|x| - |t|];
    assert |x| - |t| == |pre|;
    assert x[|pre|..] == rest;
  }

  /** Trailing whitespace after a non-space is exactly what `TrimEnd`
      removes. */
  lemma TrimEndPadding(rest: string, post: string)
    requires forall i :: 0 <= i < |post| ==> IsSpace(post[i])
    requires rest != [] && !IsSpace(rest[|rest| - 1])
    ensures TrimEnd(rest + post) == rest
  {
    var x := rest + post;
    var u := TrimEnd(x);
    assert x[|rest| - 1] == rest[|rest| - 1];
    assert |u| == |rest|;
    assert x[..|rest|] == rest;
  }

  /** Whitespace around a trimmed string is exactly what `strip()` removes. */
  lemma StripPadding(pre: string, s: string, post: string)
    requires forall i :: 0 <= i < |pre| ==> IsSpace(pre[i])
    requires forall i :: 0 <= i < |post| ==> IsSpace(post[i])
    requires s != [] && !IsSpace(s[0]) && !IsSpace(s[|s| - 1])
    ensures Strip(pre + s + post) == s
  {
    assert pre + s + post == pre + (s + post);
    assert (s + post)[0] == s[0];
    TrimStartPadding(pre, s + post);
    TrimEndPadding(s, post);
  }

  /** Whitespace after a trimmed string is exactly what `strip()` removes. */
  lemma StripTrailing(s: string, post: string)
    requires forall i :: 0 <= i < |post| ==> IsSpace(post[i])
    requires s != [] && !IsSpace(s[0]) && !IsSpace(s[|s| - 1])
    ensures Strip(s + post) == s
  {
    StripPadding([], s, post);
    assert [] + s + post == s + post;
  }
}
