/** The few Python `str` built-ins the core relies on: `split` with a literal
    separator, `strip()` with no argument, `startswith`, `endswith` and the
    substring test `in`, stated over `seq<char>`. */
module PyStr {
  import opened Wrappers

  /** Python's `str.isspace`, which is also what `\s` and `strip()` use for `str`:
      the ASCII whitespace, the four ASCII separators and the Unicode space characters. */
  predicate IsWhitespace(c: char)
  {
    || ('\t' <= c <= '\r')
    || ('\U{1C}' <= c <= '\U{1F}')
    || c == ' '
    || c == '\U{85}'
    || c == '\U{A0}'
    || c == '\U{1680}'
    || ('\U{2000}' <= c <= '\U{200A}')
    || c == '\U{2028}'
    || c == '\U{2029}'
    || c == '\U{202F}'
    || c == '\U{205F}'
    || c == '\U{3000}'
  }

  /** An ASCII decimal digit, the model's reading of the regular expression class `\d`. */
  predicate IsDigit(c: char)
  {
    '0' <= c <= '9'
  }

  predicate AllWhitespace(s: string)
  {
    forall k :: 0 <= k < |s| ==> IsWhitespace(s[k])
  }

  /** `s.startswith(prefix)` */
  predicate StartsWith(s: string, prefix: string)
  {
    |prefix| <= |s| && s[..|prefix|] == prefix
  }

  /** `s.endswith(suffix)` */
  predicate EndsWith(s: string, suffix: string)
  {
    |suffix| <= |s| && s[|s| - |suffix|..] == suffix
  }

  /** `sub` occurs in `s` starting at index `i`. */
  predicate OccursAt(s: string, sub: string, i: int)
  {
    0 <= i && i + |sub| <= |s| && s[i..i + |sub|] == sub
  }

  /** `sub in s` */
  predicate Contains(s: string, sub: string)
  {
    exists i :: 0 <= i <= |s| && OccursAt(s, sub, i)
  }

  /** `s.find(sub, k)`: the first occurrence of `sub` at or after index `k`. */
  function FindFrom(s: string, sub: string, k: nat): (r: Option<nat>)
    requires sub != [] && k <= |s|
    ensures r.Some? ==> k <= r.value && OccursAt(s, sub, r.value)
    ensures r.Some? ==> forall j :: k <= j < r.value ==> !OccursAt(s, sub, j)
    ensures r.None? ==> forall j :: k <= j ==> !OccursAt(s, sub, j)
    decreases |s| - k
  {
    if k + |sub| > |s| then None
    else if s[k..k + |sub|] == sub then Some(k)
    else FindFrom(s, sub, k + 1)
  }

  /** `s.split(sep)`: cut at every occurrence of `sep`, scanning left to right
      without overlap. There is always at least one piece. */
  function Split(s: string, sep: string): (pieces: seq<string>)
    requires sep != []
    ensures |pieces| >= 1
    decreases |s|
  {
    match FindFrom(s, sep, 0)
    case None => [s]
    case Some(i) => [s[..i]] + Split(s[i + |sep|..], sep)
  }

  /** `sep.join(pieces)`, the inverse of `Split`. */
  function Join(pieces: seq<string>, sep: string): string
  {
    if pieces == [] then ""
    else if |pieces| == 1 then pieces[0]
    else pieces[0] + sep + Join(pieces[1..], sep)
  }

  /** Splitting loses nothing: joining the pieces back with the separator restores the input. */
  lemma {:induction false} JoinSplit(s: string, sep: string)
    requires sep != []
    ensures Join(Split(s, sep), sep) == s
    decreases |s|
  {
    match FindFrom(s, sep, 0)
    case None =>
    case Some(i) =>
      var rest := s[i + |sep|..];
      var pieces := Split(rest, sep);
      JoinSplit(rest, sep);
      assert Split(s, sep) == [s[..i]] + pieces;
      assert ([s[..i]] + pieces)[1..] == pieces;
      assert Join(Split(s, sep), sep) == s[..i] + sep + Join(pieces, sep);
      assert s == s[..i] + sep + rest;
  }

  /** A string without an occurrence of `sep` splits into itself alone. */
  lemma SplitWithoutSeparator(s: string, sep: string)
    requires sep != [] && !Contains(s, sep)
    ensures Split(s, sep) == [s]
  {
  }

  /** Cutting at a one-character separator: the part before its first occurrence is the first piece. */
  lemma SplitAtChar(a: string, c: char, b: string)
    requires c !in a
    ensures Split(a + [c] + b, [c]) == [a] + Split(b, [c])
  {
    var s := a + [c] + b;
    assert OccursAt(s, [c], |a|);
    match FindFrom(s, [c], 0)
    case None =>
      assert false;
    case Some(i) =>
      assert s[i..i + 1] == [c];
      assert s[i] == c;
      assert forall j :: 0 <= j < |a| ==> s[j] == a[j];
      assert i == |a|;
      assert s[..|a|] == a && s[|a| + 1..] == b;
  }

  /** Starting with a different first character rules a prefix out. */
  lemma FirstCharDiffers(s: string, p: string)
    requires |s| > 0 && |p| > 0 && s[0] != p[0]
    ensures !StartsWith(s, p)
  {
    assert |p| <= |s| ==> s[..|p|][0] == s[0];
  }

  /** A string without the one-character separator is a single piece. */
  lemma SplitNoChar(a: string, c: char)
    requires c !in a
    ensures Split(a, [c]) == [a]
  {
    forall i | 0 <= i <= |a|
      ensures !OccursAt(a, [c], i)
    {
      if i < |a| {
        assert a[i..i + 1] == [a[i]];
      }
    }
    SplitWithoutSeparator(a, [c]);
  }

  /** A prefix free of the one-character separator stays a prefix of the first piece. */
  lemma FirstPieceKeepsPrefix(s: string, c: char, p: string)
    requires c !in p && StartsWith(s, p)
    ensures StartsWith(Split(s, [c])[0], p)
  {
    match FindFrom(s, [c], 0)
    case None =>
    case Some(i) =>
      assert s[i..i + 1] == [c];
      assert s[i] == c;
      assert forall j :: 0 <= j < |p| ==> s[j] == p[j] && p[j] != c;
      assert |p| <= i;
      assert s[..i][..|p|] == p;
  }

  /** A substring of a substring is a substring. */
  lemma ContainsTransitive(s: string, t: string, u: string)
    requires Contains(s, t) && Contains(t, u)
    ensures Contains(s, u)
  {
    var i :| 0 <= i <= |s| && OccursAt(s, t, i);
    var j :| 0 <= j <= |t| && OccursAt(t, u, j);
    forall k | 0 <= k < |u|
      ensures s[i + j + k] == u[k]
    {
      assert u[k] == t[j + k] == s[i + j + k];
    }
    assert OccursAt(s, u, i + j);
  }

  /** Every piece of a split is a contiguous part of the input, and none contains the separator. */
  lemma {:induction false} SplitPieces(s: string, sep: string)
    requires sep != []
    ensures forall p <- Split(s, sep) :: Contains(s, p) && !Contains(p, sep)
    decreases |s|
  {
    match FindFrom(s, sep, 0)
    case None =>
      assert OccursAt(s, s, 0);
    case Some(i) =>
      var rest := s[i + |sep|..];
      SplitPieces(rest, sep);
      var head := s[..i];
      assert OccursAt(s, head, 0);
      assert !Contains(head, sep) by {
        forall j | 0 <= j <= |head|
          ensures !OccursAt(head, sep, j)
        {
          if j + |sep| <= |head| {
            assert head[j..j + |sep|] == s[j..j + |sep|];
            assert !OccursAt(s, sep, j);
          }
        }
      }
      assert OccursAt(s, rest, i + |sep|);
      forall p <- Split(rest, sep)
        ensures Contains(s, p)
      {
        ContainsTransitive(s, rest, p);
      }
  }

  /** A contiguous part of an all-whitespace string is all whitespace. */
  lemma ContainsAllWhitespace(s: string, t: string)
    requires Contains(s, t) && AllWhitespace(s)
    ensures AllWhitespace(t)
  {
    var i :| 0 <= i <= |s| && OccursAt(s, t, i);
    forall k | 0 <= k < |t|
      ensures IsWhitespace(t[k])
    {
      assert t[k] == s[i + k];
    }
  }

  /** `c * k` in Python: the character `c` repeated `k` times. */
  function Repeat(c: char, k: nat): (s: string)
    ensures |s| == k && forall j :: 0 <= j < k ==> s[j] == c
  {
    seq(k, _ => c)
  }

  /** A string is stripped when it neither starts nor ends with whitespace. */
  predicate IsStripped(s: string)
  {
    s == [] || (!IsWhitespace(s[0]) && !IsWhitespace(s[|s| - 1]))
  }

  /** The index of the first non-whitespace character at or after `k` (or `|s|`). */
  function SkipWhitespace(s: string, k: nat): (i: nat)
    requires k <= |s|
    ensures k <= i <= |s|
    ensures forall j :: k <= j < i ==> IsWhitespace(s[j])
    ensures i < |s| ==> !IsWhitespace(s[i])
    decreases |s| - k
  {
    if k < |s| && IsWhitespace(s[k]) then SkipWhitespace(s, k + 1) else k
  }

  /** Walking back from `hi` while the preceding character is whitespace, but not below `lo`. */
  function TrimBack(s: string, lo: nat, hi: nat): (j: nat)
    requires lo <= hi <= |s|
    ensures lo <= j <= hi
    ensures forall k :: j <= k < hi ==> IsWhitespace(s[k])
    ensures lo < j ==> !IsWhitespace(s[j - 1])
    decreases hi
  {
    if lo < hi && IsWhitespace(s[hi - 1]) then TrimBack(s, lo, hi - 1) else hi
  }

  /** `s.strip()`: leading and trailing whitespace removed, the middle kept verbatim. */
  function Strip(s: string): (r: string)
    ensures IsStripped(r)
    ensures Contains(s, r)
    ensures r == [] <==> AllWhitespace(s)
    ensures IsStripped(s) ==> r == s
  {
    var lo := SkipWhitespace(s, 0);
    var hi := TrimBack(s, lo, |s|);
    assert OccursAt(s, s[lo..hi], lo);
    s[lo..hi]
  }

  /** Stripping removes only whitespace, and only at the two ends: the result
      is the middle of `s` between an all-whitespace prefix and suffix. */
  lemma StripRemovesOnlyEdges(s: string)
    ensures exists lo, hi ::
              && 0 <= lo <= hi <= |s| && Strip(s) == s[lo..hi]
              && AllWhitespace(s[..lo]) && AllWhitespace(s[hi..])
  {
    var lo := SkipWhitespace(s, 0);
    var hi := TrimBack(s, lo, |s|);
    assert Strip(s) == s[lo..hi];
    assert AllWhitespace(s[..lo]) by {
      forall j | 0 <= j < lo ensures IsWhitespace(s[..lo][j]) {
        assert s[..lo][j] == s[j];
      }
    }
    assert AllWhitespace(s[hi..]) by {
      forall j | 0 <= j < |s| - hi ensures IsWhitespace(s[hi..][j]) {
        assert s[hi..][j] == s[hi + j];
      }
    }
  }

  /** Whitespace in front of a non-empty stripped string is all that `strip()` removes. */
  lemma StripAfterWhitespace(w: string, t: string)
    requires AllWhitespace(w) && t != [] && IsStripped(t)
    ensures Strip(w + t) == t
  {
    var s := w + t;
    assert s[|w|] == t[0];
    assert forall j :: 0 <= j < |w| ==> s[j] == w[j];
    assert SkipWhitespace(s, 0) == |w|;
    assert TrimBack(s, |w|, |s|) == |s|;
    assert s[|w|..|s|] == t;
  }

  /** A split cuts at the first occurrence of the separator. */
  lemma SplitAtFirst(s: string, sep: string, i: nat)
    requires sep != [] && OccursAt(s, sep, i)
    requires forall j :: 0 <= j < i ==> !OccursAt(s, sep, j)
    ensures Split(s, sep) == [s[..i]] + Split(s[i + |sep|..], sep)
  {
    var r := FindFrom(s, sep, 0);
    assert r.Some? && r.value == i;
  }
}
