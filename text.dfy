/**
 * The few operations on Python `str` values that the report parser relies on:
 * `startswith`, the `in` substring test, `split` on a non-empty separator and
 * `strip()` with no argument.
 */
module Text {
  import opened Wrappers

  /** The characters for which Python's `str.isspace` holds; `strip()` removes exactly these. */
  predicate IsSpace(c: char) {
    ('\t' <= c <= '\r') || ('\U{1C}' <= c <= '\U{1F}') || c == ' '
    || c == '\U{85}' || c == '\U{A0}' || c == '\U{1680}' || ('\U{2000}' <= c <= '\U{200A}')
    || c == '\U{2028}' || c == '\U{2029}' || c == '\U{202F}' || c == '\U{205F}' || c == '\U{3000}'
  }

  /** `s.startswith(p)` */
  predicate StartsWith(s: string, p: string) {
    |p| <= |s| && s[..|p|] == p
  }

  /** `p` occurs in `s` starting at index `i`. */
  predicate OccursAt(s: string, p: string, i: nat) {
    i + |p| <= |s| && s[i..i + |p|] == p
  }

  lemma OccursInTail(s: string, p: string, j: nat)
    requires 0 < |s|
    ensures OccursAt(s[1..], p, j) <==> OccursAt(s, p, j + 1)
  {
    if j + |p| <= |s[1..]| {
      assert s[1..][j..j + |p|] == s[j + 1..j + 1 + |p|];
    }
  }

  /** The index of the leftmost occurrence of `p` in `s`, as `str.find` reports it. */
  function IndexOf(s: string, p: string): (r: Option<nat>)
    ensures r.Some? ==> OccursAt(s, p, r.value) && forall j: nat | j < r.value :: !OccursAt(s, p, j)
    ensures r.None? ==> forall j: nat :: !OccursAt(s, p, j)
    decreases |s|
  {
    if |s| < |p| then None
    else if s[..|p|] == p then Some(0)
    else
      var r := IndexOf(s[1..], p);
      assert !OccursAt(s, p, 0);
      forall j: nat ensures OccursAt(s[1..], p, j) <==> OccursAt(s, p, j + 1) {
        OccursInTail(s, p, j);
      }
      match r
      case None =>
        assert forall j: nat | 0 < j :: !OccursAt(s, p, j) by {
          forall j: nat | 0 < j ensures !OccursAt(s, p, j) {
            assert !OccursAt(s[1..], p, j - 1);
          }
        }
        None
      case Some(i) =>
        assert forall j: nat | 0 < j <= i :: !OccursAt(s, p, j) by {
          forall j: nat | 0 < j <= i ensures !OccursAt(s, p, j) {
            assert !OccursAt(s[1..], p, j - 1);
          }
        }
        Some(i + 1)
  }

  /** `p in s` */
  predicate Contains(s: string, p: string) {
    IndexOf(s, p).Some?
  }

  lemma StartsWithContains(s: string, p: string)
    requires StartsWith(s, p)
    ensures Contains(s, p) && IndexOf(s, p) == Some(0)
  {
    assert OccursAt(s, p, 0);
  }

  /** `sep.join(pieces)` */
  function Join(pieces: seq<string>, sep: string): string {
    if pieces == [] then ""
    else if |pieces| == 1 then pieces[0]
    else pieces[0] + sep + Join(pieces[1..], sep)
  }

  /**
   * `s.split(sep)` for a non-empty separator: cut at every occurrence of `sep`,
   * scanning from the left. There is always at least one piece, and more than
   * one exactly when `sep` occurs in `s`.
   */
  function Split(s: string, sep: string): (pieces: seq<string>)
    requires sep != []
    ensures |pieces| >= 1
    ensures Contains(s, sep) <==> |pieces| >= 2
    ensures |pieces| >= 2 ==> IndexOf(s, sep).Some? && |pieces[0]| == IndexOf(s, sep).value
    decreases |s|
  {
    match IndexOf(s, sep)
    case None => [s]
    case Some(i) => [s[..i]] + Split(s[i + |sep|..], sep)
  }

  /** A text without the separator is a single piece. */
  lemma SplitWithout(s: string, sep: string)
    requires sep != [] && !Contains(s, sep)
    ensures Split(s, sep) == [s]
  {
  }

  /** Joining the pieces of a split with the separator gives back the text. */
  lemma {:induction false} SplitJoin(s: string, sep: string)
    requires sep != []
    ensures Join(Split(s, sep), sep) == s
    decreases |s|
  {
    match IndexOf(s, sep)
    case None =>
    case Some(i) =>
      var tail := s[i + |sep|..];
      SplitJoin(tail, sep);
      assert s == s[..i] + sep + tail;
  }

  /** No piece of a split contains the separator. */
  lemma {:induction false} SplitPiecesFree(s: string, sep: string)
    requires sep != []
    ensures forall k | 0 <= k < |Split(s, sep)| :: !Contains(Split(s, sep)[k], sep)
    decreases |s|
  {
    match IndexOf(s, sep)
    case None =>
    case Some(i) =>
      var rest := Split(s[i + |sep|..], sep);
      SplitPiecesFree(s[i + |sep|..], sep);
      BeforeFirstFree(s, sep, i);
      forall k | 0 < k < |Split(s, sep)| ensures !Contains(Split(s, sep)[k], sep) {
        assert Split(s, sep)[k] == rest[k - 1];
      }
  }

  /** The text before the first occurrence of `p` holds no `p`. */
  lemma BeforeFirstFree(s: string, p: string, i: nat)
    requires p != [] && IndexOf(s, p) == Some(i)
    ensures !Contains(s[..i], p)
  {
    forall j: nat ensures !OccursAt(s[..i], p, j) {
      if j + |p| <= i {
        assert s[..i][j..j + |p|] == s[j..j + |p|];
        assert !OccursAt(s, p, j);
      }
    }
  }

  /** Cutting text off the end of a text that does not contain `p` leaves one that does not either. */
  lemma NotContainsPrefix(a: string, b: string, p: string)
    requires !Contains(a + b, p)
    ensures !Contains(a, p)
  {
    forall j: nat ensures !OccursAt(a, p, j) {
      if j + |p| <= |a| {
        assert a[j..j + |p|] == (a + b)[j..j + |p|];
        assert !OccursAt(a + b, p, j);
      }
    }
  }

  /**
   * `a + sep + b` splits first right after `a` when no occurrence of `sep`
   * starts inside `a`, not even one running into the separator itself.
   */
  lemma IndexOfAfterFree(a: string, sep: string, b: string)
    requires sep != [] && !Contains(a + sep[..|sep| - 1], sep)
    ensures IndexOf(a + sep + b, sep) == Some(|a|)
  {
    var s := a + sep + b;
    var t := a + sep[..|sep| - 1];
    assert s[|a|..|a| + |sep|] == sep;
    assert OccursAt(s, sep, |a|);
    forall j: nat | j < |a| ensures !OccursAt(s, sep, j) {
      SharedPrefixWindow(a, sep, b, j);
      assert !OccursAt(t, sep, j);
    }
  }

  /** A window that starts inside `a` reads the same in `a + sep + b` and in `a + sep[..|sep| - 1]`. */
  lemma SharedPrefixWindow(a: string, sep: string, b: string, j: nat)
    requires sep != [] && j < |a|
    ensures (a + sep + b)[j..j + |sep|] == (a + sep[..|sep| - 1])[j..j + |sep|]
  {
    var s := a + sep + b;
    var t := a + sep[..|sep| - 1];
    forall k | j <= k < j + |sep| ensures s[k] == t[k] {
      if k >= |a| {
        assert s[k] == sep[k - |a|];
      }
    }
  }

  /** Splitting such an `a + sep + b` cuts off `a` and goes on with `b`. */
  lemma SplitAfterFree(a: string, sep: string, b: string)
    requires sep != [] && !Contains(a + sep[..|sep| - 1], sep)
    ensures Split(a + sep + b, sep) == [a] + Split(b, sep)
  {
    var s := a + sep + b;
    IndexOfAfterFree(a, sep, b);
    assert s[..|a|] == a;
    assert s[|a| + |sep|..] == b;
  }

  /**
   * Splitting undoes joining: when no occurrence of the separator starts
   * inside a piece, the split of the pieces' join is the pieces again.
   */
  lemma {:induction false} JoinSplit(pieces: seq<string>, sep: string)
    requires sep != [] && |pieces| >= 1
    requires forall k | 0 <= k < |pieces| :: !Contains(pieces[k] + sep[..|sep| - 1], sep)
    ensures Split(Join(pieces, sep), sep) == pieces
  {
    if |pieces| >= 2 {
      var rest := Join(pieces[1..], sep);
      assert Join(pieces, sep) == pieces[0] + sep + rest;
      SplitAfterFree(pieces[0], sep, rest);
      JoinSplit(pieces[1..], sep);
      assert pieces == [pieces[0]] + pieces[1..];
    } else {
      NotContainsPrefix(pieces[0], sep[..|sep| - 1], sep);
      SplitWithout(pieces[0], sep);
    }
  }

  /** Joining with a final empty piece puts one separator at the end. */
  lemma {:induction false} JoinEmptyLast(pieces: seq<string>, sep: string)
    requires |pieces| >= 1
    ensures Join(pieces + [[]], sep) == Join(pieces, sep) + sep
  {
    if |pieces| == 1 {
      assert (pieces + [[]])[1..] == [[]];
    } else {
      assert (pieces + [[]])[1..] == pieces[1..] + [[]];
      JoinEmptyLast(pieces[1..], sep);
    }
  }

  /** A text in which the last character of `p` appears only too early to end `p` does not contain `p`. */
  lemma AbsentLastChar(s: string, p: string)
    requires p != [] && forall j | |p| - 1 <= j < |s| :: s[j] != p[|p| - 1]
    ensures !Contains(s, p)
  {
    forall j: nat ensures !OccursAt(s, p, j) {
      if j + |p| <= |s| {
        assert s[j..j + |p|][|p| - 1] == s[j + |p| - 1];
      }
    }
  }

  /**
   * Putting in front of a text a prefix that holds no character equal to the
   * first of `p` creates no occurrence of `p`.
   */
  lemma PrefixedFree(pre: string, s: string, p: string)
    requires p != [] && !Contains(s, p)
    requires forall j | 0 <= j < |pre| :: pre[j] != p[0]
    ensures !Contains(pre + s, p)
  {
    var t := pre + s;
    forall j: nat ensures !OccursAt(t, p, j) {
      if j + |p| <= |t| {
        if j < |pre| {
          assert t[j..j + |p|][0] == pre[j];
        } else {
          assert t[j..j + |p|] == s[j - |pre|..j - |pre| + |p|];
          assert !OccursAt(s, p, j - |pre|);
        }
      }
    }
  }

  /** A text without the one-character separator has no character equal to it. */
  lemma FreeOfChar(s: string, sep: string)
    requires |sep| == 1 && !Contains(s, sep)
    ensures forall j | 0 <= j < |s| :: s[j] != sep[0]
  {
    forall j | 0 <= j < |s| ensures s[j] != sep[0] {
      assert !OccursAt(s, sep, j);
      assert s[j..j + 1] == [s[j]] && sep == [sep[0]];
    }
  }

  /**
   * Joining pieces that hold no separator character, all but the last of
   * them non-empty, never puts two separators side by side.
   */
  lemma {:induction false} JoinNoDoubleSeparator(pieces: seq<string>, sep: string)
    requires |sep| == 1 && |pieces| >= 1
    requires forall k | 0 <= k < |pieces| - 1 :: pieces[k] != []
    requires forall k | 0 <= k < |pieces| :: !Contains(pieces[k], sep)
    ensures var s := Join(pieces, sep); forall j | 0 <= j < |s| - 1 :: s[j] != sep[0] || s[j + 1] != sep[0]
    ensures !Contains(Join(pieces, sep), sep + sep)
  {
    var s := Join(pieces, sep);
    var p0 := pieces[0];
    FreeOfChar(p0, sep);
    if |pieces| >= 2 {
      var rest := Join(pieces[1..], sep);
      assert s == p0 + sep + rest;
      JoinNoDoubleSeparator(pieces[1..], sep);
      JoinStartsWith(pieces[1..], sep);
      FreeOfChar(pieces[1], sep);
      forall j | 0 <= j < |s| - 1 ensures s[j] != sep[0] || s[j + 1] != sep[0] {
        if j == |p0| {
          assert s[j + 1] == rest[0];
          assert |pieces| == 2 ==> rest == pieces[1];
          assert rest[0] == pieces[1][0];
        } else if j > |p0| {
          assert s[j] == rest[j - |p0| - 1] && s[j + 1] == rest[j - |p0|];
        }
      }
    } else {
      assert s == p0;
    }
    forall j: nat ensures !OccursAt(s, sep + sep, j) {
      if j + 2 <= |s| {
        assert s[j..j + 2][0] == s[j] && s[j..j + 2][1] == s[j + 1];
        assert (sep + sep)[0] == sep[0] && (sep + sep)[1] == sep[0];
      }
    }
  }

  lemma {:induction false} JoinStartsWith(pieces: seq<string>, sep: string)
    requires |pieces| >= 1
    ensures StartsWith(Join(pieces, sep), pieces[0])
    ensures |pieces| >= 2 ==> StartsWith(Join(pieces, sep)[|pieces[0]|..], sep)
  {
    if |pieces| >= 2 {
      var j := Join(pieces, sep);
      assert j == pieces[0] + sep + Join(pieces[1..], sep);
      assert j[|pieces[0]|..] == sep + Join(pieces[1..], sep);
    }
  }

  /** The first piece of a split is the text before the first separator, or all of it. */
  lemma SplitHead(t: string, sep: string)
    requires sep != []
    ensures var pieces := Split(t, sep);
            |pieces[0]| <= |t| && t[..|pieces[0]|] == pieces[0]
            && (|pieces| == 1 ==> pieces[0] == t)
            && (|pieces| >= 2 ==> StartsWith(t[|pieces[0]|..], sep))
  {
    var pieces := Split(t, sep);
    SplitJoin(t, sep);
    JoinStartsWith(pieces, sep);
    if |pieces| == 1 {
      assert Join(pieces, sep) == pieces[0];
    }
  }

  /**
   * `line.split(marker)[1]`: the text between the first occurrence of `marker`
   * and the next one (or the end of the line).
   */
  function AfterLabel(line: string, marker: string): string
    requires marker != [] && Contains(line, marker)
  {
    Split(line, marker)[1]
  }

  /**
   * The text after a marker starts right after its first occurrence and runs
   * up to the next occurrence or the end of the line, and holds no marker.
   */
  lemma AfterLabelShape(line: string, marker: string)
    requires marker != [] && Contains(line, marker)
    ensures var r := AfterLabel(line, marker);
            var start := IndexOf(line, marker).value + |marker|;
            start + |r| <= |line| && line[start..start + |r|] == r
            && (start + |r| == |line| || StartsWith(line[start + |r|..], marker))
            && !Contains(r, marker)
  {
    var start := IndexOf(line, marker).value + |marker|;
    var rest := line[start..];
    var r := Split(rest, marker)[0];
    AfterLabelRest(line, marker);
    SplitHead(rest, marker);
    FirstPieceFree(rest, marker);
    HeadOfSuffix(line, start, r, marker);
    assert AfterLabel(line, marker) == r;
  }

  /** The first piece of a split holds no separator: it ends before the first one. */
  lemma FirstPieceFree(s: string, sep: string)
    requires sep != []
    ensures !Contains(Split(s, sep)[0], sep)
  {
    match IndexOf(s, sep)
    case None =>
    case Some(i) => BeforeFirstFree(s, sep, i);
  }

  /** The text after the first marker is the first piece of what follows it. */
  lemma AfterLabelRest(line: string, marker: string)
    requires marker != [] && Contains(line, marker)
    ensures AfterLabel(line, marker) == Split(line[IndexOf(line, marker).value + |marker|..], marker)[0]
  {
    var i := IndexOf(line, marker).value;
    assert Split(line, marker) == [line[..i]] + Split(line[i + |marker|..], marker);
  }

  /** A prefix of `line[start..]` that ends at a marker or at the end, seen from `line`. */
  lemma HeadOfSuffix(line: string, start: nat, r: string, marker: string)
    requires start <= |line|
    requires |r| <= |line[start..]| && line[start..][..|r|] == r
    requires |r| == |line[start..]| || StartsWith(line[start..][|r|..], marker)
    ensures start + |r| <= |line| && line[start..start + |r|] == r
    ensures start + |r| == |line| || StartsWith(line[start + |r|..], marker)
  {
    assert line[start..start + |r|] == line[start..][..|r|];
    assert line[start + |r|..] == line[start..][|r|..];
  }

  /** When a line starts with the marker and holds no other, the text after it is the rest of the line. */
  lemma AfterLeadingMarker(marker: string, rest: string)
    requires marker != [] && !Contains(rest, marker)
    ensures Contains(marker + rest, marker)
    ensures AfterLabel(marker + rest, marker) == rest
  {
    var line := marker + rest;
    StartsWithContains(line, marker);
    assert line[|marker|..] == rest;
    assert Split(line, marker) == [""] + Split(rest, marker);
  }

  predicate AllSpace(s: string) {
    forall k | 0 <= k < |s| :: IsSpace(s[k])
  }

  /** No whitespace at either end. */
  predicate Clean(s: string) {
    s == [] || (!IsSpace(s[0]) && !IsSpace(s[|s| - 1]))
  }

  /** `s.lstrip()` */
  function TrimStart(s: string): (r: string)
    ensures |r| <= |s| && r == s[|s| - |r|..]
    ensures AllSpace(s[..|s| - |r|])
    ensures r == [] || !IsSpace(r[0])
  {
    if s != [] && IsSpace(s[0]) then
      var r := TrimStart(s[1..]);
      assert s[..|s| - |r|] == [s[0]] + s[1..][..|s| - 1 - |r|];
      r
    else s
  }

  /** `s.rstrip()` */
  function TrimEnd(s: string): (r: string)
    ensures |r| <= |s| && r == s[..|r|]
    ensures AllSpace(s[|r|..])
    ensures r == [] || !IsSpace(r[|r| - 1])
  {
    if s != [] && IsSpace(s[|s| - 1]) then
      var r := TrimEnd(s[..|s| - 1]);
      assert s[|r|..] == s[..|s| - 1][|r|..] + [s[|s| - 1]];
      r
    else s
  }

  /** `s.strip()`: leading and trailing whitespace removed. */
  function Strip(s: string): (r: string)
    ensures |r| <= |s|
    ensures Clean(r)
  {
    TrimEnd(TrimStart(s))
  }

  lemma {:induction false} TrimStartPadded(pre: string, u: string)
    requires AllSpace(pre) && (u == [] || !IsSpace(u[0]))
    ensures TrimStart(pre + u) == u
  {
    if pre != [] {
      assert (pre + u)[1..] == pre[1..] + u;
      TrimStartPadded(pre[1..], u);
    }
  }

  lemma {:induction false} TrimEndPadded(u: string, post: string)
    requires AllSpace(post) && (u == [] || !IsSpace(u[|u| - 1]))
    ensures TrimEnd(u + post) == u
  {
    if post != [] {
      assert (u + post)[..|u + post| - 1] == u + post[..|post| - 1];
      TrimEndPadded(u, post[..|post| - 1]);
    }
  }

  /** Stripping removes exactly the whitespace padding around a clean text. */
  lemma StripPadded(pre: string, s: string, post: string)
    requires AllSpace(pre) && AllSpace(post) && Clean(s)
    ensures Strip(pre + s + post) == s
  {
    if s == [] {
      assert AllSpace(pre + post);
      TrimStartPadded(pre + post, []);
      assert pre + s + post == (pre + post) + [];
    } else {
      assert pre + s + post == pre + (s + post);
      TrimStartPadded(pre, s + post);
      TrimEndPadded(s, post);
    }
  }

  /** Stripping leaves a text without surrounding whitespace as it is. */
  lemma StripKeepsClean(s: string)
    ensures Clean(s) ==> Strip(s) == s
  {
    if Clean(s) {
      StripClean(s);
    }
  }

  /** A text without surrounding whitespace is left as it is. */
  lemma StripClean(s: string)
    requires Clean(s)
    ensures Strip(s) == s
  {
    StripPadded([], s, []);
    assert [] + s + [] == s;
  }
}
