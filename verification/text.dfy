/** The handful of Python `str` operations the sorting software relies on
    (`strip`, `in`, `split`, `split(sep, 1)`, `join`, `replace`), with the
    facts about them that the rest of the model needs. */
module Text {
  import opened Values

  /** Python's `str.isspace` for one code point: the characters `str.strip()`
      removes when called without an argument. */
  predicate IsSpace(c: char) {
    var n := c as int;
    || n == 0x20
    || 0x09 <= n <= 0x0D
    || 0x1C <= n <= 0x1F
    || n == 0x85 || n == 0xA0 || n == 0x1680
    || 0x2000 <= n <= 0x200A
    || n == 0x2028 || n == 0x2029 || n == 0x202F || n == 0x205F || n == 0x3000
  }

  predicate AllSpace(s: string) {
    forall i :: 0 <= i < |s| ==> IsSpace(s[i])
  }

  /** No whitespace at either end. */
  predicate Trimmed(s: string) {
    |s| == 0 || (!IsSpace(s[0]) && !IsSpace(s[|s| - 1]))
  }

  /** The first position at or after `i` that does not hold whitespace
      (the length of `s` when there is none): where `lstrip` cuts. */
  function LeadFrom(s: string, i: nat): (k: nat)
    requires i <= |s|
    ensures i <= k <= |s|
    ensures forall j :: i <= j < k ==> IsSpace(s[j])
    ensures k == |s| || !IsSpace(s[k])
    decreases |s| - i
  {
    if i < |s| && IsSpace(s[i]) then LeadFrom(s, i + 1) else i
  }

  /** The end of `s[lo..j]` once its trailing whitespace is dropped: where
      `rstrip` cuts. */
  function TrailFrom(s: string, lo: nat, j: nat): (e: nat)
    requires lo <= j <= |s|
    ensures lo <= e <= j
    ensures forall m :: e <= m < j ==> IsSpace(s[m])
    ensures e == lo || !IsSpace(s[e - 1])
    decreases j
  {
    if j > lo && IsSpace(s[j - 1]) then TrailFrom(s, lo, j - 1) else j
  }

  /** The position found by `LeadFrom` is the only one with its two
      properties. */
  lemma {:induction false} LeadFromIs(s: string, i: nat, k: nat)
    requires i <= k <= |s|
    requires forall j :: i <= j < k ==> IsSpace(s[j])
    requires k == |s| || !IsSpace(s[k])
    ensures LeadFrom(s, i) == k
    decreases k - i
  {
    if i < k {
      LeadFromIs(s, i + 1, k);
    }
  }

  lemma {:induction false} TrailFromIs(s: string, lo: nat, j: nat, e: nat)
    requires lo <= e <= j <= |s|
    requires forall m :: e <= m < j ==> IsSpace(s[m])
    requires e == lo || !IsSpace(s[e - 1])
    ensures TrailFrom(s, lo, j) == e
    decreases j - e
  {
    if e < j {
      TrailFromIs(s, lo, j - 1, e);
    }
  }

  /** Number of whitespace characters `strip` removes from the front. */
  function Lead(s: string): nat {
    LeadFrom(s, 0)
  }

  /** Python `s.strip()`: the infix of `s` left after removing whitespace at
      both ends. */
  function Strip(s: string): (r: string)
    ensures Trimmed(r)
    ensures Lead(s) + |r| <= |s| && r == s[Lead(s)..Lead(s) + |r|]
    ensures AllSpace(s[..Lead(s)]) && AllSpace(s[Lead(s) + |r|..])
  {
    var k := LeadFrom(s, 0);
    var e := TrailFrom(s, k, |s|);
    assert AllSpace(s[..k]) by {
      forall i | 0 <= i < k ensures IsSpace(s[..k][i]) {
        assert s[..k][i] == s[i];
      }
    }
    assert AllSpace(s[e..]) by {
      forall i | 0 <= i < |s| - e ensures IsSpace(s[e..][i]) {
        assert s[e..][i] == s[e + i];
      }
    }
    s[k..e]
  }

  /** `strip` removes exactly the whitespace around a trimmed text. */
  lemma StripSurrounded(w1: string, t: string, w2: string)
    requires AllSpace(w1) && AllSpace(w2) && Trimmed(t)
    ensures Strip(w1 + t + w2) == t
  {
    var s := w1 + t + w2;
    var k := |w1|;
    var e := |w1| + |t|;
    forall j | 0 <= j < k ensures IsSpace(s[j]) {
      assert s[j] == w1[j];
    }
    forall m | e <= m < |s| ensures IsSpace(s[m]) {
      assert s[m] == w2[m - e];
    }
    if |t| > 0 {
      assert s[k] == t[0] && s[e - 1] == t[|t| - 1];
      LeadFromIs(s, 0, k);
      TrailFromIs(s, k, |s|, e);
    } else {
      LeadFromIs(s, 0, |s|);
      TrailFromIs(s, |s|, |s|, |s|);
    }
    assert s[k..e] == t;
  }

  /** Stripping is idempotent. */
  lemma StripTrimmed(t: string)
    requires Trimmed(t)
    ensures Strip(t) == t
  {
    StripSurrounded("", t, "");
    assert "" + t + "" == t;
  }

  /** A text is its stripped form between two runs of whitespace. */
  lemma StripParts(s: string) returns (a: string, b: string)
    ensures AllSpace(a) && AllSpace(b) && s == a + Strip(s) + b
  {
    var t := Strip(s);
    var k := Lead(s);
    a := s[..k];
    b := s[k + |t|..];
    SliceJoin(s, k, k + |t|);
  }

  lemma SliceJoin(s: string, i: nat, j: nat)
    requires i <= j <= |s|
    ensures s == s[..i] + s[i..j] + s[j..]
  {
  }

  lemma AllSpaceAppend(x: string, y: string)
    requires AllSpace(x) && AllSpace(y)
    ensures AllSpace(x + y)
  {
    assert forall i :: 0 <= i < |x + y| ==> (x + y)[i] == if i < |x| then x[i] else y[i - |x|];
  }

  /** Trailing whitespace does not change `strip()`. */
  lemma StripEndAppend(s: string, w: string)
    requires AllSpace(w)
    ensures Strip(s + w) == Strip(s)
  {
    var a, b := StripParts(s);
    var t := Strip(s);
    AllSpaceAppend(b, w);
    AppendRegroup(a, t, b, w);
    StripSurrounded(a, t, b + w);
  }

  lemma AppendRegroup(a: string, t: string, b: string, w: string)
    ensures (a + t + b) + w == a + t + (b + w)
  {
  }

  // ---------------------------------------------------------------------
  // Substring search

  predicate OccursAt(s: string, p: string, j: int) {
    0 <= j && j + |p| <= |s| && s[j..j + |p|] == p
  }

  /** Python `p in s`. */
  predicate Contains(s: string, p: string) {
    exists j :: 0 <= j <= |s| - |p| && OccursAt(s, p, j)
  }

  /** First occurrence of `p` in `s` at or after `k`. Its contract lives
      in `IndexFromSpec`, so that unfolding `split` does not drag the
      quantified facts along. */
  function IndexFrom(s: string, p: string, k: nat): Option<nat>
    requires |p| > 0 && k <= |s|
    decreases |s| - k
  {
    if k + |p| > |s| then None
    else if OccursAt(s, p, k) then Some(k)
    else IndexFrom(s, p, k + 1)
  }

  lemma {:induction false} IndexFromSpec(s: string, p: string, k: nat)
    requires |p| > 0 && k <= |s|
    ensures var r := IndexFrom(s, p, k);
      && (r.Some? ==> k <= r.value && OccursAt(s, p, r.value))
      && (r.Some? ==> forall j :: k <= j < r.value ==> !OccursAt(s, p, j))
      && (r.None? ==> forall j :: k <= j ==> !OccursAt(s, p, j))
    decreases |s| - k
  {
    if k + |p| <= |s| && !OccursAt(s, p, k) {
      IndexFromSpec(s, p, k + 1);
    }
  }

  /** Python `s.find(p)`, with `None` for `-1`. */
  function IndexOf(s: string, p: string): (r: Option<nat>)
    requires |p| > 0
    ensures r.None? <==> !Contains(s, p)
    ensures r.Some? ==> OccursAt(s, p, r.value)
    ensures r.Some? ==> forall j :: 0 <= j < r.value ==> !OccursAt(s, p, j)
  {
    IndexFromSpec(s, p, 0);
    IndexFrom(s, p, 0)
  }

  /** An occurrence inside a piece is an occurrence in the whole. */
  lemma OccursInside(a: string, b: string, c: string, p: string, j: int)
    requires OccursAt(b, p, j)
    ensures OccursAt(a + b + c, p, |a| + j)
  {
    assert (a + b + c)[|a| + j..|a| + j + |p|] == b[j..j + |p|];
  }

  /** The text before the first occurrence contains no occurrence. */
  lemma PrefixFree(s: string, p: string, i: nat)
    requires |p| > 0 && IndexOf(s, p) == Some(i)
    ensures !Contains(s[..i], p)
  {
    forall j | OccursAt(s[..i], p, j)
      ensures OccursAt(s, p, j) && j < i
    {
      assert s[..i][j..j + |p|] == s[j..j + |p|];
    }
  }

  /** Two texts free of `p` concatenate to a text free of `p` when no
      occurrence straddles the seam. */
  lemma ConcatFree(a: string, b: string, p: string)
    requires !Contains(a, p) && !Contains(b, p)
    requires forall j :: |a| - |p| < j < |a| ==> !OccursAt(a + b, p, j)
    ensures !Contains(a + b, p)
  {
    forall j | 0 <= j && j + |p| <= |a + b|
      ensures !OccursAt(a + b, p, j)
    {
      if j + |p| <= |a| {
        assert (a + b)[j..j + |p|] == a[j..j + |p|];
        assert !OccursAt(a, p, j);
      } else if j >= |a| {
        assert (a + b)[j..j + |p|] == b[j - |a|..j - |a| + |p|];
        assert !OccursAt(b, p, j - |a|);
      }
    }
  }

  // ---------------------------------------------------------------------
  // split / join / replace

  /** Python `sep.join(parts)`. */
  function Join(parts: seq<string>, sep: string): string {
    if |parts| == 0 then ""
    else if |parts| == 1 then parts[0]
    else parts[0] + sep + Join(parts[1..], sep)
  }

  /** Python `s.split(sep)` for a non-empty separator: the pieces between
      successive non-overlapping occurrences, scanning from the left. */
  function Split(s: string, sep: string): (parts: seq<string>)
    requires |sep| > 0
    ensures |parts| > 0
    ensures Join(parts, sep) == s
    ensures forall i :: 0 <= i < |parts| ==> !Contains(parts[i], sep)
  {
    PiecesJoin(s, sep);
    Pieces(s, sep)
  }

  /** A text without the separator splits into itself. */
  lemma SplitFree(s: string, sep: string)
    requires |sep| > 0 && !Contains(s, sep)
    ensures Split(s, sep) == [s]
  {
    PiecesWhole(s, sep);
  }

  /** The recursion behind `Split`, with only its shape in the contract so
      that proofs about it stay small. */
  function Pieces(s: string, sep: string): (parts: seq<string>)
    requires |sep| > 0
    ensures |parts| > 0
    decreases |s|
  {
    match IndexFrom(s, sep, 0)
    case None => [s]
    case Some(i) =>
      IndexFromSpec(s, sep, 0);
      [s[..i]] + Pieces(s[i + |sep|..], sep)
  }

  lemma {:induction false} PiecesJoin(s: string, sep: string)
    requires |sep| > 0
    ensures Join(Pieces(s, sep), sep) == s
    ensures forall i :: 0 <= i < |Pieces(s, sep)| ==> !Contains(Pieces(s, sep)[i], sep)
    decreases |s|
  {
    match IndexOf(s, sep)
    case None =>
    case Some(i) =>
      PrefixFree(s, sep, i);
      var rest := Pieces(s[i + |sep|..], sep);
      PiecesJoin(s[i + |sep|..], sep);
      var parts := [s[..i]] + rest;
      assert parts[1..] == rest;
      assert s == s[..i] + sep + s[i + |sep|..] by {
        assert s[i..i + |sep|] == sep;
      }
  }

  /** Python `s.split(sep, 1)` on a text that contains `sep`: what comes
      before the first occurrence, and everything after it. */
  function SplitOnce(s: string, sep: string): (r: (string, string))
    requires |sep| > 0 && Contains(s, sep)
    ensures r.0 + sep + r.1 == s
    ensures !Contains(r.0, sep)
  {
    var i := IndexOf(s, sep).value;
    PrefixFree(s, sep, i);
    assert s == s[..i] + sep + s[i + |sep|..] by {
      assert s[i..i + |sep|] == sep;
    }
    (s[..i], s[i + |sep|..])
  }

  /** With a border-free separator, `split(sep, 1)` recovers the two sides of
      a text glued around its first separator. */
  lemma SplitOnceOf(a: string, sep: string, b: string)
    requires |sep| > 0 && BorderFree(sep) && !Contains(a, sep)
    ensures Contains(a + sep + b, sep)
    ensures SplitOnce(a + sep + b, sep) == (a, b)
  {
    var s := a + sep + b;
    IndexOfAfter(a, sep, b);
    assert s[..|a|] == a;
    assert s[|a| + |sep|..] == b;
  }

  /** Python `s.replace(pat, repl)` for a non-empty pattern. What it does
      with a text free of `pat` and at the first occurrence is stated by
      `ReplaceAbsent` and `ReplaceFirst`. */
  function Replace(s: string, pat: string, repl: string): string
    requires |pat| > 0
    decreases |s|
  {
    match IndexFrom(s, pat, 0)
    case None => s
    case Some(i) =>
      IndexFromSpec(s, pat, 0);
      s[..i] + repl + Replace(s[i + |pat|..], pat, repl)
  }

  /** A text without the pattern is left as it is. */
  lemma ReplaceAbsent(s: string, pat: string, repl: string)
    requires |pat| > 0 && !Contains(s, pat)
    ensures Replace(s, pat, repl) == s
  {
    assert IndexOf(s, pat).None?;
  }

  /** The text up to the first occurrence is kept, the occurrence becomes
      `repl`, and the rest is replaced in turn. */
  lemma ReplaceFirst(s: string, pat: string, repl: string, i: nat)
    requires |pat| > 0 && IndexOf(s, pat) == Some(i)
    ensures Replace(s, pat, repl) == s[..i] + repl + Replace(s[i + |pat|..], pat, repl)
  {
    assert i + |pat| <= |s| by {
      assert OccursAt(s, pat, i);
    }
    ReplaceCons(s, pat, repl, i, s[i + |pat|..]);
  }

  lemma ReplaceCons(s: string, pat: string, repl: string, i: nat, rest: string)
    requires |pat| > 0 && IndexFrom(s, pat, 0) == Some(i)
    requires i + |pat| <= |s| && rest == s[i + |pat|..]
    ensures Replace(s, pat, repl) == s[..i] + repl + Replace(rest, pat, repl)
  {
  }

  /** `replace` is `split` followed by `join` (the two agree on every text). */
  lemma ReplaceIsSplitJoin(s: string, pat: string, repl: string)
    requires |pat| > 0
    ensures Replace(s, pat, repl) == Join(Split(s, pat), repl)
  {
    ReplaceIsPiecesJoin(s, pat, repl);
  }

  lemma {:induction false} ReplaceIsPiecesJoin(s: string, pat: string, repl: string)
    requires |pat| > 0
    ensures Replace(s, pat, repl) == Join(Pieces(s, pat), repl)
    decreases |s|
  {
    if IndexOf(s, pat).None? {
      PiecesWhole(s, pat);
      ReplaceAbsent(s, pat, repl);
    } else {
      var rest := ReplaceStep(s, pat, repl);
      ReplaceIsPiecesJoin(rest, pat, repl);
    }
  }

  /** One occurrence of `replace` and of `split` followed by `join`. */
  lemma ReplaceStep(s: string, pat: string, repl: string) returns (rest: string)
    requires |pat| > 0 && IndexOf(s, pat).Some?
    ensures |rest| < |s|
    ensures Replace(s, pat, repl) == s[..IndexOf(s, pat).value] + repl + Replace(rest, pat, repl)
    ensures Join(Pieces(s, pat), repl) == s[..IndexOf(s, pat).value] + repl + Join(Pieces(rest, pat), repl)
  {
    var i := IndexOf(s, pat).value;
    assert i + |pat| <= |s| by {
      assert OccursAt(s, pat, i);
    }
    rest := s[i + |pat|..];
    ReplaceFirst(s, pat, repl, i);
    JoinPiecesFirst(s, pat, repl, i, rest);
  }

  lemma JoinPiecesFirst(s: string, pat: string, repl: string, i: nat, rest: string)
    requires |pat| > 0 && IndexOf(s, pat) == Some(i)
    requires i + |pat| <= |s| && rest == s[i + |pat|..]
    ensures Join(Pieces(s, pat), repl) == s[..i] + repl + Join(Pieces(rest, pat), repl)
  {
    PiecesCons(s, pat, i, s[..i], rest);
    ConsParts(s[..i], Pieces(rest, pat));
  }

  /** No proper prefix of `sep` is also a suffix of it, so two occurrences of
      `sep` can never overlap. */
  predicate BorderFree(sep: string) {
    forall k :: 0 < k < |sep| ==> sep[k..] != sep[..|sep| - k]
  }

  lemma StraddleIsBorder(a: string, sep: string, rest: string, j: int)
    requires |a| - |sep| < j < |a|
    ensures OccursAt(a + sep + rest, sep, j) ==> sep[|a| - j..] == sep[..|sep| - (|a| - j)]
  {
    var s := a + sep + rest;
    var k := |a| - j;
    if OccursAt(s, sep, j) {
      forall m | 0 <= m < |sep| - k
        ensures sep[k..][m] == sep[..|sep| - k][m]
      {
        assert s[j..j + |sep|][k + m] == sep[k + m];
        assert s[|a| + m] == sep[m];
      }
    }
  }

  /** With a border-free separator, the first separator after a text free of
      it is found right at the end of that text. */
  lemma IndexOfAfter(a: string, sep: string, rest: string)
    requires |sep| > 0 && BorderFree(sep) && !Contains(a, sep)
    ensures IndexOf(a + sep + rest, sep) == Some(|a|)
  {
    var s := a + sep + rest;
    assert OccursAt(s, sep, |a|) by {
      assert s[|a|..|a| + |sep|] == sep;
    }
    forall j | 0 <= j < |a|
      ensures !OccursAt(s, sep, j)
    {
      if j + |sep| <= |a| {
        assert s[j..j + |sep|] == a[j..j + |sep|];
        assert !OccursAt(a, sep, j);
      } else {
        StraddleIsBorder(a, sep, rest, j);
      }
    }
  }

  /** Splitting a join gives back the pieces, when no piece holds the
      separator. */
  lemma SplitJoin(parts: seq<string>, sep: string)
    requires |sep| > 0 && BorderFree(sep) && |parts| > 0
    requires forall i :: 0 <= i < |parts| ==> !Contains(parts[i], sep)
    ensures Split(Join(parts, sep), sep) == parts
  {
    PiecesOfJoin(parts, sep);
  }

  lemma {:induction false} PiecesOfJoin(parts: seq<string>, sep: string)
    requires |sep| > 0 && BorderFree(sep) && |parts| > 0
    requires forall i :: 0 <= i < |parts| ==> !Contains(parts[i], sep)
    ensures Pieces(Join(parts, sep), sep) == parts
    decreases |parts|
  {
    if |parts| > 1 {
      var p := parts[0];
      var tail := Join(parts[1..], sep);
      IndexOfAfter(p, sep, tail);
      PiecesFirst(p + sep + tail, sep, |p|);
      GlueSlices(p, sep, tail);
      PiecesOfJoin(parts[1..], sep);
      assert parts == [p] + parts[1..];
    } else {
      PiecesWhole(parts[0], sep);
    }
  }

  /** Joining two non-empty runs of pieces puts one separator between them. */
  lemma {:induction false} JoinAppend(xs: seq<string>, ys: seq<string>, sep: string)
    requires |xs| > 0 && |ys| > 0
    ensures Join(xs + ys, sep) == Join(xs, sep) + sep + Join(ys, sep)
    decreases |xs|
  {
    assert (xs + ys)[0] == xs[0];
    if |xs| > 1 {
      assert (xs + ys)[1..] == xs[1..] + ys;
      JoinAppend(xs[1..], ys, sep);
    } else {
      assert (xs + ys)[1..] == ys;
    }
  }

  /** Text added after the last piece lands at the end of the join. */
  lemma JoinAppendLast(parts: seq<string>, sep: string, t: string)
    requires |parts| > 0
    ensures Join(parts[..|parts| - 1] + [parts[|parts| - 1] + t], sep) == Join(parts, sep) + t
  {
    var n := |parts|;
    if n > 1 {
      var init := parts[..n - 1];
      assert parts == init + [parts[n - 1]];
      JoinAppend(init, [parts[n - 1]], sep);
      JoinAppend(init, [parts[n - 1] + t], sep);
    }
  }

  /** A newline put after a text free of `p` creates no `p`, unless `p`
      itself ends with a newline. */
  lemma NewlineKeepsFree(x: string, p: string)
    requires |p| > 0 && p[|p| - 1] != '\n' && !Contains(x, p)
    ensures !Contains(x + "\n", p)
  {
    forall j | 0 <= j <= |x + "\n"| - |p|
      ensures !OccursAt(x + "\n", p, j)
    {
      if j + |p| <= |x| {
        assert (x + "\n")[j..j + |p|] == x[j..j + |p|];
        assert !OccursAt(x, p, j);
      } else {
        WindowChar(x + "\n", p, j, |p| - 1);
        assert (x + "\n")[j + |p| - 1] == '\n';
      }
    }
  }

  /** A text found in one piece is found in the join. */
  lemma {:induction false} JoinContains(parts: seq<string>, sep: string, i: int, p: string)
    requires 0 <= i < |parts|
    ensures Contains(parts[i], p) ==> Contains(Join(parts, sep), p)
    decreases |parts|
  {
    if |parts| > 1 && Contains(parts[i], p) {
      var tail := Join(parts[1..], sep);
      if i == 0 {
        var j :| 0 <= j <= |parts[0]| - |p| && OccursAt(parts[0], p, j);
        OccursInside("", parts[0], sep + tail, p, j);
        assert "" + parts[0] + (sep + tail) == parts[0] + sep + tail;
      } else {
        JoinContains(parts[1..], sep, i - 1, p);
        var j :| 0 <= j <= |tail| - |p| && OccursAt(tail, p, j);
        OccursInside(parts[0] + sep, tail, "", p, j);
        assert parts[0] + sep + tail + "" == parts[0] + sep + tail;
      }
    }
  }

  /** An infix of a text free of `p` is free of `p`. */
  lemma InfixFree(s: string, i: int, j: int, p: string)
    requires 0 <= i <= j <= |s|
    ensures Contains(s[i..j], p) ==> Contains(s, p)
  {
    if Contains(s[i..j], p) {
      var t := s[i..j];
      var k :| 0 <= k <= |t| - |p| && OccursAt(t, p, k);
      var w := t[k..k + |p|];
      assert forall m :: 0 <= m < |p| ==> w[m] == s[i + k + m];
      assert w == s[i + k..i + k + |p|];
      assert OccursAt(s, p, i + k);
    }
  }

  /** Within an occurrence, each position holds the matching character. */
  lemma WindowChar(s: string, p: string, j: int, m: int)
    requires 0 <= m < |p|
    ensures OccursAt(s, p, j) ==> s[j + m] == p[m]
  {
    if OccursAt(s, p, j) {
      assert s[j..j + |p|][m] == p[m];
    }
  }

  /** Occurrences behind a prefix are the occurrences in the rest, shifted. */
  lemma ShiftOccurrence(a: string, v: string, p: string, j: int)
    requires 0 <= j
    ensures OccursAt(a + v, p, |a| + j) == OccursAt(v, p, j)
  {
    if 0 <= j && j + |p| <= |v| {
      assert (a + v)[|a| + j..|a| + j + |p|] == v[j..j + |p|];
    }
  }

  /** Appending text keeps the first occurrence where it was. */
  lemma FirstOccurrenceKept(a: string, b: string, p: string, i: nat)
    requires |p| > 0 && IndexOf(a, p) == Some(i)
    ensures IndexOf(a + b, p) == Some(i)
  {
    var s := a + b;
    assert s[i..i + |p|] == a[i..i + |p|];
    assert OccursAt(s, p, i);
    forall j | 0 <= j < i
      ensures !OccursAt(s, p, j)
    {
      assert s[j..j + |p|] == a[j..j + |p|];
      assert !OccursAt(a, p, j);
    }
  }

  /** One step of `split`: the piece before the first separator, then the
      split of the rest. */
  lemma PiecesFirst(s: string, sep: string, i: nat)
    requires |sep| > 0 && IndexOf(s, sep) == Some(i)
    ensures Pieces(s, sep) == [s[..i]] + Pieces(s[i + |sep|..], sep)
  {
  }

  /** `PiecesFirst` with the two sides named, so that callers can supply
      them without slicing a concatenation next to `Pieces`. */
  lemma PiecesCons(s: string, sep: string, k: nat, head: string, rest: string)
    requires |sep| > 0 && IndexOf(s, sep) == Some(k)
    requires k + |sep| <= |s| && s[..k] == head && s[k + |sep|..] == rest
    ensures Pieces(s, sep) == [head] + Pieces(rest, sep)
  {
    PiecesFirst(s, sep, k);
  }

  lemma PiecesWhole(s: string, sep: string)
    requires |sep| > 0 && IndexOf(s, sep).None?
    ensures Pieces(s, sep) == [s]
  {
  }

  /** The two sides of `a + m + b` read back by slicing. */
  lemma GlueSlices(a: string, m: string, b: string)
    ensures (a + m + b)[..|a|] == a && (a + m + b)[|a| + |m|..] == b
  {
  }

  /** Slicing `a + sep + b` at an occurrence of `sep` inside `a`. */
  lemma InnerSlices(a: string, sep: string, b: string, i: nat)
    requires i + |sep| <= |a|
    ensures (a + sep + b)[..i] == a[..i]
    ensures (a + sep + b)[i + |sep|..] == a[i + |sep|..] + sep + b
    ensures a + sep + b == a + (sep + b)
  {
  }

  /** Splitting around a separator splits each side on its own (the
      separator cannot overlap itself). */
  lemma SplitAround(a: string, sep: string, b: string)
    requires |sep| > 0 && BorderFree(sep)
    ensures Split(a + sep + b, sep) == Split(a, sep) + Split(b, sep)
  {
    PiecesAround(a, sep, b);
  }

  lemma {:induction false} PiecesAround(a: string, sep: string, b: string)
    requires |sep| > 0 && BorderFree(sep)
    ensures Pieces(a + sep + b, sep) == Pieces(a, sep) + Pieces(b, sep)
    decreases |a|
  {
    if IndexOf(a, sep).None? {
      PiecesAroundFree(a, sep, b);
    } else {
      var i := IndexOf(a, sep).value;
      var rest := PiecesAroundStep(a, sep, b, i);
      PiecesAround(rest, sep, b);
      assert [a[..i]] + (Pieces(rest, sep) + Pieces(b, sep)) == ([a[..i]] + Pieces(rest, sep)) + Pieces(b, sep);
    }
  }

  /** `PiecesAround` when `a` holds no separator. */
  lemma PiecesAroundFree(a: string, sep: string, b: string)
    requires |sep| > 0 && BorderFree(sep) && IndexOf(a, sep).None?
    ensures Pieces(a + sep + b, sep) == Pieces(a, sep) + Pieces(b, sep)
  {
    IndexOfAfter(a, sep, b);
    GlueSlices(a, sep, b);
    PiecesCons(a + sep + b, sep, |a|, a, b);
    PiecesWhole(a, sep);
  }

  /** `PiecesAround` when `a` holds a separator: both splits start with the
      same piece and go on with what follows it. */
  lemma PiecesAroundStep(a: string, sep: string, b: string, i: nat) returns (rest: string)
    requires |sep| > 0 && IndexOf(a, sep) == Some(i)
    ensures |rest| < |a|
    ensures Pieces(a + sep + b, sep) == [a[..i]] + Pieces(rest + sep + b, sep)
    ensures Pieces(a, sep) == [a[..i]] + Pieces(rest, sep)
  {
    assert i + |sep| <= |a| by {
      assert OccursAt(a, sep, i);
    }
    rest := a[i + |sep|..];
    InnerSlices(a, sep, b, i);
    FirstOccurrenceKept(a, sep + b, sep, i);
    PiecesCons(a + sep + b, sep, i, a[..i], rest + sep + b);
    PiecesCons(a, sep, i, a[..i], rest);
  }

  /** Behind a prefix that starts no occurrence, the first occurrence is the
      first occurrence in the rest, shifted. */
  lemma IndexBehind(p: string, v: string, sep: string)
    requires |sep| > 0
    requires forall j :: 0 <= j < |p| ==> !OccursAt(p + v, sep, j)
    ensures IndexOf(v, sep).None? ==> IndexOf(p + v, sep).None?
    ensures IndexOf(v, sep).Some? ==> IndexOf(p + v, sep) == Some(|p| + IndexOf(v, sep).value)
  {
    var s := p + v;
    match IndexOf(v, sep)
    case None =>
      forall j | 0 <= j
        ensures !OccursAt(s, sep, j)
      {
        if j >= |p| {
          ShiftOccurrence(p, v, sep, j - |p|);
        }
      }
    case Some(i) =>
      ShiftOccurrence(p, v, sep, i);
      forall j | |p| <= j < |p| + i
        ensures !OccursAt(s, sep, j)
      {
        ShiftOccurrence(p, v, sep, j - |p|);
      }
  }

  /** Splitting a text behind a prefix that starts no separator: the prefix
      is glued to the first piece. */
  lemma SplitBehind(p: string, v: string, sep: string)
    requires |sep| > 0
    requires forall j :: 0 <= j < |p| ==> !OccursAt(p + v, sep, j)
    ensures Split(p + v, sep) == [p + Split(v, sep)[0]] + Split(v, sep)[1..]
  {
    IndexBehind(p, v, sep);
    PiecesShifted(p, v, sep);
  }

  lemma PiecesShifted(p: string, v: string, sep: string)
    requires |sep| > 0
    requires IndexOf(v, sep).None? ==> IndexOf(p + v, sep).None?
    requires IndexOf(v, sep).Some? ==> IndexOf(p + v, sep) == Some(|p| + IndexOf(v, sep).value)
    ensures Pieces(p + v, sep) == [p + Pieces(v, sep)[0]] + Pieces(v, sep)[1..]
  {
    if IndexOf(v, sep).None? {
      PiecesShiftedWhole(p, v, sep);
    } else {
      PiecesShiftedFirst(p, v, sep, IndexOf(v, sep).value);
    }
  }

  lemma PiecesShiftedWhole(p: string, v: string, sep: string)
    requires |sep| > 0
    requires IndexOf(v, sep).None? && IndexOf(p + v, sep).None?
    ensures Pieces(p + v, sep) == [p + Pieces(v, sep)[0]] + Pieces(v, sep)[1..]
  {
    PiecesWhole(v, sep);
    PiecesWhole(p + v, sep);
    assert [v][1..] == [];
  }

  lemma PiecesShiftedFirst(p: string, v: string, sep: string, i: nat)
    requires |sep| > 0
    requires IndexOf(v, sep) == Some(i) && IndexOf(p + v, sep) == Some(|p| + i)
    ensures Pieces(p + v, sep) == [p + Pieces(v, sep)[0]] + Pieces(v, sep)[1..]
  {
    var j := i + |sep|;
    assert j <= |v| by {
      assert OccursAt(v, sep, i);
    }
    var rest := v[j..];
    ShiftedSlices(p, v, i, j);
    PiecesCons(p + v, sep, |p| + i, p + v[..i], rest);
    PiecesCons(v, sep, i, v[..i], rest);
    ConsParts(v[..i], Pieces(rest, sep));
  }

  lemma ConsParts<T>(x: T, rest: seq<T>)
    ensures ([x] + rest)[0] == x && ([x] + rest)[1..] == rest
  {
  }

  lemma ShiftedSlices(p: string, v: string, i: nat, j: nat)
    requires i <= j <= |v|
    ensures (p + v)[..|p| + i] == p + v[..i]
    ensures (p + v)[|p| + j..] == v[j..]
  {
  }
}
