/** Strings as the site's scripts see them: whitespace classes of JavaScript
    and Python, trimming, splitting and joining, substring search, and the
    two small regular expressions the metadata parsers share.  A string is a
    sequence of characters; one `char` stands for one UTF-16 code unit
    (JavaScript) or one code point (Python), which agree on BMP text. */
module Text {

  datatype Option<+T> = None | Some(value: T) {
    function GetOr(default: T): T {
      match this
      case Some(v) => v
      case None => default
    }
  }

  // ---------------------------------------------------------------------
  // Character classes
  // ---------------------------------------------------------------------

  /** `\s` in a JavaScript regular expression and what `trim` removes:
      ECMAScript WhiteSpace and LineTerminator code points. */
  predicate IsJsSpace(c: char) {
    c == '\t' || c == '\n' || c == '\U{B}' || c == '\U{C}' || c == '\r' || c == ' '
    || c == '\U{A0}' || c == '\U{1680}' || ('\U{2000}' <= c <= '\U{200A}')
    || c == '\U{2028}' || c == '\U{2029}' || c == '\U{202F}' || c == '\U{205F}'
    || c == '\U{3000}' || c == '\U{FEFF}'
  }

  /** The characters `.` does not match in a JavaScript regular expression. */
  predicate IsJsLineTerminator(c: char) {
    c == '\n' || c == '\r' || c == '\U{2028}' || c == '\U{2029}'
  }

  /** `\s` in a Python `str` regular expression and what `str.strip()` removes
      (`str.isspace`). */
  predicate IsPySpace(c: char) {
    ('\t' <= c <= '\r') || ('\U{1C}' <= c <= '\U{1F}') || c == ' '
    || c == '\U{85}' || c == '\U{A0}' || c == '\U{1680}' || ('\U{2000}' <= c <= '\U{200A}')
    || c == '\U{2028}' || c == '\U{2029}' || c == '\U{202F}' || c == '\U{205F}'
    || c == '\U{3000}'
  }

  /** The one character `.` does not match in a Python regular expression. */
  predicate IsNewline(c: char) {
    c == '\n'
  }

  predicate AllOf(s: string, p: char -> bool) {
    forall i | 0 <= i < |s| :: p(s[i])
  }

  predicate NoneOf(s: string, p: char -> bool) {
    forall i | 0 <= i < |s| :: !p(s[i])
  }

  // ---------------------------------------------------------------------
  // Trimming
  // ---------------------------------------------------------------------

  /** Length of the longest prefix of `s` made of `ws` characters. */
  function LeadingRun(s: string, ws: char -> bool): (k: nat)
    ensures k <= |s|
    ensures forall i | 0 <= i < k :: ws(s[i])
    ensures k < |s| ==> !ws(s[k])
    decreases |s|
  {
    if s == [] || !ws(s[0]) then 0 else 1 + LeadingRun(s[1..], ws)
  }

  /** Start of the longest suffix of `s` made of `ws` characters. */
  function TrailingStart(s: string, ws: char -> bool): (k: nat)
    ensures k <= |s|
    ensures forall i | k <= i < |s| :: ws(s[i])
    ensures 0 < k ==> !ws(s[k - 1])
    decreases |s|
  {
    if s == [] || !ws(s[|s| - 1]) then |s| else TrailingStart(s[..|s| - 1], ws)
  }

  /** End of what `Trim` keeps: `TrailingStart`, or `LeadingRun` when all is whitespace. */
  function TrimTo(s: string, ws: char -> bool): (e: nat)
    ensures LeadingRun(s, ws) <= e <= |s|
    ensures forall i | e <= i < |s| :: ws(s[i])
    ensures LeadingRun(s, ws) < e ==> !ws(s[e - 1])
  {
    var a := LeadingRun(s, ws);
    if a == |s| then a else TrailingStart(s, ws)
  }

  /** `trimEnd`, and `replace(/\s+$/, '')`. */
  function TrimEnd(s: string, ws: char -> bool): string {
    s[..TrailingStart(s, ws)]
  }

  /** `TrimEnd` keeps a prefix that does not end in whitespace and drops
      only whitespace. */
  lemma TrimEndParts(s: string, ws: char -> bool)
    ensures var kept := TrimEnd(s, ws);
            && |kept| <= |s| && kept == s[..|kept|]
            && (kept == [] || !ws(kept[|kept| - 1]))
            && AllOf(s[|kept|..], ws)
  {
    var k := TrailingStart(s, ws);
    forall i | 0 <= i < |s| - k ensures ws(s[k..][i]) {
      assert s[k..][i] == s[k + i];
    }
  }

  /** `trim()` (JavaScript, with `IsJsSpace`) and `strip()` (Python, with `IsPySpace`). */
  function Trim(s: string, ws: char -> bool): (r: string)
    ensures r == [] || (!ws(r[0]) && !ws(r[|r| - 1]))
    ensures r == [] <==> AllOf(s, ws)
  {
    s[LeadingRun(s, ws)..TrimTo(s, ws)]
  }

  /** What `Trim` drops is whitespace on both sides of the slice it keeps. */
  lemma TrimSlice(s: string, ws: char -> bool)
    ensures Trim(s, ws) == s[LeadingRun(s, ws)..TrimTo(s, ws)]
    ensures AllOf(s[..LeadingRun(s, ws)], ws)
    ensures AllOf(s[TrimTo(s, ws)..], ws)
    ensures s == s[..LeadingRun(s, ws)] + Trim(s, ws) + s[TrimTo(s, ws)..]
  {
    var a, e := LeadingRun(s, ws), TrimTo(s, ws);
    assert AllOf(s[..a], ws) by {
      forall i | 0 <= i < a ensures ws(s[..a][i]) {
        assert s[..a][i] == s[i];
      }
    }
    assert AllOf(s[e..], ws) by {
      forall i | 0 <= i < |s| - e ensures ws(s[e..][i]) {
        assert s[e..][i] == s[e + i];
      }
    }
    assert s[..a] + s[a..e] == s[..e];
    assert s[..e] + s[e..] == s;
  }

  lemma TrimOfClean(s: string, ws: char -> bool)
    requires s == [] || (!ws(s[0]) && !ws(s[|s| - 1]))
    ensures Trim(s, ws) == s
  {
  }

  // ---------------------------------------------------------------------
  // Whitespace runs
  // ---------------------------------------------------------------------

  /** The characters of `s` that are not `ws`, in order. */
  function Visible(s: string, ws: char -> bool): string
    decreases |s|
  {
    if s == [] then [] else (if ws(s[0]) then [] else [s[0]]) + Visible(s[1..], ws)
  }

  lemma {:induction false} VisibleAppend(a: string, b: string, ws: char -> bool)
    ensures Visible(a + b, ws) == Visible(a, ws) + Visible(b, ws)
    decreases |a|
  {
    if a != [] {
      var c := a + b;
      assert c[0] == a[0];
      assert c[1..] == a[1..] + b;
      VisibleAppend(a[1..], b, ws);
      calc {
        Visible(c, ws);
        (if ws(c[0]) then [] else [c[0]]) + Visible(c[1..], ws);
        (if ws(a[0]) then [] else [a[0]]) + (Visible(a[1..], ws) + Visible(b, ws));
      }
    } else {
      assert a + b == b;
    }
  }

  lemma {:induction false} VisibleOfSpaces(s: string, ws: char -> bool)
    requires AllOf(s, ws)
    ensures Visible(s, ws) == []
    decreases |s|
  {
    if s != [] {
      VisibleOfSpaces(s[1..], ws);
    }
  }

  predicate NoDoubleSpace(s: string, ws: char -> bool) {
    forall i | 0 <= i < |s| - 1 :: !(ws(s[i]) && ws(s[i + 1]))
  }

  predicate SpacesAreBlanks(s: string, ws: char -> bool) {
    forall i | 0 <= i < |s| :: ws(s[i]) ==> s[i] == ' '
  }

  /** `replace(/\s+/g, ' ')` / `re.sub(r'\s+', ' ', s)`: every maximal run of
      `ws` characters becomes one blank; everything else is kept in order. */
  function CollapseRuns(s: string, ws: char -> bool): (r: string)
    requires ws(' ')
    ensures r == [] <==> s == []
    ensures r != [] ==> (ws(r[0]) <==> ws(s[0]))
    ensures NoDoubleSpace(r, ws)
    ensures SpacesAreBlanks(r, ws)
    ensures Visible(r, ws) == Visible(s, ws)
    decreases |s|
  {
    if s == [] then []
    else if ws(s[0]) then
      var k := LeadingRun(s, ws);
      var rest := CollapseRuns(s[k..], ws);
      VisibleOfSpaces(s[..k], ws);
      assert s == s[..k] + s[k..];
      VisibleAppend(s[..k], s[k..], ws);
      VisibleAppend(" ", rest, ws);
      " " + rest
    else
      var rest := CollapseRuns(s[1..], ws);
      VisibleAppend([s[0]], rest, ws);
      [s[0]] + rest
  }

  /** Collapse whitespace runs, then trim: the cleaning step of the excerpt generators. */
  function Squeeze(s: string, ws: char -> bool): (r: string)
    requires ws(' ')
    ensures r == [] || (!ws(r[0]) && !ws(r[|r| - 1]))
    ensures NoDoubleSpace(r, ws)
    ensures SpacesAreBlanks(r, ws)
    ensures Visible(r, ws) == Visible(s, ws)
  {
    var c := CollapseRuns(s, ws);
    TrimKeeps(c, ws);
    Trim(c, ws)
  }

  /** Trimming drops only whitespace and keeps a contiguous slice. */
  lemma TrimKeeps(c: string, ws: char -> bool)
    ensures Visible(Trim(c, ws), ws) == Visible(c, ws)
    ensures NoDoubleSpace(c, ws) ==> NoDoubleSpace(Trim(c, ws), ws)
    ensures SpacesAreBlanks(c, ws) ==> SpacesAreBlanks(Trim(c, ws), ws)
  {
    var r := Trim(c, ws);
    var a, e := LeadingRun(c, ws), TrimTo(c, ws);
    TrimSlice(c, ws);
    assert Visible(r, ws) == Visible(c, ws) by {
      VisibleOfSpaces(c[..a], ws);
      VisibleOfSpaces(c[e..], ws);
      VisibleAppend(c[..a], r, ws);
      VisibleAppend(c[..a] + r, c[e..], ws);
    }
    SliceKeepsSpacing(c, a, e, ws);
  }

  /** A slice of text without double or non-blank whitespace has none either. */
  lemma SliceKeepsSpacing(c: string, a: nat, e: nat, ws: char -> bool)
    requires a <= e <= |c|
    ensures NoDoubleSpace(c, ws) ==> NoDoubleSpace(c[a..e], ws)
    ensures SpacesAreBlanks(c, ws) ==> SpacesAreBlanks(c[a..e], ws)
  {
    assert forall i | 0 <= i < e - a :: c[a..e][i] == c[a + i];
  }

  // ---------------------------------------------------------------------
  // Searching
  // ---------------------------------------------------------------------

  predicate HasAt(s: string, pat: string, i: nat) {
    i + |pat| <= |s| && s[i..i + |pat|] == pat
  }

  predicate StartsWith(s: string, prefix: string) {
    HasAt(s, prefix, 0)
  }

  predicate EndsWith(s: string, suffix: string) {
    |suffix| <= |s| && s[|s| - |suffix|..] == suffix
  }

  /** `s.includes(pat)` / `pat in s`. */
  predicate Contains(s: string, pat: string) {
    exists k: nat | k <= |s| :: HasAt(s, pat, k)
  }

  /** `s.indexOf(pat, from)`: the first occurrence at or after `from`, or -1. */
  function IndexOf(s: string, pat: string, from: nat): (r: int)
    ensures r == -1 || (from <= r && HasAt(s, pat, r))
    ensures forall k: nat | from <= k && (r == -1 || k < r) :: !HasAt(s, pat, k)
    decreases |s| - from
  {
    if from + |pat| > |s| then -1
    else if HasAt(s, pat, from) then from
    else IndexOf(s, pat, from + 1)
  }

  /** Index of the first character of `s` in `seps`, or -1. */
  function FindAny(s: string, seps: set<char>): (i: int)
    ensures -1 <= i < |s|
    ensures 0 <= i ==> s[i] in seps
    ensures forall k | 0 <= k < |s| && (i < 0 || k < i) :: s[k] !in seps
    decreases |s|
  {
    if s == [] then -1
    else if s[0] in seps then 0
    else
      var j := FindAny(s[1..], seps);
      if j < 0 then -1 else j + 1
  }

  // ---------------------------------------------------------------------
  // Splitting and joining
  // ---------------------------------------------------------------------

  /** `s.split(c)` (JavaScript, Python), or `s.split(/[ab]/)` for `seps == {a, b}`:
      the pieces between separators, at least one. */
  function Split(s: string, seps: set<char>): (parts: seq<string>)
    ensures |parts| >= 1
    ensures forall k, j | 0 <= k < |parts| && 0 <= j < |parts[k]| :: parts[k][j] !in seps
    decreases |s|
  {
    var i := FindAny(s, seps);
    if i < 0 then [s] else [s[..i]] + Split(s[i + 1..], seps)
  }

  /** `parts.join(sep)` / `sep.join(parts)`. */
  function Join(parts: seq<string>, sep: string): string
    decreases |parts|
  {
    if parts == [] then ""
    else if |parts| == 1 then parts[0]
    else parts[0] + sep + Join(parts[1..], sep)
  }

  /** Splitting on one character and joining with it gives the text back. */
  lemma {:induction false} JoinSplit(s: string, c: char)
    ensures Join(Split(s, {c}), [c]) == s
    decreases |s|
  {
    var i := FindAny(s, {c});
    if 0 <= i {
      var rest := Split(s[i + 1..], {c});
      JoinSplit(s[i + 1..], c);
      assert Split(s, {c}) == [s[..i]] + rest;
      JoinCons(s[..i], rest, [c]);
      assert s == s[..i] + [s[i]] + s[i + 1..];
    }
  }

  lemma JoinCons(p: string, rest: seq<string>, sep: string)
    requires |rest| >= 1
    ensures Join([p] + rest, sep) == p + sep + Join(rest, sep)
  {
    assert ([p] + rest)[1..] == rest;
  }

  /** Joining pieces free of the separator and splitting again gives the pieces back. */
  lemma {:induction false} SplitJoin(parts: seq<string>, c: char)
    requires |parts| >= 1
    requires forall k, j | 0 <= k < |parts| && 0 <= j < |parts[k]| :: parts[k][j] != c
    ensures Split(Join(parts, [c]), {c}) == parts
    decreases |parts|
  {
    var p := parts[0];
    assert forall j | 0 <= j < |p| :: p[j] !in {c};
    if |parts| == 1 {
      assert FindAny(p, {c}) == -1;
    } else {
      SplitCons(p, c, Join(parts[1..], [c]));
      assert forall k, j | 0 <= k < |parts[1..]| && 0 <= j < |parts[1..][k]| :: parts[1..][k][j] == parts[k + 1][j];
      SplitJoin(parts[1..], c);
      assert parts == [p] + parts[1..];
    }
  }

  /** A separator-free piece, the separator, then the rest: the piece
      comes off first. */
  lemma SplitCons(p: string, c: char, tail: string)
    requires forall j | 0 <= j < |p| :: p[j] != c
    ensures Split(p + [c] + tail, {c}) == [p] + Split(tail, {c})
  {
    var s := p + [c] + tail;
    assert s[|p|] == c;
    assert forall k | 0 <= k < |p| :: s[k] == p[k];
    assert FindAny(s, {c}) == |p|;
    assert s[..|p|] == p;
    assert s[|p| + 1..] == tail;
  }

  // ---------------------------------------------------------------------
  // Replacing
  // ---------------------------------------------------------------------

  /** `s.replace(pat, rep)` in Python (every occurrence, left to right, not overlapping). */
  function ReplaceAll(s: string, pat: string, rep: string): string
    requires pat != []
    decreases |s|
  {
    if |s| < |pat| then s
    else if s[..|pat|] == pat then rep + ReplaceAll(s[|pat|..], pat, rep)
    else [s[0]] + ReplaceAll(s[1..], pat, rep)
  }

  lemma {:induction false} ReplaceAllAbsent(s: string, pat: string, rep: string)
    requires pat != []
    requires !Contains(s, pat)
    ensures ReplaceAll(s, pat, rep) == s
    decreases |s|
  {
    if |s| >= |pat| {
      assert !HasAt(s, pat, 0);
      assert !Contains(s[1..], pat) by {
        forall k: nat | k <= |s[1..]|
          ensures !HasAt(s[1..], pat, k)
        {
          assert !HasAt(s, pat, k + 1);
          if k + |pat| <= |s[1..]| {
            assert s[1..][k..k + |pat|] == s[k + 1..k + 1 + |pat|];
          }
        }
      }
      ReplaceAllAbsent(s[1..], pat, rep);
    }
  }

  // ---------------------------------------------------------------------
  // Ordering
  // ---------------------------------------------------------------------

  /** String comparison of JavaScript's default `sort` and of Python's `<=` on `str`:
      lexicographic by character, a proper prefix first. */
  predicate LexLessEq(a: string, b: string)
    decreases |a|
  {
    a == [] || (b != [] && (a[0] < b[0] || (a[0] == b[0] && LexLessEq(a[1..], b[1..]))))
  }

  lemma {:induction false} LexTotal(a: string, b: string)
    ensures LexLessEq(a, b) || LexLessEq(b, a)
    decreases |a|
  {
    if a != [] && b != [] && a[0] == b[0] {
      LexTotal(a[1..], b[1..]);
    }
  }

  lemma {:induction false} LexTransitive(a: string, b: string, c: string)
    requires LexLessEq(a, b) && LexLessEq(b, c)
    ensures LexLessEq(a, c)
    decreases |a|
  {
    if a != [] && a[0] == b[0] && b[0] == c[0] {
      LexTransitive(a[1..], b[1..], c[1..]);
    }
  }

  lemma {:induction false} LexAntisymmetric(a: string, b: string)
    requires LexLessEq(a, b) && LexLessEq(b, a)
    ensures a == b
    decreases |a|
  {
    if a != [] {
      LexAntisymmetric(a[1..], b[1..]);
      assert a == [a[0]] + a[1..] && b == [b[0]] + b[1..];
    }
  }

  predicate SortedAsc(xs: seq<string>) {
    forall i, j | 0 <= i < j < |xs| :: LexLessEq(xs[i], xs[j])
  }

  function InsertAsc(x: string, xs: seq<string>): (r: seq<string>)
    requires SortedAsc(xs)
    ensures SortedAsc(r)
    ensures multiset(r) == multiset(xs) + multiset{x}
    decreases |xs|
  {
    if xs == [] then [x]
    else if LexLessEq(x, xs[0]) then
      forall j | 0 < j < |xs| ensures LexLessEq(x, xs[j]) {
        LexTransitive(x, xs[0], xs[j]);
      }
      ConsSorted(x, xs);
      [x] + xs
    else
      LexTotal(x, xs[0]);
      var rest := InsertAsc(x, xs[1..]);
      StaysAbove(xs[0], x, xs[1..], rest);
      ConsSorted(xs[0], rest);
      assert xs == [xs[0]] + xs[1..];
      [xs[0]] + rest
  }

  /** A list holding `x` and the elements of `xs`, all at least `lo`, has
      only elements at least `lo`. */
  lemma StaysAbove(lo: string, x: string, xs: seq<string>, r: seq<string>)
    requires LexLessEq(lo, x) && forall k | 0 <= k < |xs| :: LexLessEq(lo, xs[k])
    requires multiset(r) == multiset(xs) + multiset{x}
    ensures forall j | 0 <= j < |r| :: LexLessEq(lo, r[j])
  {
    forall j | 0 <= j < |r| ensures LexLessEq(lo, r[j]) {
      assert r[j] in multiset(r);
      if r[j] != x {
        assert r[j] in multiset(xs);
        var k :| 0 <= k < |xs| && xs[k] == r[j];
      }
    }
  }

  /** An ascending list stays ascending behind an element no greater than
      any of it. */
  lemma ConsSorted(h: string, xs: seq<string>)
    requires SortedAsc(xs) && forall j | 0 <= j < |xs| :: LexLessEq(h, xs[j])
    ensures SortedAsc([h] + xs)
  {
    var r := [h] + xs;
    forall i, j | 0 <= i < j < |r| ensures LexLessEq(r[i], r[j]) {
      assert r[j] == xs[j - 1];
      if i > 0 {
        assert r[i] == xs[i - 1];
      }
    }
  }

  /** What `Array.prototype.sort()` computes on strings: the input rearranged
      into ascending order. */
  function SortStrings(xs: seq<string>): (r: seq<string>)
    ensures SortedAsc(r)
    ensures multiset(r) == multiset(xs)
    decreases |xs|
  {
    if xs == [] then []
    else
      assert xs == [xs[0]] + xs[1..];
      InsertAsc(xs[0], SortStrings(xs[1..]))
  }

  // ---------------------------------------------------------------------
  // Two regular expressions shared by the metadata parsers
  // ---------------------------------------------------------------------

  /** The character `.` accepts last in `s`, as a one-character string. */
  function LastDotChar(s: string, dotExcludes: char -> bool): (r: Option<string>)
    ensures r.Some? <==> exists i | 0 <= i < |s| :: !dotExcludes(s[i])
    ensures r.Some? ==> |r.value| == 1 && !dotExcludes(r.value[0])
    ensures r.Some? ==> exists i | 0 <= i < |s| :: r.value == [s[i]] && !dotExcludes(s[i])
                          && forall j | i < j < |s| :: dotExcludes(s[j])
    decreases |s|
  {
    if s == [] then None
    else if !dotExcludes(s[|s| - 1]) then Some([s[|s| - 1]])
    else
      var r := LastDotChar(s[..|s| - 1], dotExcludes);
      assert forall i | 0 <= i < |s| - 1 :: s[..|s| - 1][i] == s[i];
      r
  }

  /** The capture group of `/^<!--\s*(.+?)\s*-->$/` matched against a whole
      line: `ws` is the class of `\s`, `dotExcludes` what `.` does not match. */
  function CommentGroup(line: string, ws: char -> bool, dotExcludes: char -> bool): Option<string>
  {
    if |line| < 7 || line[..4] != "<!--" || line[|line| - 3..] != "-->" then None
    else InnerGroup(line[4..|line| - 3], ws, dotExcludes)
  }

  /** The group taken from the text between `<!--` and `-->`.  The first
      `\s*` is greedy and the group lazy, so the group is the trimmed inside;
      an inside made only of whitespace leaves one character to the group. */
  function InnerGroup(inner: string, ws: char -> bool, dotExcludes: char -> bool): Option<string>
  {
    var core := Trim(inner, ws);
    if core != [] then
      (if NoneOf(core, dotExcludes) then Some(core) else None)
    else LastDotChar(inner, dotExcludes)
  }

  /** One way the regular expression can match: the first `\s*` takes `k`
      characters of the inside, the group the next `g`, and the second `\s*`
      the rest. */
  ghost predicate InnerSplit(inner: string, ws: char -> bool, dotExcludes: char -> bool, k: nat, g: nat) {
    && 1 <= g
    && k + g <= |inner|
    && AllOf(inner[..k], ws)
    && NoneOf(inner[k..k + g], dotExcludes)
    && AllOf(inner[k + g..], ws)
  }

  /** A split is the best one: backtracking tries it before every other
      (longest leading `\s*` first, then shortest group). */
  ghost predicate FirstSplit(inner: string, ws: char -> bool, dotExcludes: char -> bool, k: nat, g: nat) {
    && InnerSplit(inner, ws, dotExcludes, k, g)
    && forall k': nat, g': nat :: InnerSplit(inner, ws, dotExcludes, k', g') ==> k' < k || (k' == k && g <= g')
  }

  lemma {:induction false} LeadingRunCovers(s: string, ws: char -> bool, k: nat)
    requires k <= |s|
    requires forall i | 0 <= i < k :: ws(s[i])
    ensures k <= LeadingRun(s, ws)
    decreases k
  {
    if k > 0 {
      LeadingRunCovers(s[1..], ws, k - 1);
    }
  }

  lemma SplitBounds(inner: string, ws: char -> bool, dotExcludes: char -> bool, k: nat, g: nat)
    requires InnerSplit(inner, ws, dotExcludes, k, g)
    ensures forall i | 0 <= i < k :: ws(inner[i])
    ensures !dotExcludes(inner[k])
    ensures forall i | k <= i < k + g :: !dotExcludes(inner[i])
    ensures forall i | k + g <= i < |inner| :: ws(inner[i])
  {
    AllOfRange(inner, 0, k, ws);
    NoneOfRange(inner, k, k + g, dotExcludes);
    AllOfRange(inner, k + g, |inner|, ws);
  }

  /** What holds of every character of a slice holds at each of its places. */
  lemma AllOfRange(s: string, a: nat, b: nat, p: char -> bool)
    requires a <= b <= |s| && AllOf(s[a..b], p)
    ensures forall i | a <= i < b :: p(s[i])
  {
    forall i | a <= i < b ensures p(s[i]) {
      assert s[a..b][i - a] == s[i];
    }
  }

  lemma NoneOfRange(s: string, a: nat, b: nat, p: char -> bool)
    requires a <= b <= |s| && NoneOf(s[a..b], p)
    ensures forall i | a <= i < b :: !p(s[i])
  {
    forall i | a <= i < b ensures !p(s[i]) {
      assert s[a..b][i - a] == s[i];
    }
  }

  lemma InnerGroupCore(inner: string, ws: char -> bool, dotExcludes: char -> bool)
    requires Trim(inner, ws) != []
    ensures InnerGroup(inner, ws, dotExcludes).Some? <==>
            exists k: nat, g: nat :: InnerSplit(inner, ws, dotExcludes, k, g)
    ensures InnerGroup(inner, ws, dotExcludes).Some? ==>
            var L := LeadingRun(inner, ws);
            var g := TrimTo(inner, ws) - L;
            FirstSplit(inner, ws, dotExcludes, L, g) && InnerGroup(inner, ws, dotExcludes).value == inner[L..L + g]
  {
    var L, E := LeadingRun(inner, ws), TrimTo(inner, ws);
    var core := Trim(inner, ws);
    TrimSlice(inner, ws);
    assert L < E;
    forall k: nat, g: nat | InnerSplit(inner, ws, dotExcludes, k, g)
      ensures k <= L && E <= k + g
    {
      SplitBounds(inner, ws, dotExcludes, k, g);
      LeadingRunCovers(inner, ws, k);
      assert !ws(inner[E - 1]);
    }
    if NoneOf(core, dotExcludes) {
      assert InnerSplit(inner, ws, dotExcludes, L, E - L);
    } else {
      var i :| 0 <= i < |core| && dotExcludes(core[i]);
      assert core[i] == inner[L + i];
      forall k: nat, g: nat ensures !InnerSplit(inner, ws, dotExcludes, k, g) {
        if InnerSplit(inner, ws, dotExcludes, k, g) {
          SplitBounds(inner, ws, dotExcludes, k, g);
          LeadingRunCovers(inner, ws, k);
        }
      }
    }
  }

  lemma InnerGroupBlank(inner: string, ws: char -> bool, dotExcludes: char -> bool)
    requires Trim(inner, ws) == []
    ensures InnerGroup(inner, ws, dotExcludes).Some? <==>
            exists k: nat, g: nat :: InnerSplit(inner, ws, dotExcludes, k, g)
    ensures InnerGroup(inner, ws, dotExcludes).Some? ==>
            exists k: nat :: FirstSplit(inner, ws, dotExcludes, k, 1)
              && InnerGroup(inner, ws, dotExcludes).value == inner[k..k + 1]
  {
    assert AllOf(inner, ws);
    var r := LastDotChar(inner, dotExcludes);
    if r.Some? {
      var i :| 0 <= i < |inner| && r.value == [inner[i]] && !dotExcludes(inner[i])
               && forall j | i < j < |inner| :: dotExcludes(inner[j]);
      assert InnerSplit(inner, ws, dotExcludes, i, 1);
      forall k': nat, g': nat | InnerSplit(inner, ws, dotExcludes, k', g')
        ensures k' < i || (k' == i && 1 <= g')
      {
        SplitBounds(inner, ws, dotExcludes, k', g');
      }
      assert FirstSplit(inner, ws, dotExcludes, i, 1);
    } else {
      forall k: nat, g: nat ensures !InnerSplit(inner, ws, dotExcludes, k, g) {
        if InnerSplit(inner, ws, dotExcludes, k, g) {
          SplitBounds(inner, ws, dotExcludes, k, g);
        }
      }
    }
  }

  /** `CommentGroup` is exactly the regular expression's match on the inside
      of a `<!-- ... -->` line: it finds a group iff some split matches, and
      then it is the group of the split backtracking reaches first. */
  lemma CommentGroupIsMatch(line: string, ws: char -> bool, dotExcludes: char -> bool)
    requires |line| >= 7 && line[..4] == "<!--" && line[|line| - 3..] == "-->"
    ensures var inner := line[4..|line| - 3];
            CommentGroup(line, ws, dotExcludes).Some? <==>
            exists k: nat, g: nat :: InnerSplit(inner, ws, dotExcludes, k, g)
    ensures var inner := line[4..|line| - 3];
            CommentGroup(line, ws, dotExcludes).Some? ==>
            exists k: nat, g: nat :: FirstSplit(inner, ws, dotExcludes, k, g)
              && CommentGroup(line, ws, dotExcludes).value == inner[k..k + g]
  {
    var inner := line[4..|line| - 3];
    if Trim(inner, ws) != [] {
      InnerGroupCore(inner, ws, dotExcludes);
    } else {
      InnerGroupBlank(inner, ws, dotExcludes);
    }
  }

  /** The text from the start of `s` up to its first `|`. */
  function UpToBar(s: string): (r: string)
    ensures |r| <= |s| && r == s[..|r|] && '|' !in r
    ensures |r| < |s| ==> s[|r|] == '|'
  {
    var i := FindAny(s, {'|'});
    if i < 0 then s else s[..i]
  }

  /** Whether `/key:\s*([^|]+)/` can match with `key:` starting at `i`: it
      needs at least one character that is not `|` right after the colon. */
  predicate FieldAt(s: string, key: string, i: nat) {
    HasAt(s, key + ":", i) && i + |key| + 1 < |s| && s[i + |key| + 1] != '|'
  }

  /** The trimmed capture of `/key:\s*([^|]+)/` searched in `s` from `from`
      (`ws` is the class of `\s` and of the trim applied to the capture):
      the text after the first usable `key:` up to the next `|`. */
  function FieldAfter(s: string, key: string, ws: char -> bool, from: nat): (r: Option<string>)
    ensures r.None? <==> forall i: nat | from <= i :: !FieldAt(s, key, i)
    decreases |s| - from
  {
    if from + |key| + 1 >= |s| then None
    else if FieldAt(s, key, from) then Some(Trim(UpToBar(s[from + |key| + 1..]), ws))
    else
      var rest := FieldAfter(s, key, ws, from + 1);
      assert forall i: nat | from <= i && FieldAt(s, key, i) :: from + 1 <= i;
      rest
  }

  /** The first usable `key:` from `from` on decides what `FieldAfter` finds. */
  lemma {:induction false} FieldAfterFirst(s: string, key: string, ws: char -> bool, from: nat, i: nat)
    requires from <= i && FieldAt(s, key, i)
    requires forall j: nat | from <= j < i :: !FieldAt(s, key, j)
    ensures FieldAfter(s, key, ws, from) == Some(Trim(UpToBar(s[i + |key| + 1..]), ws))
    decreases i - from
  {
    if from == i {
      FieldAfterHit(s, key, ws, from);
    } else {
      FieldAfterSkip(s, key, ws, from);
      FieldAfterFirst(s, key, ws, from + 1, i);
    }
  }

  lemma FieldAfterHit(s: string, key: string, ws: char -> bool, from: nat)
    requires FieldAt(s, key, from)
    ensures FieldAfter(s, key, ws, from) == Some(Trim(UpToBar(s[from + |key| + 1..]), ws))
  {
  }

  lemma FieldAfterSkip(s: string, key: string, ws: char -> bool, from: nat)
    requires from + |key| + 1 < |s| && !FieldAt(s, key, from)
    ensures FieldAfter(s, key, ws, from) == FieldAfter(s, key, ws, from + 1)
  {
  }

}
