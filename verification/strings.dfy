/**
 The Python `str` operations the application relies on, over `seq<char>`:
 whitespace and line-break classes, `strip`, `split`, `join`, `splitlines`
 and substring search.
 */
module Strings {
  import opened Options

  /** `str.isspace()` for one character; also what `\s` matches in a str regex. */
  predicate IsSpace(c: char) {
    || c == ' '
    || '\t' <= c <= '\r'
    || '\U{1C}' <= c <= '\U{1F}'
    || c == '\U{85}' || c == '\U{A0}' || c == '\U{1680}'
    || '\U{2000}' <= c <= '\U{200A}'
    || c == '\U{2028}' || c == '\U{2029}'
    || c == '\U{202F}' || c == '\U{205F}' || c == '\U{3000}'
  }

  /** The characters at which `str.splitlines()` ends a line (`\r\n` counts as one break). */
  predicate IsLineBreak(c: char) {
    || '\n' <= c <= '\r'
    || '\U{1C}' <= c <= '\U{1E}'
    || c == '\U{85}' || c == '\U{2028}' || c == '\U{2029}'
  }

  /** ASCII decimal digit: what the model takes `\d` to match. */
  predicate IsDigit(c: char) {
    '0' <= c <= '9'
  }

  predicate AllSpace(s: string) {
    forall i :: 0 <= i < |s| ==> IsSpace(s[i])
  }

  /** Neither end of `s` is whitespace. */
  predicate IsStripped(s: string) {
    s == [] || (!IsSpace(s[0]) && !IsSpace(s[|s| - 1]))
  }

  predicate HasLineBreak(s: string) {
    exists i :: 0 <= i < |s| && IsLineBreak(s[i])
  }

  /** `s[lo..hi]` is a slice of `s` made of whitespace only. */
  predicate AllSpaceIn(s: string, lo: int, hi: int) {
    0 <= lo <= hi <= |s| && AllSpace(s[lo..hi])
  }

  /** The first `n` characters of `s` are whitespace. */
  predicate SpacesBefore(s: string, n: int) {
    0 <= n <= |s| && AllSpace(s[..n])
  }

  /** `s[lo..hi]` is a slice of `s` in which `c` does not occur. */
  predicate LacksIn(s: string, c: char, lo: int, hi: int) {
    0 <= lo <= hi <= |s| && c !in s[lo..hi]
  }

  /** `c` does not occur among the first `n` characters of `s`. */
  predicate LacksBefore(s: string, c: char, n: int) {
    0 <= n <= |s| && c !in s[..n]
  }

  /** The first `n` characters of `s` hold no line break. */
  predicate NoBreakBefore(s: string, n: int) {
    0 <= n <= |s| && forall i :: 0 <= i < n ==> !IsLineBreak(s[i])
  }

  /** `pat` occurs in `s` starting at index `i`. */
  predicate OccursAt(s: string, pat: string, i: int) {
    0 <= i && i + |pat| <= |s| && s[i..i + |pat|] == pat
  }

  /** Python's `pat in s`. */
  predicate Contains(s: string, pat: string) {
    exists i | 0 <= i <= |s| :: OccursAt(s, pat, i)
  }

  /** Number of whitespace characters at the front of `s`. */
  function LeadingSpaces(s: string): (n: nat)
    ensures n <= |s|
    ensures SpacesBefore(s, n)
    ensures n < |s| ==> !IsSpace(s[n])
  {
    if |s| > 0 && IsSpace(s[0]) then 1 + LeadingSpaces(s[1..]) else 0
  }

  /** Number of whitespace characters at the back of `s`. */
  function TrailingSpaces(s: string): (n: nat)
    ensures n <= |s|
    ensures AllSpace(s[|s| - n..])
    ensures n < |s| ==> !IsSpace(s[|s| - n - 1])
  {
    if |s| > 0 && IsSpace(s[|s| - 1]) then 1 + TrailingSpaces(s[..|s| - 1]) else 0
  }

  /**
   Python's `s.strip()`: the result sits inside `s` at offset `LeadingSpaces(s)`,
   everything around it is whitespace, and it neither starts nor ends with whitespace.
   These three facts determine the result.
   */
  function Strip(s: string): (r: string)
    ensures |r| <= |s|
    ensures IsStripped(r)
    ensures LeadingSpaces(s) + |r| <= |s|
    ensures r == s[LeadingSpaces(s)..LeadingSpaces(s) + |r|]
    ensures AllSpace(s[..LeadingSpaces(s)]) && AllSpace(s[LeadingSpaces(s) + |r|..])
    ensures r == [] <==> AllSpace(s)
  {
    var t := s[LeadingSpaces(s)..];
    SpaceAround(s, LeadingSpaces(s), TrailingSpaces(t));
    TakeOfDrop(s, LeadingSpaces(s), |t| - TrailingSpaces(t));
    t[..|t| - TrailingSpaces(t)]
  }

  lemma TakeOfDrop(s: string, a: nat, n: nat)
    requires a + n <= |s|
    ensures s[a..][..n] == s[a..a + n]
  {
  }

  /**
   With `l` spaces in front and `tr` behind what follows them, what lies between is
   stripped, the text ends in `tr` spaces, and it is all space exactly when
   nothing lies between.
   */
  lemma SpaceAround(s: string, l: nat, tr: nat)
    requires l <= |s| && tr <= |s| - l
    requires AllSpace(s[..l]) && (l < |s| ==> !IsSpace(s[l]))
    requires AllSpace(s[l..][|s| - l - tr..]) && (tr < |s| - l ==> !IsSpace(s[l..][|s| - l - tr - 1]))
    ensures IsStripped(s[l..|s| - tr])
    ensures AllSpace(s[|s| - tr..])
    ensures tr == |s| - l <==> AllSpace(s)
  {
    assert s[|s| - tr..] == s[l..][|s| - l - tr..];
    StrippedBetween(s, l, tr);
    if tr == |s| - l {
      NothingBetween(s, l, tr);
    }
  }

  lemma StrippedBetween(s: string, l: nat, tr: nat)
    requires l <= |s| && tr <= |s| - l
    requires l < |s| ==> !IsSpace(s[l])
    requires tr < |s| - l ==> !IsSpace(s[l..][|s| - l - tr - 1])
    ensures IsStripped(s[l..|s| - tr])
  {
    var r := s[l..|s| - tr];
    if r != [] {
      assert r[0] == s[l];
      assert r[|r| - 1] == s[l..][|s| - l - tr - 1];
    }
  }

  lemma NothingBetween(s: string, l: nat, tr: nat)
    requires l <= |s| && tr == |s| - l
    requires AllSpace(s[..l]) && (l < |s| ==> !IsSpace(s[l]))
    requires AllSpace(s[l..][|s| - l - tr..])
    ensures l == |s| && AllSpace(s)
  {
    assert s[l..][|s| - l - tr..] == s[l..];
    SpacesWithoutFront(s[l..]);
    assert s[..l] == s;
  }

  /** All space yet not starting with a space: empty. */
  lemma SpacesWithoutFront(t: string)
    requires AllSpace(t) && (t != [] ==> !IsSpace(t[0]))
    ensures t == []
  {
  }

  lemma {:induction false} StripKeepsStripped(s: string)
    requires IsStripped(s)
    ensures Strip(s) == s
  {
    if s != [] {
      assert LeadingSpaces(s) == 0;
      assert TrailingSpaces(s) == 0;
    }
  }

  /**
   `strip()` is the only way to cut `s` into whitespace, a stripped middle and
   whitespace: any such middle is `Strip(s)`.
   */
  lemma StripUnique(s: string, a: nat, t: string)
    requires a + |t| <= |s| && t == s[a..a + |t|]
    requires AllSpace(s[..a]) && AllSpace(s[a + |t|..]) && IsStripped(t)
    ensures t == Strip(s)
  {
    if t == [] {
      forall k | 0 <= k < |s| ensures IsSpace(s[k]) {
        if k < a { assert s[..a][k] == s[k]; } else { assert s[a..][k - a] == s[k]; }
      }
    }
  }

  /**
   The first occurrence of `pat` at or after `from`, as `str.find(pat, from)` does
   (with `None` for -1).
   */
  function FindFrom(s: string, pat: string, from: nat): (r: Option<nat>)
    ensures r.Some? ==> from <= r.value && OccursAt(s, pat, r.value)
    decreases |s| - from
  {
    if from + |pat| > |s| then None
    else if OccursAt(s, pat, from) then Some(from)
    else FindFrom(s, pat, from + 1)
  }

  /** The search finds the first occurrence: there is none between `from` and the result, nor after `from` when nothing is found. */
  lemma {:induction false} FindFromFirst(s: string, pat: string, from: nat)
    ensures forall j :: from <= j && (FindFrom(s, pat, from).None? || j < FindFrom(s, pat, from).value) ==> !OccursAt(s, pat, j)
    decreases |s| - from
  {
    if from + |pat| <= |s| && !OccursAt(s, pat, from) {
      FindFromFirst(s, pat, from + 1);
    }
  }

  lemma ContainsIffFound(s: string, pat: string)
    ensures Contains(s, pat) <==> FindFrom(s, pat, 0).Some?
  {
    FindFromFirst(s, pat, 0);
    if FindFrom(s, pat, 0).Some? {
      assert OccursAt(s, pat, FindFrom(s, pat, 0).value);
    }
  }

  /** An occurrence inside a prefix or a suffix of `s` is an occurrence in `s`. */
  lemma OccursInSlice(s: string, pat: string, a: nat, b: nat, j: int)
    requires a <= b <= |s|
    requires OccursAt(s[a..b], pat, j)
    ensures OccursAt(s, pat, a + j)
  {
    forall k | 0 <= k < |pat| ensures s[a + j + k] == pat[k] {
      assert s[a..b][j..j + |pat|][k] == pat[k];
    }
    assert s[a + j..a + j + |pat|] == pat;
  }

  /** An occurrence in a suffix of `s` is an occurrence in `s`. */
  lemma OccursInSuffix(s: string, pat: string, a: nat, j: int)
    requires a <= |s|
    requires OccursAt(s[a..], pat, j)
    ensures OccursAt(s, pat, a + j)
  {
    assert s[a..|s|] == s[a..];
    OccursInSlice(s, pat, a, |s|, j);
  }

  /** Python's `sep.join(parts)`. */
  function Join(parts: seq<string>, sep: string): (s: string)
  {
    if |parts| == 0 then ""
    else if |parts| == 1 then parts[0]
    else parts[0] + sep + Join(parts[1..], sep)
  }

  /**
   Python's `s.split(sep)` for a non-empty separator (Python raises ValueError
   for an empty one): cut at each leftmost, non-overlapping occurrence.
   */
  function Split(s: string, sep: string): (parts: seq<string>)
    requires |sep| > 0
    ensures |parts| >= 1
    decreases |s|
  {
    match SplitCut(s, sep)
    case Whole => [s]
    case Piece(piece, rest) => [piece] + Split(rest, sep)
  }

  /** One cut of a split: nothing to cut, or the piece before the first separator and the text after it. */
  datatype SplitCutResult = Whole | Piece(piece: string, rest: string)

  function SplitCut(s: string, sep: string): (c: SplitCutResult)
    requires |sep| > 0
    ensures c.Piece? ==> |s| == |c.piece| + |sep| + |c.rest| && OccursAt(s, sep, |c.piece|)
    ensures c.Piece? ==> c.piece == s[..|c.piece|] && c.rest == s[|c.piece| + |sep|..]
  {
    match FirstAt(s, sep)
    case None => Whole
    case Some(i) => Piece(s[..i], s[i + |sep|..])
  }

  /** The first occurrence of `pat` in `s`, if any. */
  function FirstAt(s: string, pat: string): (r: Option<nat>)
    ensures r.Some? ==> OccursAt(s, pat, r.value)
  {
    FindFrom(s, pat, 0)
  }

  lemma SplitUnfold(s: string, sep: string, piece: string, rest: string)
    requires |sep| > 0 && SplitCut(s, sep) == Piece(piece, rest)
    ensures Split(s, sep) == [piece] + Split(rest, sep)
  {
  }

  /** No piece of a split contains the separator. */
  lemma {:induction false} SplitPiecesLackSeparator(s: string, sep: string)
    requires |sep| > 0
    ensures forall i :: 0 <= i < |Split(s, sep)| ==> !Contains(Split(s, sep)[i], sep)
    decreases |s|
  {
    match SplitCut(s, sep)
    case Whole =>
      ContainsIffFound(s, sep);
    case Piece(piece, rest) =>
      FirstPieceLacksSeparator(s, sep, piece, rest);
      SplitPiecesLackSeparator(rest, sep);
      SplitUnfold(s, sep, piece, rest);
      var parts := Split(rest, sep);
      forall i | 0 <= i < |[piece] + parts| ensures !Contains(([piece] + parts)[i], sep) {
        if i > 0 {
          assert ([piece] + parts)[i] == parts[i - 1];
        }
      }
  }

  /** The piece before the first separator holds no separator. */
  lemma FirstPieceLacksSeparator(s: string, sep: string, piece: string, rest: string)
    requires |sep| > 0 && SplitCut(s, sep) == Piece(piece, rest)
    ensures !Contains(piece, sep)
  {
    var i := FindFrom(s, sep, 0).value;
    FindFromFirst(s, sep, 0);
    forall j | 0 <= j <= i && OccursAt(s[..i], sep, j)
      ensures false
    {
      OccursInSlice(s, sep, 0, i, j);
    }
  }

  /** Joining a list of at least two parts puts the separator after the first. */
  lemma JoinCons(x: string, xs: seq<string>, sep: string)
    requires |xs| >= 1
    ensures Join([x] + xs, sep) == x + sep + Join(xs, sep)
  {
    assert ([x] + xs)[1..] == xs;
  }

  lemma NewlineSplit(s: string, n: nat)
    requires n < |s| && s[n] == '\n'
    ensures s == s[..n] + "\n" + s[n + 1..]
  {
    assert s[n..] == "\n" + s[n + 1..];
    assert s == s[..n] + s[n..];
  }

  /** Joining the pieces of a split with the same separator gives the string back. */
  lemma {:induction false} JoinSplit(s: string, sep: string)
    requires |sep| > 0
    ensures Join(Split(s, sep), sep) == s
    decreases |s|
  {
    match FindFrom(s, sep, 0)
    case None =>
    case Some(i) =>
      var rest := s[i + |sep|..];
      JoinSplit(rest, sep);
      SplitStep(s, sep, i);
      JoinCons(s[..i], Split(rest, sep), sep);
      AroundOccurrence(s, sep, i);
  }

  /** Cutting `s` around an occurrence of `pat`. */
  lemma AroundOccurrence(s: string, pat: string, i: nat)
    requires OccursAt(s, pat, i)
    ensures s == s[..i] + pat + s[i + |pat|..]
  {
    assert s[i..] == pat + s[i + |pat|..];
    assert s == s[..i] + s[i..];
  }

  /** The first piece of a split is a prefix, followed by the separator unless it is everything. */
  lemma SplitFirstIsPrefix(s: string, sep: string)
    requires |sep| > 0
    ensures var p := Split(s, sep)[0];
      |p| <= |s| && s[..|p|] == p && (|p| == |s| || OccursAt(s, sep, |p|))
  {
  }

  function Last<T>(xs: seq<T>): T
    requires |xs| > 0
  {
    xs[|xs| - 1]
  }

  /** One step of a split: the piece before the first separator, then the split of the rest. */
  lemma SplitStep(s: string, sep: string, i: nat)
    requires |sep| > 0
    requires FindFrom(s, sep, 0) == Some(i)
    ensures Split(s, sep) == [s[..i]] + Split(s[i + |sep|..], sep)
  {
    SplitUnfold(s, sep, s[..i], s[i + |sep|..]);
  }

  /** The last piece of a split is a suffix of `s`. */
  lemma {:induction false} SplitLastIsSuffix(s: string, sep: string)
    requires |sep| > 0
    ensures |Last(Split(s, sep))| <= |s|
    ensures s[|s| - |Last(Split(s, sep))|..] == Last(Split(s, sep))
    decreases |s|
  {
    match FindFrom(s, sep, 0)
    case None =>
      assert s[0..] == s;
    case Some(i) =>
      var rest := s[i + |sep|..];
      SplitLastIsSuffix(rest, sep);
      SplitStep(s, sep, i);
      LastOfCons(s[..i], Split(rest, sep));
  }

  /** Unless it is all of `s`, the last piece of a split directly follows a separator. */
  lemma SplitLastFollowsSeparator(s: string, sep: string)
    requires |sep| > 0
    requires |Last(Split(s, sep))| < |s|
    ensures OccursAt(s, sep, |s| - |Last(Split(s, sep))| - |sep|)
  {
    var parts := Split(s, sep);
    JoinSplit(s, sep);
    if |parts| == 1 {
      assert false;
    }
    JoinLast(parts, sep);
    var front := Join(parts[..|parts| - 1], sep);
    OccursBetween(front, sep, Last(parts));
    OccursAtSame(s, sep, |front|, |s| - |Last(parts)| - |sep|);
  }

  /** A join of two or more parts is the join of all but the last, a separator, and the last. */
  lemma {:induction false} JoinLast(parts: seq<string>, sep: string)
    requires |parts| >= 2
    ensures Join(parts, sep) == Join(parts[..|parts| - 1], sep) + sep + Last(parts)
    decreases |parts|
  {
    var front := parts[..|parts| - 1];
    if |parts| == 2 {
      assert front == [parts[0]];
      assert Join(parts[1..], sep) == parts[1];
    } else {
      var tail := parts[1..];
      JoinLast(tail, sep);
      assert tail[..|tail| - 1] == front[1..];
      assert Last(tail) == Last(parts);
      assert Join(front, sep) == parts[0] + sep + Join(front[1..], sep);
    }
  }

  lemma OccursBetween(x: string, pat: string, y: string)
    ensures OccursAt(x + pat + y, pat, |x|)
  {
    assert (x + pat + y)[|x|..|x| + |pat|] == pat;
  }

  lemma OccursAtSame(s: string, pat: string, a: int, b: int)
    requires OccursAt(s, pat, a) && a == b
    ensures OccursAt(s, pat, b)
  {
  }

  lemma LastOfCons<T>(x: T, xs: seq<T>)
    requires |xs| > 0
    ensures Last([x] + xs) == Last(xs)
  {
  }

  /** Index of the first occurrence of `c` in `s`, or `|s|`. */
  function IndexOfChar(s: string, c: char): (n: nat)
    ensures n <= |s|
    ensures LacksBefore(s, c, n)
    ensures n < |s| ==> s[n] == c
  {
    if |s| == 0 || s[0] == c then 0 else 1 + IndexOfChar(s[1..], c)
  }

  /** A search from `from` stops at `n` when `pat` occurs there and nowhere in between. */
  lemma FindLocates(s: string, pat: string, from: nat, n: nat)
    requires from <= n && OccursAt(s, pat, n)
    requires forall k :: from <= k < n ==> !OccursAt(s, pat, k)
    ensures FindFrom(s, pat, from) == Some(n)
    decreases n - from
  {
    if from < n {
      FindLocates(s, pat, from + 1, n);
    }
  }

  /** `pat` cannot start where its first character does not occur. */
  lemma NoOccurrenceWithoutFirstChar(s: string, pat: string, from: nat, n: nat)
    requires |pat| > 0 && from <= n <= |s|
    requires pat[0] !in s[from..n]
    ensures forall k :: from <= k < n ==> !OccursAt(s, pat, k)
  {
    forall k | from <= k < n ensures !OccursAt(s, pat, k) {
      assert s[k] == s[from..n][k - from];
      if k + |pat| <= |s| {
        assert s[k..k + |pat|][0] == s[k];
      }
    }
  }

  /**
   A pattern whose first character does not recur in it (such as `<think>`) cannot
   overlap an occurrence of itself: if it does not occur inside `s[from..n]` and
   occurs at `n`, it does not occur anywhere in between.
   */
  lemma NoOccurrenceBeforeUnbordered(s: string, pat: string, from: nat, n: nat)
    requires |pat| > 0 && pat[0] !in pat[1..]
    requires from <= n && OccursAt(s, pat, n)
    requires !Contains(s[from..n], pat)
    ensures forall k :: from <= k < n ==> !OccursAt(s, pat, k)
  {
    forall k | from <= k < n ensures !OccursAt(s, pat, k) {
      if k + |pat| <= n {
        var t := s[from..n];
        var u, w := t[k - from..k - from + |pat|], s[k..k + |pat|];
        forall m | 0 <= m < |pat| ensures u[m] == w[m] {
          assert t[k - from + m] == s[k + m];
        }
        assert u == w;
        assert !OccursAt(t, pat, k - from);
      } else {
        assert s[n] == s[n..n + |pat|][0] == pat[0];
        assert pat[n - k] != pat[0] by {
          assert pat[n - k] == pat[1..][n - k - 1];
        }
        if k + |pat| <= |s| {
          assert s[k..k + |pat|][n - k] == s[n];
        }
      }
    }
  }

  /** A slice of a string that lacks `pat` lacks it too. */
  lemma SliceLacks(x: string, pat: string, a: nat, b: nat)
    requires a <= b <= |x| && !Contains(x, pat)
    ensures !Contains(x[a..b], pat)
  {
    forall j | 0 <= j <= b - a && OccursAt(x[a..b], pat, j) ensures false {
      OccursInSlice(x, pat, a, b, j);
    }
  }

  /** Stripping adds no occurrence of a pattern. */
  lemma StripLacks(x: string, pat: string)
    requires !Contains(x, pat)
    ensures !Contains(Strip(x), pat)
  {
    SliceLacks(x, pat, LeadingSpaces(x), LeadingSpaces(x) + |Strip(x)|);
  }

  /**
   With a separator whose first character no part contains, splitting the join
   gives the parts back.
   */
  lemma {:induction false} SplitJoin(parts: seq<string>, sep: string)
    requires |parts| >= 1 && |sep| > 0
    requires forall i :: 0 <= i < |parts| ==> sep[0] !in parts[i]
    ensures Split(Join(parts, sep), sep) == parts
  {
    var s := Join(parts, sep);
    if |parts| == 1 {
      assert s[0..|s|] == s;
      NoOccurrenceWithoutFirstChar(s, sep, 0, |s|);
    } else {
      var p := parts[0];
      var rest := Join(parts[1..], sep);
      assert s == p + sep + rest;
      assert s[0..|p|] == p;
      assert s[|p|..|p| + |sep|] == sep;
      NoOccurrenceWithoutFirstChar(s, sep, 0, |p|);
      FindLocates(s, sep, 0, |p|);
      SplitStep(s, sep, |p|);
      assert s[..|p|] == p;
      assert s[|p| + |sep|..] == rest;
      SplitJoin(parts[1..], sep);
    }
  }

  /** A one-character pattern occurs exactly where its character does. */
  lemma ContainsChar(s: string, c: char)
    ensures Contains(s, [c]) <==> c in s
  {
    if c in s {
      var k :| 0 <= k < |s| && s[k] == c;
      assert s[k..k + 1] == [c];
      assert OccursAt(s, [c], k);
    }
    if Contains(s, [c]) {
      var k :| 0 <= k <= |s| && OccursAt(s, [c], k);
      assert s[k..k + 1][0] == s[k];
      assert s[k] == c && s[k] in s;
    }
  }

  /** A string without the separator splits into itself alone. */
  lemma SplitWithoutSeparator(s: string, sep: string)
    requires |sep| > 0 && !Contains(s, sep)
    ensures Split(s, sep) == [s]
  {
    ContainsIffFound(s, sep);
  }

  /**
   For a separator that cannot overlap itself, the last piece of a split is what
   follows the last separator.
   */
  lemma {:induction false} LastPieceAfterLastSeparator(x: string, sep: string, t: string)
    requires |sep| > 0 && sep[0] !in sep[1..]
    requires !Contains(t, sep)
    ensures Last(Split(x + sep + t, sep)) == t
    decreases |x|
  {
    var s := x + sep + t;
    OccursBetween(x, sep, t);
    FindFromFirst(s, sep, 0);
    match SplitCut(s, sep)
    case Whole =>
      assert false;
    case Piece(piece, rest) =>
      SplitUnfold(s, sep, piece, rest);
      LastOfCons(piece, Split(rest, sep));
      var i := |piece|;
      if i + |sep| <= |x| {
        RestAfterEarlyCut(x, sep, t, i);
        LastPieceAfterLastSeparator(x[i + |sep|..], sep, t);
      } else if i < |x| {
        assert false;
      } else {
        assert rest == t;
        SplitWithoutSeparator(t, sep);
      }
  }

  lemma RestAfterEarlyCut(x: string, sep: string, t: string, i: nat)
    requires i + |sep| <= |x|
    ensures (x + sep + t)[i + |sep|..] == x[i + |sep|..] + sep + t
  {
  }

  /** Where the `k`-th part starts in `sep.join(parts)`. */
  function JoinOffset(parts: seq<string>, sep: string, k: nat): nat
    requires k <= |parts|
  {
    if k == 0 then 0 else JoinOffset(parts, sep, k - 1) + |parts[k - 1]| + |sep|
  }

  /** Every part appears in the join, unchanged, at its offset: the join keeps the parts in order. */
  lemma {:induction false} JoinHoldsParts(parts: seq<string>, sep: string, k: nat)
    requires k < |parts|
    ensures JoinOffset(parts, sep, k) + |parts[k]| <= |Join(parts, sep)|
    ensures Join(parts, sep)[JoinOffset(parts, sep, k)..JoinOffset(parts, sep, k) + |parts[k]|] == parts[k]
    decreases k
  {
    var s := Join(parts, sep);
    if |parts| == 1 {
      assert s == parts[0];
    } else if k == 0 {
      assert s == parts[0] + sep + Join(parts[1..], sep);
      assert s[..|parts[0]|] == parts[0];
    } else {
      var tail := parts[1..];
      var rest := Join(tail, sep);
      assert s == parts[0] + sep + rest;
      JoinHoldsParts(tail, sep, k - 1);
      TailOffset(parts, sep, k);
      var o := JoinOffset(tail, sep, k - 1);
      assert s[|parts[0]| + |sep| + o..|parts[0]| + |sep| + o + |parts[k]|] == rest[o..o + |tail[k - 1]|];
    }
  }

  /** Offsets in the join of the tail are shifted by the first part and one separator. */
  lemma {:induction false} TailOffset(parts: seq<string>, sep: string, k: nat)
    requires 1 <= k <= |parts|
    ensures JoinOffset(parts, sep, k) == |parts[0]| + |sep| + JoinOffset(parts[1..], sep, k - 1)
    decreases k
  {
    if k > 1 {
      TailOffset(parts, sep, k - 1);
      assert parts[1..][k - 2] == parts[k - 1];
    }
  }

  /** The scan behind `LineLength`, one character at a time. */
  function LineScan(s: string): (n: nat)
    ensures n <= |s|
    ensures NoBreakBefore(s, n)
    ensures n < |s| ==> IsLineBreak(s[n])
  {
    if |s| == 0 || IsLineBreak(s[0]) then 0 else 1 + LineScan(s[1..])
  }

  /** Index of the first line break in `s`, or `|s|`. */
  function LineLength(s: string): (n: nat)
    ensures n <= |s|
    ensures NoBreakBefore(s, n)
    ensures n < |s| ==> IsLineBreak(s[n])
  {
    LineScan(s)
  }

  /**
   Python's `s.splitlines()`: lines without their terminators, no trailing empty
   line for a terminated last line, and no line at all for the empty string.
   */
  function SplitLines(s: string): (lines: seq<string>)
    ensures lines == [] <==> s == []
    ensures |lines| <= |s|
    decreases |s|
  {
    if s == [] then []
    else
      var n := LineLength(s);
      if n == |s| then [s]
      else if s[n] == '\r' && n + 1 < |s| && s[n + 1] == '\n' then [s[..n]] + SplitLines(s[n + 2..])
      else [s[..n]] + SplitLines(s[n + 1..])
  }

  /** No line of `splitlines()` holds a line break. */
  lemma {:induction false} LinesHaveNoBreaks(s: string)
    ensures forall i :: 0 <= i < |SplitLines(s)| ==> !HasLineBreak(SplitLines(s)[i])
    decreases |s|
  {
    if s != [] {
      var n := LineLength(s);
      if n < |s| {
        var next := if s[n] == '\r' && n + 1 < |s| && s[n + 1] == '\n' then n + 2 else n + 1;
        var rest := SplitLines(s[next..]);
        LinesHaveNoBreaks(s[next..]);
        var lines := SplitLines(s);
        assert lines == [s[..n]] + rest;
        assert NoBreakBefore(s, n);
        forall i | 0 <= i < |lines| ensures !HasLineBreak(lines[i]) {
          if i > 0 {
            assert lines[i] == rest[i - 1];
          }
        }
      } else {
        assert SplitLines(s) == [s];
        assert !HasLineBreak(s[..n]);
        assert s[..n] == s;
      }
    }
  }

  /** A non-empty string without line breaks is a single line. */
  lemma OneLine(s: string)
    requires s != [] && !HasLineBreak(s)
    ensures SplitLines(s) == [s]
  {
  }

  /** Every line break in `s` is a `\n`. */
  predicate OnlyNewlineBreaks(s: string) {
    forall i :: 0 <= i < |s| && IsLineBreak(s[i]) ==> s[i] == '\n'
  }

  /** One step of `splitlines()` at a `\n`. */
  lemma SplitLinesStep(s: string, n: nat)
    requires n == LineLength(s) && n < |s| && s[n] == '\n'
    ensures SplitLines(s) == [s[..n]] + SplitLines(s[n + 1..])
  {
  }

  lemma OnlyNewlineBreaksSuffix(s: string, k: nat)
    requires k <= |s| && OnlyNewlineBreaks(s)
    ensures OnlyNewlineBreaks(s[k..])
  {
    forall i | 0 <= i < |s| - k && IsLineBreak(s[k..][i]) ensures s[k..][i] == '\n' {
      assert s[k..][i] == s[k + i];
    }
  }

  /**
   For text whose only line breaks are `\n` and which does not end with one,
   joining `splitlines()` with `\n` gives the text back.
   */
  lemma {:induction false} JoinSplitLines(s: string)
    requires OnlyNewlineBreaks(s)
    requires s != [] ==> s[|s| - 1] != '\n'
    ensures Join(SplitLines(s), "\n") == s
    decreases |s|
  {
    if s != [] {
      var n := LineLength(s);
      if n < |s| {
        var rest := s[n + 1..];
        OnlyNewlineBreaksSuffix(s, n + 1);
        JoinSplitLines(rest);
        SplitLinesStep(s, n);
        JoinCons(s[..n], SplitLines(rest), "\n");
        NewlineSplit(s, n);
      }
    }
  }

  // ---------------------------------------------------------------------------
  // Facts about the scanning helpers on composed strings

  /** Whitespace followed by a non-space character: the leading run is exactly the whitespace. */
  lemma {:induction false} LeadingSpacesOfGap(gap: string, t: string)
    requires AllSpace(gap) && t != [] && !IsSpace(t[0])
    ensures LeadingSpaces(gap + t) == |gap|
    decreases |gap|
  {
    if gap == [] {
      assert gap + t == t;
    } else {
      assert (gap + t)[1..] == gap[1..] + t;
      LeadingSpacesOfGap(gap[1..], t);
    }
  }

  /** The first `c` in `x + rest` is the one that starts `rest`, when `x` has none. */
  lemma {:induction false} IndexOfCharAfter(x: string, rest: string, c: char)
    requires c !in x && (rest == [] || rest[0] == c)
    ensures IndexOfChar(x + rest, c) == |x|
    decreases |x|
  {
    if x == [] {
      assert x + rest == rest;
    } else {
      assert (x + rest)[1..] == x[1..] + rest;
      assert x[0] in x;
      IndexOfCharAfter(x[1..], rest, c);
    }
  }

  /** A character missing from a string is missing from each slice of it. */
  lemma CharNotInSlice(x: string, c: char, a: nat, b: nat)
    requires a <= b <= |x| && c !in x
    ensures c !in x[a..b]
  {
    forall k | 0 <= k < b - a ensures x[a..b][k] != c {
      assert x[a..b][k] == x[a + k];
    }
  }

  /** A join starts with its first part. */
  lemma JoinStartsWithFirst(parts: seq<string>, sep: string)
    requires |parts| >= 1
    ensures |parts[0]| <= |Join(parts, sep)| && Join(parts, sep)[..|parts[0]|] == parts[0]
  {
    JoinHoldsParts(parts, sep, 0);
  }

  /** Stripping adds no character. */
  lemma StripLacksChar(x: string, c: char)
    requires c !in x
    ensures c !in Strip(x)
  {
    CharNotInSlice(x, c, LeadingSpaces(x), LeadingSpaces(x) + |Strip(x)|);
  }

  /** Stripping a stripped text padded with whitespace on both sides gives the text back. */
  lemma StripPadded(gap1: string, x: string, gap2: string)
    requires AllSpace(gap1) && AllSpace(gap2) && x != [] && IsStripped(x)
    ensures Strip(gap1 + x + gap2) == x
  {
    var s := gap1 + x + gap2;
    assert s == gap1 + (x + gap2);
    LeadingSpacesOfGap(gap1, x + gap2);
    var t := s[|gap1|..];
    assert t == x + gap2;
    TrailingSpacesOfGap(x, gap2);
    assert t[..|t| - |gap2|] == x;
  }

  lemma {:induction false} TrailingSpacesOfGap(t: string, gap: string)
    requires AllSpace(gap) && t != [] && !IsSpace(t[|t| - 1])
    ensures TrailingSpaces(t + gap) == |gap|
    decreases |gap|
  {
    if gap == [] {
      assert t + gap == t;
    } else {
      var g := gap[..|gap| - 1];
      assert (t + gap)[..|t + gap| - 1] == t + g;
      assert AllSpace(g) by {
        forall i | 0 <= i < |g| ensures IsSpace(g[i]) {
          assert g[i] == gap[i];
        }
      }
      TrailingSpacesOfGap(t, g);
    }
  }

  // ---------------------------------------------------------------------------
  // Digits and blank filtering

  /** The number of ASCII digits at the front of `s`. */
  function DigitRun(s: string): (n: nat)
    ensures n <= |s|
    ensures n < |s| ==> !IsDigit(s[n])
  {
    if |s| > 0 && IsDigit(s[0]) then 1 + DigitRun(s[1..]) else 0
  }

  /** Counting digits across a concatenation: the run of `u + t` only reaches into `t` when all of `u` is digits. */
  lemma {:induction false} DigitRunAppend(u: string, t: string)
    ensures DigitRun(u + t) == if DigitRun(u) < |u| then DigitRun(u) else |u| + DigitRun(t)
    decreases |u|
  {
    if u == [] {
      assert u + t == t;
    } else {
      assert (u + t)[1..] == u[1..] + t;
      DigitRunAppend(u[1..], t);
    }
  }

  /** `Some(s)` unless `s` is empty: the `if x` filter of a comprehension over strings. */
  function NonBlank(s: string): Option<string> {
    if s == [] then None else Some(s)
  }

  /** A run of digits is counted whole. */
  lemma {:induction false} AllDigitsRun(digits: string)
    requires forall i :: 0 <= i < |digits| ==> IsDigit(digits[i])
    ensures DigitRun(digits) == |digits|
    decreases |digits|
  {
    if digits != [] {
      assert forall i :: 0 <= i < |digits[1..]| ==> digits[1..][i] == digits[i + 1];
      AllDigitsRun(digits[1..]);
    }
  }

  /** A line without breaks followed by a break is measured up to that break. */
  lemma LineLengthOfLine(p: string, t: string)
    requires !HasLineBreak(p) && t != [] && IsLineBreak(t[0])
    ensures LineLength(p + t) == |p|
  {
    var s := p + t;
    var n := LineLength(s);
    assert s[|p|] == t[0];
  }

  /** One line, a `\n`, and the rest: the line comes first, then the lines of the rest. */
  lemma SplitLinesCons(p: string, rest: string)
    requires !HasLineBreak(p)
    ensures SplitLines(p + "\n" + rest) == [p] + SplitLines(rest)
  {
    var s := p + "\n" + rest;
    assert s == p + ("\n" + rest);
    LineLengthOfLine(p, "\n" + rest);
    assert s[|p|] == '\n';
    SplitLinesStep(s, |p|);
    assert s[..|p|] == p && s[|p| + 1..] == rest;
  }

  /**
   The converse of `JoinSplitLines`: lines without breaks, the last of them not
   empty, joined with `\n`, are what `splitlines()` gives back.
   */
  lemma {:induction false} SplitLinesOfJoin(lines: seq<string>)
    requires forall i :: 0 <= i < |lines| ==> !HasLineBreak(lines[i])
    requires |lines| > 0 ==> lines[|lines| - 1] != []
    ensures SplitLines(Join(lines, "\n")) == lines
    decreases |lines|
  {
    if |lines| == 1 {
      OneLine(lines[0]);
    } else if |lines| > 1 {
      var p, more := lines[0], lines[1..];
      ConsOfTail(lines);
      JoinCons(p, more, "\n");
      SplitLinesCons(p, Join(more, "\n"));
      LinesTailShape(lines);
      SplitLinesOfJoin(more);
    }
  }

  lemma LinesTailShape(lines: seq<string>)
    requires |lines| > 1 && forall i :: 0 <= i < |lines| ==> !HasLineBreak(lines[i])
    requires lines[|lines| - 1] != []
    ensures forall i :: 0 <= i < |lines[1..]| ==> !HasLineBreak(lines[1..][i])
    ensures lines[1..][|lines[1..]| - 1] != []
  {
    var more := lines[1..];
    forall i | 0 <= i < |more| ensures !HasLineBreak(more[i]) {
      assert more[i] == lines[i + 1];
    }
    assert more[|more| - 1] == lines[|lines| - 1];
  }

  lemma ConsOfTail<T>(xs: seq<T>)
    requires |xs| > 0
    ensures xs == [xs[0]] + xs[1..]
  {
  }

  /** Stripping adds no line break. */
  lemma StripLacksLineBreak(s: string)
    requires !HasLineBreak(s)
    ensures !HasLineBreak(Strip(s))
  {
    var a := LeadingSpaces(s);
    forall j | 0 <= j < |Strip(s)| ensures !IsLineBreak(Strip(s)[j]) {
      assert Strip(s)[j] == s[a + j];
    }
  }

  /** A concatenation starts with its first part. */
  lemma PrefixOfConcat(x: string, y: string)
    ensures |x + y| >= |x| && (x + y)[..|x|] == x
  {
  }

  /** A prefix of a prefix is a prefix. */
  lemma PrefixOfPrefix(m: string, x: string, n: nat)
    requires |x| <= |m| && m[..|x|] == x && n <= |x|
    ensures m[..n] == x[..n]
  {
    assert m[..n] == m[..|x|][..n];
  }
}
