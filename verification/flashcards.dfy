/**
 The flashcard parser of `main.py`: the cleaned reply is cut into blocks at every
 run of two or more newlines, and a block becomes a card when it holds both a
 `Question:` and an `Answer:` field, each read up to the end of its line.
 */
module Flashcards {
  import opened Options
  import opened Strings
  import opened OllamaChat
  import opened Answer

  // ---------------------------------------------------------------------------
  // Blocks: `re.split(r'\n{2,}', output)`

  const BlankLine := "\n\n"

  predicate AllNewlines(s: string) {
    forall i :: 0 <= i < |s| ==> s[i] == '\n'
  }

  /** The first `n` characters of `s` are `\n`. */
  predicate NewlinesBefore(s: string, n: int) {
    0 <= n <= |s| && AllNewlines(s[..n])
  }

  /** `s[lo..hi]` is a slice of `s` made of `\n` only. */
  predicate NewlinesIn(s: string, lo: int, hi: int) {
    0 <= lo <= hi <= |s| && AllNewlines(s[lo..hi])
  }

  /** The number of `\n` at the front of `s`. */
  function NewlineRun(s: string): (n: nat)
    ensures n <= |s|
    ensures NewlinesBefore(s, n)
    ensures n < |s| ==> s[n] != '\n'
  {
    if |s| > 0 && s[0] == '\n' then
      var n := 1 + NewlineRun(s[1..]);
      assert forall i :: 1 <= i < n ==> s[..n][i] == s[1..][..n - 1][i - 1];
      n
    else 0
  }

  /** Where the leftmost blank line of `s` starts, if any. */
  function BlankAt(s: string): (m: Option<nat>)
    ensures m.Some? ==> OccursAt(s, BlankLine, m.value)
  {
    FindFrom(s, BlankLine, 0)
  }

  /** Where the run of newlines starting at `i` ends. */
  function RunEnd(s: string, i: nat): (e: nat)
    requires i <= |s|
    ensures i <= e <= |s|
    ensures NewlinesIn(s, i, e)
    ensures e < |s| ==> s[e] != '\n'
    ensures i < |s| && s[i] == '\n' ==> i < e
  {
    var n := NewlineRun(s[i..]);
    assert s[i..][..n] == s[i..i + n];
    i + n
  }

  /**
   `re.split(r'\n{2,}', s)`: the leftmost run of two or more newlines, taken
   whole, separates one block from the rest, which is split the same way.
   */
  function SplitBlankLines(s: string): (blocks: seq<string>)
    ensures |blocks| >= 1
    decreases |s|
  {
    match BlankAt(s)
    case None => [s]
    case Some(i) =>
      assert s[i] == s[i..i + 2][0];
      [s[..i]] + SplitBlankLines(s[RunEnd(s, i)..])
  }

  /** One step of the split: the text before the leftmost blank line, then the split of what follows its run. */
  lemma SplitBlankLinesStep(s: string, i: nat)
    requires BlankAt(s) == Some(i)
    ensures i < RunEnd(s, i) && SplitBlankLines(s) == [s[..i]] + SplitBlankLines(s[RunEnd(s, i)..])
  {
    assert s[i] == s[i..i + 2][0];
  }

  predicate NoBlankLineIn(bs: seq<string>) {
    forall k :: 0 <= k < |bs| ==> !Contains(bs[k], BlankLine)
  }

  /** No block holds a blank line. */
  lemma {:induction false} BlocksLackBlankLine(s: string)
    ensures NoBlankLineIn(SplitBlankLines(s))
    decreases |s|
  {
    var m := BlankAt(s);
    if m.None? {
      ContainsIffFound(s, BlankLine);
    } else {
      var i := m.value;
      SplitBlankLinesStep(s, i);
      BlocksLackBlankLine(s[RunEnd(s, i)..]);
      FirstBlockLacksBlankLine(s, i);
      ConsLacksBlankLine(s[..i], SplitBlankLines(s[RunEnd(s, i)..]));
    }
  }

  lemma ConsLacksBlankLine(b: string, more: seq<string>)
    requires !Contains(b, BlankLine) && NoBlankLineIn(more)
    ensures NoBlankLineIn([b] + more)
  {
    forall k | 0 < k < |more| + 1 ensures !Contains(([b] + more)[k], BlankLine) {
      assert ([b] + more)[k] == more[k - 1];
    }
  }

  /** The text before the leftmost blank line holds none. */
  lemma FirstBlockLacksBlankLine(s: string, i: nat)
    requires BlankAt(s) == Some(i)
    ensures !Contains(s[..i], BlankLine)
  {
    FindFromFirst(s, BlankLine, 0);
    Patterns.BodyLacksClose(s, "", BlankLine, 0, i);
    assert s[0..i] == s[..i];
  }


  /** A block followed by another does not end in a newline, and a block after another does not start with one. */
  predicate TrimmedAtRuns(bs: seq<string>) {
    && (forall k :: 0 <= k < |bs| - 1 ==> bs[k] == [] || bs[k][|bs[k]| - 1] != '\n')
    && (forall k :: 0 < k < |bs| ==> bs[k] == [] || bs[k][0] != '\n')
  }

  /** The blocks are cut at whole newline runs, so no newline of a separator is left on a block. */
  lemma {:induction false} BlocksTrimmedAtCuts(s: string)
    ensures TrimmedAtRuns(SplitBlankLines(s))
    decreases |s|
  {
    var m := BlankAt(s);
    if m.Some? {
      var i := m.value;
      var e := RunEnd(s, i);
      SplitBlankLinesStep(s, i);
      var bs, more := SplitBlankLines(s), SplitBlankLines(s[e..]);
      BlocksTrimmedAtCuts(s[e..]);
      assert s[i] == s[i..i + 2][0];
      if i > 0 {
        FindFromFirst(s, BlankLine, 0);
        assert !OccursAt(s, BlankLine, i - 1);
        assert s[i - 1..i + 1] == [s[i - 1], s[i]];
        assert bs[0][|bs[0]| - 1] == s[i - 1];
      }
      if e < |s| {
        assert s[e..][0] == s[e];
      }
      forall k | 0 <= k < |bs| - 1 ensures bs[k] == [] || bs[k][|bs[k]| - 1] != '\n' {
        if k > 0 {
          assert bs[k] == more[k - 1];
        }
      }
      forall k | 0 < k < |bs| ensures bs[k] == [] || bs[k][0] != '\n' {
        assert bs[k] == more[k - 1];
      }
    }
  }

  /** Runs of two or more newlines: what `\n{2,}` matches. */
  predicate Separators(gaps: seq<string>) {
    forall k :: 0 <= k < |gaps| ==> |gaps[k]| >= 2 && AllNewlines(gaps[k])
  }

  /** The blocks with the separators between them: `blocks[0] + gaps[0] + blocks[1] + …`. */
  function Weave(blocks: seq<string>, gaps: seq<string>): string
    requires |blocks| == |gaps| + 1
    decreases |gaps|
  {
    if gaps == [] then blocks[0] else blocks[0] + gaps[0] + Weave(blocks[1..], gaps[1..])
  }

  /** The newline runs that `SplitBlankLines` cuts at, in order. */
  function BlankGaps(s: string): seq<string>
    decreases |s|
  {
    match BlankAt(s)
    case None => []
    case Some(i) => assert s[i] == s[i..i + 2][0]; [s[i..RunEnd(s, i)]] + BlankGaps(s[RunEnd(s, i)..])
  }

  /**
   The split loses nothing but its separators: the blocks, with the newline runs
   cut at put back between them, are the text.
   */
  lemma {:induction false} SplitBlankLinesWeave(s: string)
    ensures |BlankGaps(s)| == |SplitBlankLines(s)| - 1
    ensures Separators(BlankGaps(s))
    ensures Weave(SplitBlankLines(s), BlankGaps(s)) == s
    decreases |s|
  {
    var m := BlankAt(s);
    if m.Some? {
      var i := m.value;
      var e := RunEnd(s, i);
      SplitBlankLinesStep(s, i);
      BlankGapsStep(s, i);
      SplitBlankLinesWeave(s[e..]);
      CutIsSeparator(s, i);
      SeparatorsCons(s[i..e], BlankGaps(s[e..]));
      WeaveCons(s[..i], s[i..e], SplitBlankLines(s[e..]), BlankGaps(s[e..]));
      ThreeSlices(s, i, e);
    }
  }

  lemma BlankGapsStep(s: string, i: nat)
    requires BlankAt(s) == Some(i)
    ensures i < RunEnd(s, i) && BlankGaps(s) == [s[i..RunEnd(s, i)]] + BlankGaps(s[RunEnd(s, i)..])
  {
    assert s[i] == s[i..i + 2][0];
  }

  /** The run cut at the leftmost blank line is a separator. */
  lemma CutIsSeparator(s: string, i: nat)
    requires BlankAt(s) == Some(i)
    ensures i < RunEnd(s, i) && Separators([s[i..RunEnd(s, i)]])
  {
    assert s[i] == s[i..i + 2][0];
    assert s[i + 1] == s[i..i + 2][1];
  }

  lemma SeparatorsCons(g: string, gaps: seq<string>)
    requires Separators([g]) && Separators(gaps)
    ensures Separators([g] + gaps)
  {
    assert [g][0] == g;
    forall k | 0 < k < |gaps| + 1 ensures |([g] + gaps)[k]| >= 2 && AllNewlines(([g] + gaps)[k]) {
      assert ([g] + gaps)[k] == gaps[k - 1];
    }
  }

  /** Weaving a block and a separator in front. */
  lemma WeaveCons(b: string, g: string, blocks: seq<string>, gaps: seq<string>)
    requires |blocks| == |gaps| + 1
    ensures Weave([b] + blocks, [g] + gaps) == b + g + Weave(blocks, gaps)
  {
    assert ([b] + blocks)[1..] == blocks && ([g] + gaps)[1..] == gaps;
  }

  lemma ThreeSlices(s: string, i: nat, e: nat)
    requires i <= e <= |s|
    ensures s[..i] + s[i..e] + s[e..] == s
  {
  }

  /** A run of newlines followed by something else is measured whole. */
  lemma {:induction false} NewlineRunOfGap(gap: string, rest: string)
    requires AllNewlines(gap) && (rest == [] || rest[0] != '\n')
    ensures NewlineRun(gap + rest) == |gap|
    decreases |gap|
  {
    if gap != [] {
      assert (gap + rest)[1..] == gap[1..] + rest;
      NewlineRunOfGap(gap[1..], rest);
    } else {
      assert gap + rest == rest;
    }
  }

  /** A block that can stand between blank lines: non-empty, no blank line inside, no newline at either end. */
  predicate Separable(b: string) {
    b != [] && b[0] != '\n' && b[|b| - 1] != '\n' && !Contains(b, BlankLine)
  }

  lemma NewlineRunOfBlank(rest: string)
    requires rest == [] || rest[0] != '\n'
    ensures NewlineRun(BlankLine + rest) == 2
  {
    assert (BlankLine + rest)[1..] == "\n" + rest;
    assert ("\n" + rest)[1..] == rest;
  }

  /** Blocks written one blank line apart are split back out exactly. */
  lemma {:induction false} SplitBlankLinesOfJoin(blocks: seq<string>)
    requires |blocks| >= 1
    requires forall k :: 0 <= k < |blocks| ==> Separable(blocks[k])
    ensures SplitBlankLines(Join(blocks, BlankLine)) == blocks
    decreases |blocks|
  {
    var b := blocks[0];
    if |blocks| == 1 {
      ContainsIffFound(b, BlankLine);
    } else {
      var rest := Join(blocks[1..], BlankLine);
      var s := Join(blocks, BlankLine);
      assert blocks == [b] + blocks[1..];
      JoinCons(b, blocks[1..], BlankLine);
      var t := BlankLine + rest;
      assert s == b + t;
      forall k | 0 <= k < |b| ensures !OccursAt(s, BlankLine, k) {
        if k + 2 <= |b| {
          assert s[k..k + 2] == b[k..k + 2];
          assert !OccursAt(b, BlankLine, k);
        } else {
          assert s[k] == b[k];
        }
      }
      assert s[|b|..|b| + 2] == BlankLine;
      FindLocates(s, BlankLine, 0, |b|);
      JoinStartsWithFirst(blocks[1..], BlankLine);
      assert rest[0] == blocks[1][0];
      assert s[|b|..] == t;
      NewlineRunOfBlank(rest);
      assert RunEnd(s, |b|) == |b| + 2;
      SplitBlankLinesStep(s, |b|);
      assert s[|b| + 2..] == t[2..] == rest;
      SplitBlankLinesOfJoin(blocks[1..]);
      assert s[..|b|] == b;
    }
  }

  /**
   Blocks separated by newline runs of any length of at least two are split back
   out exactly, with those runs as the cuts.
   */
  lemma {:induction false} SplitBlankLinesOfWeave(blocks: seq<string>, gaps: seq<string>)
    requires |blocks| == |gaps| + 1 && Separators(gaps)
    requires forall k :: 0 <= k < |blocks| ==> Separable(blocks[k])
    ensures SplitBlankLines(Weave(blocks, gaps)) == blocks
    decreases |gaps|
  {
    if gaps == [] {
      ContainsIffFound(blocks[0], BlankLine);
    } else {
      var b, g := blocks[0], gaps[0];
      var rest := Weave(blocks[1..], gaps[1..]);
      assert Separable(b) && Separable(blocks[1]);
      assert |g| >= 2 && AllNewlines(g);
      WeaveStartsWithFirst(blocks[1..], gaps[1..]);
      assert Weave(blocks, gaps) == b + g + rest;
      FirstCutOfWeave(b, g, rest);
      SplitBlankLinesStep(b + g + rest, |b|);
      SplitBlankLinesOfWeave(blocks[1..], gaps[1..]);
    }
  }

  /** After a separable block and a separator, the leftmost blank line is at the separator, and its whole run is cut. */
  lemma FirstCutOfWeave(b: string, g: string, rest: string)
    requires Separable(b) && |g| >= 2 && AllNewlines(g) && (rest == [] || rest[0] != '\n')
    ensures var s := b + g + rest;
      && BlankAt(s) == Some(|b|) && RunEnd(s, |b|) == |b| + |g|
      && s[..|b|] == b && s[|b| + |g|..] == rest
  {
    var s := b + g + rest;
    var t := g + rest;
    assert s == b + t;
    assert g[0] == '\n' && g[1] == '\n';
    forall k | 0 <= k < |b| ensures !OccursAt(s, BlankLine, k) {
      if k + 2 <= |b| {
        assert s[k..k + 2] == b[k..k + 2];
        assert !OccursAt(b, BlankLine, k);
      } else {
        assert s[k] == b[k];
      }
    }
    assert s[|b|..|b| + 2] == BlankLine;
    FindLocates(s, BlankLine, 0, |b|);
    assert s[|b|..] == t;
    NewlineRunOfGap(g, rest);
    assert s[|b| + |g|..] == rest;
  }

  /** A woven text starts with the first character of its first block. */
  lemma WeaveStartsWithFirst(blocks: seq<string>, gaps: seq<string>)
    requires |blocks| == |gaps| + 1 && blocks[0] != []
    ensures Weave(blocks, gaps) != [] && Weave(blocks, gaps)[0] == blocks[0][0]
  {
    if gaps != [] {
      assert Weave(blocks, gaps) == blocks[0] + (gaps[0] + Weave(blocks[1..], gaps[1..]));
    }
  }

  // ---------------------------------------------------------------------------
  // Fields: `re.search(label + r"\s*(.+)", card, re.IGNORECASE)`

  const QuestionLabel := "Question:"

  const AnswerLabel := "Answer:"

  /** ASCII case folding: what `re.IGNORECASE` does to the letters of the labels. */
  function Fold(c: char): char {
    if 'A' <= c <= 'Z' then (c as int + 32) as char else c
  }

  /** `key` occurs at `p`, letters compared without regard to case. */
  predicate LabelAt(s: string, key: string, p: int) {
    0 <= p && p + |key| <= |s| && forall i :: 0 <= i < |key| ==> Fold(s[p + i]) == Fold(key[i])
  }

  /** The first position at or after `from` where `key` occurs, ignoring case. */
  function FindLabel(s: string, key: string, from: nat): (r: Option<nat>)
    ensures r.Some? ==> from <= r.value && LabelAt(s, key, r.value)
    decreases |s| - from
  {
    if from + |key| > |s| then None
    else if LabelAt(s, key, from) then Some(from)
    else FindLabel(s, key, from + 1)
  }

  /** Where `re.search` finds the label in the block: its first occurrence. */
  function FirstLabel(card: string, key: string): (r: Option<nat>)
    ensures r.Some? ==> LabelAt(card, key, r.value)
  {
    FindLabel(card, key, 0)
  }

  /** The search finds the first label: there is none between `from` and the result, nor after `from` when nothing is found. */
  lemma {:induction false} FindLabelFirst(s: string, key: string, from: nat)
    ensures forall j :: from <= j && (FindLabel(s, key, from).None? || j < FindLabel(s, key, from).value) ==> !LabelAt(s, key, j)
    decreases |s| - from
  {
    if from + |key| <= |s| && !LabelAt(s, key, from) {
      FindLabelFirst(s, key, from + 1);
    }
  }

  /** A search from `from` stops at `n` when the label occurs there and nowhere in between. */
  lemma {:induction false} FindLabelLocates(s: string, key: string, from: nat, n: nat)
    requires from <= n && LabelAt(s, key, n)
    requires forall k :: from <= k < n ==> !LabelAt(s, key, k)
    ensures FindLabel(s, key, from) == Some(n)
    decreases n - from
  {
    if from < n {
      FindLabelLocates(s, key, from + 1, n);
    }
  }

  /** What `.+` takes from the front of `s`: everything up to the first newline. */
  function RestOfLine(s: string): (line: string)
    ensures '\n' !in line
    ensures |line| <= |s| && line == s[..|line|]
    ensures |line| < |s| ==> s[|line|] == '\n'
  {
    s[..IndexOfChar(s, '\n')]
  }

  predicate HasNonNewline(s: string) {
    exists i | 0 <= i < |s| :: s[i] != '\n'
  }

  /**
   The stripped group 1 of `re.search(label + r"\s*(.+)", card, re.IGNORECASE)`.
   The search settles on the first label: `\s*` takes the whitespace after it
   greedily, and `(.+)` the rest of that line. When the whitespace runs to the end
   of the block, the engine backtracks and `(.+)` takes a single trailing
   non-newline whitespace character, which strips to the empty string; when
   nothing but newlines follows, there is no match at all.
   */
  function FieldValue(card: string, key: string): (v: Option<string>)
    ensures v.Some? ==> IsStripped(v.value) && '\n' !in v.value
    ensures v.Some? ==> exists p :: LabelAt(card, key, p)
  {
    match FirstLabel(card, key)
    case None => None
    case Some(p) => FieldAfter(card, p + |key|)
  }

  /** Where `\s*` stops when it is matched greedily from `q`. */
  function GapEnd(card: string, q: nat): (e: nat)
    requires q <= |card|
    ensures q <= e <= |card|
    ensures AllSpaceIn(card, q, e)
    ensures e < |card| ==> !IsSpace(card[e])
  {
    var n := LeadingSpaces(card[q..]);
    assert card[q..][..n] == card[q..q + n];
    q + n
  }

  /** `\s*(.+)` matched from `q`, the end of the label, with the group stripped. */
  function FieldAfter(card: string, q: nat): (v: Option<string>)
    requires q <= |card|
    ensures v.Some? ==> IsStripped(v.value) && '\n' !in v.value
  {
    var e := GapEnd(card, q);
    if e < |card| then
      var line := RestOfLine(card[e..]);
      StripLacksChar(line, '\n');
      Some(Strip(line))
    else if HasNonNewline(card[q..]) then Some("")
    else None
  }

  /** `key` occurs and is followed, after nothing but whitespace, by a character other than a newline. */
  ghost predicate FieldMatches(card: string, key: string) {
    exists p, j :: LabelAt(card, key, p) && p + |key| <= j < |card| && AllSpace(card[p + |key|..j]) && card[j] != '\n'
  }

  /** The search succeeds exactly when the pattern can match somewhere in the block. */
  lemma FieldFoundIff(card: string, key: string)
    ensures FieldValue(card, key).Some? <==> FieldMatches(card, key)
  {
    if FieldMatches(card, key) {
      var p, j :| LabelAt(card, key, p) && p + |key| <= j < |card| && AllSpace(card[p + |key|..j]) && card[j] != '\n';
      FieldFoundAt(card, key, p, j);
    }
    if FieldValue(card, key).Some? {
      FieldMatchesWhenFound(card, key);
    }
  }

  /** A label with a non-newline somewhere after it is enough: the first label then matches. */
  lemma FieldFoundAt(card: string, key: string, p: nat, j: nat)
    requires LabelAt(card, key, p) && p + |key| <= j < |card| && card[j] != '\n'
    ensures FieldValue(card, key).Some?
  {
    FindLabelFirst(card, key, 0);
    var q := FirstLabel(card, key).value + |key|;
    FieldValueVia(card, key, q - |key|);
    FieldAfterSome(card, q, j);
  }

  lemma FieldMatchesWhenFound(card: string, key: string)
    requires FieldValue(card, key).Some?
    ensures FieldMatches(card, key)
  {
    var p := FirstLabel(card, key).value;
    FieldValueVia(card, key, p);
    var j := FieldAfterWitness(card, p + |key|);
    assert LabelAt(card, key, p) && p + |key| <= j < |card| && AllSpace(card[p + |key|..j]) && card[j] != '\n';
  }

  /** The field is read after the first label. */
  lemma FieldValueVia(card: string, key: string, p: nat)
    requires FirstLabel(card, key) == Some(p)
    ensures FieldValue(card, key) == FieldAfter(card, p + |key|)
  {
  }

  /** `\s*(.+)` matches from `q` when some non-newline follows. */
  lemma FieldAfterSome(card: string, q: nat, j: nat)
    requires q <= j < |card| && card[j] != '\n'
    ensures FieldAfter(card, q).Some?
  {
    if GapEnd(card, q) >= |card| {
      assert card[q..][j - q] == card[j];
    }
  }

  /** When `\s*(.+)` matches from `q`, only whitespace separates `q` from some non-newline. */
  lemma FieldAfterWitness(card: string, q: nat) returns (j: nat)
    requires q <= |card| && FieldAfter(card, q).Some?
    ensures q <= j < |card| && AllSpace(card[q..j]) && card[j] != '\n'
  {
    var e := GapEnd(card, q);
    if e < |card| {
      j := e;
    } else {
      var i :| 0 <= i < |card[q..]| && card[q..][i] != '\n';
      j := q + i;
      assert card[j] != '\n';
      forall k | 0 <= k < i ensures IsSpace(card[q..j][k]) {
        assert card[q..j][k] == card[q..e][k];
      }
    }
  }

  /**
   In `pre + key + gap + value + rest`, where the key does not start inside
   `pre`, `gap` is whitespace, `value` is a stripped one-line text not starting
   with whitespace, and `rest` is empty or starts a new line, the field is `value`.
   */
  lemma FieldOfCard(pre: string, key: string, gap: string, value: string, rest: string)
    requires forall k :: 0 <= k < |pre| ==> !LabelAt(pre + key, key, k)
    requires AllSpace(gap)
    requires value != [] && IsStripped(value) && '\n' !in value
    requires rest == [] || rest[0] == '\n'
    ensures FieldValue(pre + key + gap + value + rest, key) == Some(value)
  {
    var card := pre + key + gap + value + rest;
    var t := gap + value + rest;
    assert card == pre + key + t;
    FirstLabelAfter(pre, key, t);
    assert card[|pre| + |key|..] == t;
    FieldAt(card, key, |pre|, gap, value, rest);
  }

  lemma FieldAt(card: string, key: string, p: nat, gap: string, value: string, rest: string)
    requires FirstLabel(card, key) == Some(p)
    requires p + |key| <= |card| && card[p + |key|..] == gap + value + rest
    requires AllSpace(gap)
    requires value != [] && IsStripped(value) && '\n' !in value
    requires rest == [] || rest[0] == '\n'
    ensures FieldValue(card, key) == Some(value)
  {
    FieldValueVia(card, key, p);
    FieldAfterGap(card, p + |key|, gap, value, rest);
  }

  /** After the label, whitespace and then a stripped one-line value: the field is that value. */
  lemma FieldAfterGap(card: string, q: nat, gap: string, value: string, rest: string)
    requires q <= |card| && card[q..] == gap + value + rest
    requires AllSpace(gap)
    requires value != [] && IsStripped(value) && '\n' !in value
    requires rest == [] || rest[0] == '\n'
    ensures FieldAfter(card, q) == Some(value)
  {
    var e := q + |gap|;
    assert GapEnd(card, q) == e && e < |card| && card[e..] == value + rest by {
      assert card[q..] == gap + (value + rest);
      LeadingSpacesOfGap(gap, value + rest);
    }
    assert Strip(RestOfLine(card[e..])) == value by {
      FieldLine(card, e, value, rest);
    }
  }

  /** With no label starting inside `pre`, the field of `pre + key + t` is read after the key that follows `pre`. */
  lemma FirstLabelAfter(pre: string, key: string, t: string)
    requires forall k :: 0 <= k < |pre| ==> !LabelAt(pre + key, key, k)
    ensures FirstLabel(pre + key + t, key) == Some(|pre|)
  {
    var card := pre + key + t;
    forall k | 0 <= k < |pre| ensures !LabelAt(card, key, k) {
      assert !LabelAt(pre + key, key, k);
      assert card[k..k + |key|] == (pre + key)[k..k + |key|];
    }
    assert card[|pre|..|pre| + |key|] == key;
    FindLabelLocates(card, key, 0, |pre|);
  }

  /** `(.+)` starting at `e` on `value + rest` takes the line `value`, which strips to itself. */
  lemma FieldLine(card: string, e: nat, value: string, rest: string)
    requires e <= |card| && card[e..] == value + rest
    requires value != [] && IsStripped(value) && '\n' !in value
    requires rest == [] || rest[0] == '\n'
    ensures Strip(RestOfLine(card[e..])) == value
  {
    IndexOfCharAfter(value, rest, '\n');
    StripKeepsStripped(value);
  }

  // ---------------------------------------------------------------------------
  // Cards

  datatype Card = Card(question: string, answer: string)

  /** `{"question": ..., "answer": ...}` when both searches match, otherwise nothing. */
  function CardOf(block: string): (c: Option<Card>)
    ensures c.Some? ==> IsStripped(c.value.question) && '\n' !in c.value.question
    ensures c.Some? ==> IsStripped(c.value.answer) && '\n' !in c.value.answer
  {
    var q := FieldValue(block, QuestionLabel);
    var a := FieldValue(block, AnswerLabel);
    if q.Some? && a.Some? then Some(Card(q.value, a.value)) else None
  }

  /** A block makes a card exactly when both patterns can match in it. */
  lemma CardOfIff(block: string)
    ensures CardOf(block).Some? <==> FieldMatches(block, QuestionLabel) && FieldMatches(block, AnswerLabel)
  {
    FieldFoundIff(block, QuestionLabel);
    FieldFoundIff(block, AnswerLabel);
  }

  /**
   A block in the format the prompt asks for, `Question: q` on one line and
   `Answer: a` on the next, gives the card `(q, a)`, provided the question does
   not itself hold the answer label.
   */
  lemma CardOfPromptFormat(q: string, a: string)
    requires q != [] && IsStripped(q) && '\n' !in q
    requires a != [] && IsStripped(a) && '\n' !in a
    requires forall k :: 0 <= k < |q| ==> !LabelAt(q + "\n" + AnswerLabel, AnswerLabel, k)
    ensures CardOf("Question: " + q + "\nAnswer: " + a) == Some(Card(q, a))
  {
    PromptQuestion(q, a);
    PromptAnswer(q, a);
  }

  lemma PromptLiterals()
    ensures "Question: " == QuestionLabel + " "
    ensures "\nAnswer: " == "\n" + AnswerLabel + " "
  {
  }

  lemma PromptQuestion(q: string, a: string)
    requires q != [] && IsStripped(q) && '\n' !in q
    ensures FieldValue("Question: " + q + "\nAnswer: " + a, QuestionLabel) == Some(q)
  {
    PromptLiterals();
    var rest := "\n" + AnswerLabel + " " + a;
    assert "Question: " + q + "\nAnswer: " + a == [] + QuestionLabel + " " + q + rest;
    FieldOfCard([], QuestionLabel, " ", q, rest);
  }

  lemma PromptAnswer(q: string, a: string)
    requires a != [] && IsStripped(a) && '\n' !in a
    requires forall k :: 0 <= k < |q| ==> !LabelAt(q + "\n" + AnswerLabel, AnswerLabel, k)
    ensures FieldValue("Question: " + q + "\nAnswer: " + a, AnswerLabel) == Some(a)
  {
    PromptLiterals();
    var pre := "Question: " + q + "\n";
    var x := pre + AnswerLabel + " " + a;
    assert "Question: " + q + "\nAnswer: " + a == x + [];
    NoAnswerLabelBefore(q);
    FieldOfCard(pre, AnswerLabel, " ", a, []);
  }

  /** The answer label cannot start inside `Question: q` and its line break. */
  lemma NoAnswerLabelBefore(q: string)
    requires forall k :: 0 <= k < |q| ==> !LabelAt(q + "\n" + AnswerLabel, AnswerLabel, k)
    ensures var pre := "Question: " + q + "\n";
      forall k :: 0 <= k < |pre| ==> !LabelAt(pre + AnswerLabel, AnswerLabel, k)
  {
    var pre := "Question: " + q + "\n";
    var u := pre + AnswerLabel;
    forall k | 0 <= k < |pre| ensures !LabelAt(u, AnswerLabel, k) {
      if k < 10 {
        assert u[k] == "Question: "[k];
        assert Fold(u[k + 0]) != Fold(AnswerLabel[0]);
      } else if k < 10 + |q| {
        var v := q + "\n" + AnswerLabel;
        assert !LabelAt(v, AnswerLabel, k - 10);
        forall i | k <= i < k + |AnswerLabel| ensures u[i] == v[i - 10] {
        }
      } else {
        assert u[k] == '\n';
        assert Fold(u[k + 0]) != Fold(AnswerLabel[0]);
      }
    }
  }

  /** What each block parses to. */
  function ParseBlocks(blocks: seq<string>): (r: seq<Option<Card>>)
    ensures |r| == |blocks|
    ensures forall i :: 0 <= i < |blocks| ==> r[i] == CardOf(blocks[i])
  {
    seq(|blocks|, i requires 0 <= i < |blocks| => CardOf(blocks[i]))
  }

  /** The cards of the blocks that have both fields, in block order. */
  function Cards(blocks: seq<string>): (cards: seq<Card>)
    ensures |cards| <= |blocks|
  {
    Somes(ParseBlocks(blocks))
  }

  /** Parsing keeps block order: the cards of two runs of blocks are the cards of each, one after the other. */
  lemma CardsAppend(xs: seq<string>, ys: seq<string>)
    ensures Cards(xs + ys) == Cards(xs) + Cards(ys)
  {
    assert ParseBlocks(xs + ys) == ParseBlocks(xs) + ParseBlocks(ys);
    SomesAppend(ParseBlocks(xs), ParseBlocks(ys));
  }

  /** A card is produced exactly when some block parses to it: none is invented and none is lost. */
  lemma CardsMembership(blocks: seq<string>, c: Card)
    ensures c in Cards(blocks) <==> exists i :: 0 <= i < |blocks| && CardOf(blocks[i]) == Some(c)
  {
    var parsed := ParseBlocks(blocks);
    SomesMembership(parsed, c);
    if c in Cards(blocks) {
      var i :| 0 <= i < |parsed| && parsed[i] == Some(c);
      assert CardOf(blocks[i]) == Some(c);
    }
  }

  /** The flashcards shown for a reply: the cards of the blocks of its cleaned answer text. */
  function FlashcardsOf(reply: Reply): seq<Card> {
    Cards(SplitBlankLines(AnswerText(ReplyText(reply))))
  }

  /** A reply whose answer is blocks one blank line apart yields the cards of exactly those blocks. */
  lemma FlashcardsOfBlocks(reply: Reply, blocks: seq<string>)
    requires |blocks| >= 1 && forall k :: 0 <= k < |blocks| ==> Separable(blocks[k])
    requires AnswerText(ReplyText(reply)) == Join(blocks, BlankLine)
    ensures FlashcardsOf(reply) == Cards(blocks)
  {
    SplitBlankLinesOfJoin(blocks);
  }
}
