/**
 The quiz parser of `main.py`: the cleaned reply is cut before every line that
 starts with a number and a dot; in each block the first line is the question,
 with bold markers removed, and every other line that still says something once
 the correct-answer marker and all hyphens are gone is an option.
 */
module Quiz {
  import opened Options
  import opened Strings
  import opened Patterns
  import opened OllamaChat
  import opened Answer

  // ---------------------------------------------------------------------------
  // Blocks: `re.split(r'\n(?=\d+\.)', text)`

  /** `\d+\.` matches at `k`: at least one digit and then a dot. */
  predicate NumberedAt(s: string, k: int) {
    0 <= k <= |s| && DigitRun(s[k..]) > 0 && k + DigitRun(s[k..]) < |s| && s[k + DigitRun(s[k..])] == '.'
  }

  /** The separator matches at `i`: a newline followed by a numbered line. */
  predicate IsBreak(s: string, i: int) {
    0 <= i < |s| && s[i] == '\n' && NumberedAt(s, i + 1)
  }

  /** The first separator at or after `from`. */
  function FindBreak(s: string, from: nat): (r: Option<nat>)
    ensures r.Some? ==> from <= r.value && IsBreak(s, r.value)
    ensures forall j :: from <= j && (r.None? || j < r.value) ==> !IsBreak(s, j)
    decreases |s| - from
  {
    if from >= |s| then None
    else if IsBreak(s, from) then Some(from)
    else FindBreak(s, from + 1)
  }

  /**
   `re.split(r'\n(?=\d+\.)', s)`: cut at every newline that is followed by a
   number and a dot; the newline is dropped, the number stays with the next block.
   */
  function SplitQuestions(s: string): (blocks: seq<string>)
    ensures |blocks| >= 1
    decreases |s|
  {
    match FirstBreak(s)
    case None => [s]
    case Some(i) => [s[..i]] + SplitQuestions(s[i + 1..])
  }

  /** The first separator of the text, if any. */
  function FirstBreak(s: string): (r: Option<nat>)
    ensures r.Some? ==> IsBreak(s, r.value)
  {
    FindBreak(s, 0)
  }

  lemma SplitQuestionsStep(s: string, i: nat)
    requires FirstBreak(s) == Some(i)
    ensures SplitQuestions(s) == [s[..i]] + SplitQuestions(s[i + 1..])
  {
  }

  /** Nothing is lost: joining the blocks with newlines gives the text back. */
  lemma {:induction false} JoinSplitQuestions(s: string)
    ensures Join(SplitQuestions(s), "\n") == s
    decreases |s|
  {
    var m := FindBreak(s, 0);
    if m.Some? {
      var i := m.value;
      JoinSplitQuestions(s[i + 1..]);
      JoinCons(s[..i], SplitQuestions(s[i + 1..]), "\n");
      NewlineSplit(s, i);
    }
  }

  predicate LaterNumbered(bs: seq<string>) {
    forall k :: 0 < k < |bs| ==> NumberedAt(bs[k], 0)
  }

  /** Every block after the first starts with a number and a dot. */
  lemma {:induction false} BlocksStartNumbered(s: string)
    ensures LaterNumbered(SplitQuestions(s))
    decreases |s|
  {
    match FirstBreak(s)
    case None =>
    case Some(i) =>
      var rest := s[i + 1..];
      SplitQuestionsStep(s, i);
      BlocksStartNumbered(rest);
      RestStartsNumbered(s, i);
      NumberedPrefix(rest, SplitQuestions(rest)[0]);
      ConsNumbered(s[..i], SplitQuestions(rest));
  }

  /** What follows a separator starts with a number and a dot. */
  lemma RestStartsNumbered(s: string, i: nat)
    requires IsBreak(s, i)
    ensures NumberedAt(s[i + 1..], 0)
  {
    var rest := s[i + 1..];
    assert rest[0..] == rest == s[i + 1..];
  }

  lemma ConsNumbered(b: string, more: seq<string>)
    requires |more| >= 1 && LaterNumbered(more) && NumberedAt(more[0], 0)
    ensures LaterNumbered([b] + more)
  {
    var bs := [b] + more;
    forall k | 0 < k < |bs| ensures NumberedAt(bs[k], 0) {
      assert bs[k] == more[k - 1];
    }
  }

  /** The first block is the text up to the first separator. */
  lemma SplitQuestionsFirstIsPrefix(s: string)
    ensures |SplitQuestions(s)[0]| <= |s| && SplitQuestions(s)[0] == s[..|SplitQuestions(s)[0]|]
    ensures |SplitQuestions(s)[0]| < |s| ==> IsBreak(s, |SplitQuestions(s)[0]|)
  {
  }

  /**
   A text starting with a number and a dot keeps that start in its first block:
   the block reaches at least past the dot, which no separator precedes.
   */
  lemma NumberedPrefix(s: string, b: string)
    requires NumberedAt(s, 0) && b == SplitQuestions(s)[0]
    ensures NumberedAt(b, 0)
  {
    SplitQuestionsFirstIsPrefix(s);
    var n := DigitRun(s);
    assert s[0..] == s;
    assert |b| > n by {
      if |b| <= n {
        // the character at `|b|` would be a separator's newline, yet it is a digit or the dot
        assert IsBreak(s, |b|);
        if |b| < n {
          DigitsBeforeRun(s, |b|);
        }
      }
    }
    var rest := s[|b|..];
    assert s == b + rest;
    DigitRunAppend(b, rest);
    assert b[0..] == b;
    assert b[n] == s[n];
  }

  /** Every character before the end of the digit run is a digit. */
  lemma {:induction false} DigitsBeforeRun(s: string, k: nat)
    requires k < DigitRun(s)
    ensures IsDigit(s[k])
    decreases k
  {
    if k > 0 {
      DigitsBeforeRun(s[1..], k - 1);
    }
  }

  predicate NoBreakIn(b: string) {
    forall j :: 0 <= j < |b| ==> !IsBreak(b, j)
  }

  predicate NoBlockBreaks(bs: seq<string>) {
    forall k :: 0 <= k < |bs| ==> NoBreakIn(bs[k])
  }

  /** A separator inside the prefix `s[..i]` is a separator in `s`. */
  lemma BreakInPrefix(s: string, i: nat, j: nat)
    requires i <= |s| && IsBreak(s[..i], j)
    ensures IsBreak(s, j)
  {
    var t := s[..i];
    var u := t[j + 1..];
    assert s[j + 1..] == u + s[i..];
    DigitRunAppend(u, s[i..]);
  }

  /** The split is complete: no block holds a separator of its own. */
  lemma {:induction false} BlocksHaveNoBreak(s: string)
    ensures NoBlockBreaks(SplitQuestions(s))
    decreases |s|
  {
    var m := FindBreak(s, 0);
    if m.Some? {
      var i := m.value;
      var bs, more := SplitQuestions(s), SplitQuestions(s[i + 1..]);
      assert bs == [s[..i]] + more;
      BlocksHaveNoBreak(s[i + 1..]);
      forall j | 0 <= j < i ensures !IsBreak(s[..i], j) {
        if IsBreak(s[..i], j) {
          BreakInPrefix(s, i, j);
        }
      }
      forall k | 0 <= k < |bs| ensures NoBreakIn(bs[k]) {
        if k > 0 {
          assert bs[k] == more[k - 1];
        }
      }
    }
  }

  lemma FindBreakLocates(s: string, from: nat, n: nat)
    requires from <= n && IsBreak(s, n)
    requires forall k :: from <= k < n ==> !IsBreak(s, k)
    ensures FindBreak(s, from) == Some(n)
  {
  }

  /**
   A newline joining `b` to what follows cannot be preceded by a separator that
   `b` does not already hold: the number it would need runs into the newline.
   */
  lemma NoBreakBeforeJoint(b: string, t: string, j: nat)
    requires j < |b| && NoBreakIn(b) && t != [] && t[0] == '\n'
    ensures !IsBreak(b + t, j)
  {
    var s := b + t;
    var u := b[j + 1..];
    assert s[j + 1..] == u + t;
    DigitRunAppend(u, t);
    assert !IsBreak(b, j);
    if DigitRun(u) < |u| {
      assert s[j + 1 + DigitRun(u)] == b[j + 1 + DigitRun(u)];
    } else {
      assert s[j + 1 + |u|] == t[0];
    }
  }

  /**
   The converse of the split: blocks that hold no separator, each after the first
   starting with a number and a dot, are recovered from their newline join.
   */
  lemma {:induction false} SplitQuestionsOfJoin(blocks: seq<string>)
    requires |blocks| >= 1 && LaterNumbered(blocks) && NoBlockBreaks(blocks)
    ensures SplitQuestions(Join(blocks, "\n")) == blocks
    decreases |blocks|
  {
    if |blocks| > 1 {
      var s := Join(blocks, "\n");
      JoinBreaksAfterFirst(blocks);
      SplitQuestionsStep(s, |blocks[0]|);
      TailKeepsShape(blocks);
      SplitQuestionsOfJoin(blocks[1..]);
      ConsOfTail(blocks);
    } else {
      assert NoBreakIn(blocks[0]);
    }
  }

  lemma TailKeepsShape(blocks: seq<string>)
    requires |blocks| > 1 && LaterNumbered(blocks) && NoBlockBreaks(blocks)
    ensures LaterNumbered(blocks[1..]) && NoBlockBreaks(blocks[1..])
  {
    forall k | 0 < k < |blocks[1..]| ensures NumberedAt(blocks[1..][k], 0) {
      assert blocks[1..][k] == blocks[k + 1];
    }
  }

  /** In the join, the first separator is the newline after the first block. */
  lemma JoinBreaksAfterFirst(blocks: seq<string>)
    requires |blocks| > 1 && LaterNumbered(blocks) && NoBlockBreaks(blocks)
    ensures var b, s := blocks[0], Join(blocks, "\n");
      && FirstBreak(s) == Some(|b|)
      && s[..|b|] == b && s[|b| + 1..] == Join(blocks[1..], "\n")
  {
    var b, rest := blocks[0], Join(blocks[1..], "\n");
    var s := Join(blocks, "\n");
    JoinAroundFirst(blocks);
    NoBreakBeforeFirstJoint(b, "\n" + rest, blocks);
    assert NumberedAt(blocks[1], 0);
    JoinStartsNumbered(blocks[1..]);
    BreakAtJoint(b, rest);
    FindBreakLocates(s, 0, |b|);
  }

  /** The join is the first block, a newline, and the join of the others. */
  lemma JoinAroundFirst(blocks: seq<string>)
    requires |blocks| > 1
    ensures var b, rest, s := blocks[0], Join(blocks[1..], "\n"), Join(blocks, "\n");
      && s == b + ("\n" + rest) && s[..|b|] == b && s[|b| + 1..] == rest
  {
    var b, rest := blocks[0], Join(blocks[1..], "\n");
    ConsOfTail(blocks);
    JoinCons(b, blocks[1..], "\n");
    assert (b + ("\n" + rest))[|b| + 1..] == rest;
  }

  lemma NoBreakBeforeFirstJoint(b: string, t: string, blocks: seq<string>)
    requires |blocks| > 1 && NoBlockBreaks(blocks) && b == blocks[0]
    requires t != [] && t[0] == '\n'
    ensures forall j :: 0 <= j < |b| ==> !IsBreak(b + t, j)
  {
    assert NoBreakIn(b);
    forall j | 0 <= j < |b| ensures !IsBreak(b + t, j) {
      NoBreakBeforeJoint(b, t, j);
    }
  }

  /** A join whose first block starts with a number and a dot starts with them too. */
  lemma JoinStartsNumbered(bs: seq<string>)
    requires |bs| >= 1 && NumberedAt(bs[0], 0)
    ensures NumberedAt(Join(bs, "\n"), 0)
  {
    var first, rest := bs[0], Join(bs, "\n");
    JoinStartsWithFirst(bs, "\n");
    assert rest == first + rest[|first|..];
    assert first[0..] == first;
    DigitRunAppend(first, rest[|first|..]);
    assert rest[0..] == rest;
  }

  /** A newline followed by a number and a dot is a separator. */
  lemma BreakAtJoint(b: string, rest: string)
    requires NumberedAt(rest, 0)
    ensures IsBreak(b + ("\n" + rest), |b|)
  {
    var s := b + ("\n" + rest);
    assert s[|b| + 1..] == rest;
    assert s[|b|] == '\n';
  }

  // ---------------------------------------------------------------------------
  // Questions and options

  const Bold := "**"

  /** `re.sub(r"\*\*(.*?)\*\*", r"\1", line).strip()`: the first line with bold markers removed. */
  function QuestionText(line: string): (q: string)
    ensures IsStripped(q)
    ensures |q| <= |line|
    ensures !HasPair(line, Bold, Bold) ==> q == Strip(line)
  {
    RemovePairsShrinks(line, Bold, Bold, true);
    Strip(RemovePairs(line, Bold, Bold, true))
  }

  /** A bold span whose text holds no asterisk loses its markers and keeps its text. */
  lemma RemoveBoldPair(pre: string, x: string, post: string)
    requires '*' !in pre && '*' !in x
    ensures RemovePairs(pre + Bold + x + Bold + post, Bold, Bold, true) == pre + x + RemovePairs(post, Bold, Bold, true)
  {
    var s := pre + Bold + x + Bold + post;
    var i, j := |pre|, |pre| + 2 + |x|;
    assert s[0..i] == pre;
    assert s[i + 2..j] == x;
    assert s[i..i + 2] == Bold && s[j..j + 2] == Bold;
    NoOccurrenceWithoutFirstChar(s, Bold, 0, i);
    NoOccurrenceWithoutFirstChar(s, Bold, i + 2, j);
    FirstPairAt(s, Bold, Bold, i, j);
    RemovePairsAt(s, Bold, Bold, true, i, j);
    assert s[..i] == pre && s[j + 2..] == post;
  }

  /** A question written `pre**x**` reads as `pre` followed by `x`, stripped. */
  lemma BoldQuestion(pre: string, x: string)
    requires '*' !in pre && '*' !in x
    ensures QuestionText(pre + Bold + x + Bold) == Strip(pre + x)
  {
    RemoveBoldPair(pre, x, []);
    assert pre + Bold + x + Bold + [] == pre + Bold + x + Bold;
    assert RemovePairs([], Bold, Bold, true) == [];
    assert pre + x + [] == pre + x;
  }

  const CorrectMark := "(Correct Answer)"

  /** `re.sub` with a pattern that is a literal: every leftmost occurrence of `pat` is deleted. */
  function RemoveAll(s: string, pat: string): string
    requires |pat| > 0
  {
    Join(Split(s, pat), "")
  }

  /** `s.replace(c, "")` for one character `c`. */
  function DropChar(s: string, c: char): string {
    if s == [] then [] else (if s[0] == c then [] else [s[0]]) + DropChar(s[1..], c)
  }

  /** Nothing of `c` is left, and nothing is added. */
  lemma {:induction false} DropCharLacks(s: string, c: char)
    ensures c !in DropChar(s, c)
    ensures |DropChar(s, c)| <= |s|
  {
    if s != [] {
      DropCharLacks(s[1..], c);
    }
  }

  lemma {:induction false} DropCharAppend(a: string, b: string, c: char)
    ensures DropChar(a + b, c) == DropChar(a, c) + DropChar(b, c)
  {
    if a == [] {
      assert a + b == b;
    } else {
      var ab := a + b;
      assert ab[0] == a[0] && ab[1..] == a[1..] + b;
      DropCharAppend(a[1..], b, c);
      var h := if a[0] == c then [] else [a[0]];
      assert DropChar(ab, c) == h + DropChar(ab[1..], c);
      assert DropChar(a, c) == h + DropChar(a[1..], c);
    }
  }

  /** Deleting a character that does not occur changes nothing. */
  lemma {:induction false} DropCharAbsent(s: string, c: char)
    requires c !in s
    ensures DropChar(s, c) == s
  {
    if s != [] {
      assert s[0] in s;
      assert s[1..] == s[1..];
      assert forall k :: 0 <= k < |s[1..]| ==> s[1..][k] == s[k + 1];
      DropCharAbsent(s[1..], c);
    }
  }

  /**
   `re.sub(r'\(Correct Answer\)', '', line).replace('-', '').strip()`: never holds
   a hyphen and is stripped.
   */
  function CleanOption(line: string): (o: string)
    ensures '-' !in o && IsStripped(o)
  {
    var d := DropChar(RemoveAll(line, CorrectMark), '-');
    DropCharLacks(RemoveAll(line, CorrectMark), '-');
    StripLacksChar(d, '-');
    Strip(d)
  }

  /**
   The option lines the prompt asks for, `- x` and `- x (Correct Answer)`, both
   read as `x`: the bullet, the marker and the padding are removed and the
   correct answer can no longer be told apart.
   */
  lemma MarkedOption(x: string)
    requires x != [] && IsStripped(x) && '-' !in x && '(' !in x
    ensures CleanOption("- " + x) == x
    ensures CleanOption("- " + x + " " + CorrectMark) == x
  {
    PlainOption(x);
    CorrectOption(x);
  }

  lemma PlainOption(x: string)
    requires x != [] && IsStripped(x) && '-' !in x && '(' !in x
    ensures CleanOption("- " + x) == x
  {
    var line := "- " + x;
    assert '(' !in line;
    SplitJoin([line], CorrectMark);
    assert Join([line], CorrectMark) == line;
    assert RemoveAll(line, CorrectMark) == line;
    DashedDrop(x, "");
    assert " " + x + "" == " " + x;
    assert line + "" == line;
    StripPadded(" ", x, "");
  }

  lemma CorrectOption(x: string)
    requires x != [] && IsStripped(x) && '-' !in x && '(' !in x
    ensures CleanOption("- " + x + " " + CorrectMark) == x
  {
    var head := "- " + x + " ";
    assert '(' !in head;
    SplitJoin([head, ""], CorrectMark);
    JoinCons(head, [""], CorrectMark);
    JoinCons(head, [""], "");
    assert [head] + [""] == [head, ""];
    assert head + CorrectMark + "" == "- " + x + " " + CorrectMark;
    assert head + "" + "" == head;
    assert RemoveAll("- " + x + " " + CorrectMark, CorrectMark) == head;
    DashedDrop(x, " ");
    StripPadded(" ", x, " ");
  }

  /** Dropping the hyphens from `- x` followed by spaces leaves the space before `x`, `x` and those spaces. */
  lemma DashedDrop(x: string, pad: string)
    requires '-' !in x && '-' !in pad
    ensures DropChar("- " + x + pad, '-') == " " + x + pad
  {
    assert DropChar("- ", '-') == " " by {
      assert "- "[1..] == " ";
      assert DropChar(" ", '-') == " ";
    }
    DropCharAbsent(x + pad, '-');
    assert "- " + x + pad == "- " + (x + pad);
    DropCharAppend("- ", x + pad, '-');
  }

  /** Each line cleaned, kept only when something is left of it. */
  function CleanedLines(lines: seq<string>): (xs: seq<Option<string>>)
    ensures |xs| == |lines|
    ensures forall i :: 0 <= i < |lines| ==> xs[i] == NonBlank(CleanOption(lines[i]))
  {
    seq(|lines|, i requires 0 <= i < |lines| => NonBlank(CleanOption(lines[i])))
  }

  /** The options of a block: every later line, cleaned, dropped when nothing is left of it. */
  function QuizOptions(lines: seq<string>): (opts: seq<string>)
    ensures |opts| <= |lines|
  {
    Somes(CleanedLines(lines))
  }

  /** An option is exactly the non-empty cleaning of some line. */
  lemma QuizOptionsMembership(lines: seq<string>, o: string)
    ensures o in QuizOptions(lines) <==> o != [] && exists i :: 0 <= i < |lines| && CleanOption(lines[i]) == o
  {
    var xs := CleanedLines(lines);
    SomesMembership(xs, o);
    if o != [] && exists i :: 0 <= i < |lines| && CleanOption(lines[i]) == o {
      var i :| 0 <= i < |lines| && CleanOption(lines[i]) == o;
      assert xs[i] == Some(o);
    }
  }

  /** The options keep the order of the lines: those of two runs of lines are those of each, in turn. */
  lemma QuizOptionsAppend(xs: seq<string>, ys: seq<string>)
    ensures QuizOptions(xs + ys) == QuizOptions(xs) + QuizOptions(ys)
  {
    var a, b, c := CleanedLines(xs + ys), CleanedLines(xs), CleanedLines(ys);
    forall i | 0 <= i < |a| ensures a[i] == (b + c)[i] {
      if i < |xs| {
        assert (xs + ys)[i] == xs[i];
      } else {
        assert (xs + ys)[i] == ys[i - |xs|];
      }
    }
    assert a == b + c;
    SomesAppend(b, c);
  }

  datatype QuizCard = QuizCard(question: string, options: seq<string>)

  /** One quiz block: its stripped text split into lines, the first the question and the rest options. */
  function QuizCardOf(block: string): (c: QuizCard)
    ensures IsStripped(c.question) && '\n' !in c.question
    ensures forall k :: 0 <= k < |c.options| ==> c.options[k] != [] && '-' !in c.options[k]
  {
    var lines := Split(Strip(block), "\n");
    FirstLineLacksNewline(Strip(block));
    var c := QuizCard(QuestionText(lines[0]), QuizOptions(lines[1..]));
    RemovePairsLacksChar(lines[0], Bold, Bold, true, '\n');
    StripLacksChar(RemovePairs(lines[0], Bold, Bold, true), '\n');
    forall k | 0 <= k < |c.options| ensures c.options[k] != [] && '-' !in c.options[k] {
      QuizOptionsMembership(lines[1..], c.options[k]);
    }
    c
  }

  lemma FirstLineLacksNewline(s: string)
    ensures '\n' !in Split(s, "\n")[0]
  {
    SplitPiecesLackSeparator(s, "\n");
    ContainsChar(Split(s, "\n")[0], '\n');
  }

  /**
   A block written as a question line followed by option lines (all without line
   breaks, the whole stripped) has that question and the options of those lines.
   */
  lemma QuizCardOfLines(question: string, optionLines: seq<string>)
    requires '\n' !in question && forall k :: 0 <= k < |optionLines| ==> '\n' !in optionLines[k]
    requires IsStripped(Join([question] + optionLines, "\n"))
    ensures QuizCardOf(Join([question] + optionLines, "\n")) == QuizCard(QuestionText(question), QuizOptions(optionLines))
  {
    var lines := [question] + optionLines;
    var block := Join(lines, "\n");
    StripKeepsStripped(block);
    assert forall k :: 0 <= k < |lines| ==> '\n' !in lines[k] by {
      forall k | 0 <= k < |lines| ensures '\n' !in lines[k] {
        if k > 0 {
          assert lines[k] == optionLines[k - 1];
        }
      }
    }
    SplitJoin(lines, "\n");
    assert lines[1..] == optionLines;
  }

  /** One card per block, in order. */
  function CardsOf(blocks: seq<string>): (cards: seq<QuizCard>)
    ensures |cards| == |blocks|
    ensures forall i :: 0 <= i < |blocks| ==> cards[i] == QuizCardOf(blocks[i])
  {
    seq(|blocks|, i requires 0 <= i < |blocks| => QuizCardOf(blocks[i]))
  }

  /** The quiz shown for a reply: one card per block of its cleaned text. */
  function QuizOf(reply: Reply): (cards: seq<QuizCard>)
    ensures |cards| == |SplitQuestions(AnswerText(reply.full))|
    ensures forall i :: 0 <= i < |cards| ==> cards[i] == QuizCardOf(SplitQuestions(AnswerText(reply.full))[i])
  {
    CardsOf(SplitQuestions(AnswerText(reply.full)))
  }

  /**
   A reply whose cleaned text is numbered questions one line apart gives one card
   per question, in order, each parsed from its own block alone.
   */
  lemma QuizOfQuestions(reply: Reply, blocks: seq<string>)
    requires |blocks| >= 1 && LaterNumbered(blocks) && NoBlockBreaks(blocks)
    requires AnswerText(reply.full) == Join(blocks, "\n")
    ensures QuizOf(reply) == CardsOf(blocks)
  {
    SplitQuestionsOfJoin(blocks);
  }
}
