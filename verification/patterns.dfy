/**
 The two regular-expression shapes the application uses with a lazy body and
 DOTALL: `re.search(open + "(.*?)" + close, s, re.DOTALL)` and the matching
 `re.sub`, for literal `open` and `close` strings. Only these shapes are
 modelled, not a general regex engine.
 */
module Patterns {
  import opened Options
  import opened Strings

  /** Some occurrence of `open` is followed, at or after its end, by an occurrence of `close`. */
  ghost predicate HasPair(s: string, open: string, close: string) {
    exists i, j :: OccursAt(s, open, i) && i + |open| <= j && OccursAt(s, close, j)
  }

  /**
   The first match of `open(.*?)close` under DOTALL, as (start of `open`, start of
   `close`). The leftmost match starts at the first `open` (a `close` after any later
   `open` also follows the first one), and the lazy body stops at the nearest `close`.
   */
  function FirstPair(s: string, open: string, close: string): (r: Option<(nat, nat)>)
    ensures r.Some? ==> OccursAt(s, open, r.value.0)
    ensures r.Some? ==> r.value.0 + |open| <= r.value.1 && OccursAt(s, close, r.value.1)
  {
    match FindFrom(s, open, 0)
    case None => None
    case Some(i) =>
      match FindFrom(s, close, i + |open|)
      case None => None
      case Some(j) => Some((i, j))
  }

  /** The match found is the leftmost one, and its body is the shortest: no `open` before it, no `close` inside it. */
  lemma FirstPairFirst(s: string, open: string, close: string)
    ensures var r := FirstPair(s, open, close);
      r.Some? ==>
        && (forall k :: 0 <= k < r.value.0 ==> !OccursAt(s, open, k))
        && (forall k :: r.value.0 + |open| <= k < r.value.1 ==> !OccursAt(s, close, k))
  {
    FindFromFirst(s, open, 0);
    if FindFrom(s, open, 0).Some? {
      FindFromFirst(s, close, FindFrom(s, open, 0).value + |open|);
    }
  }

  /** The search succeeds exactly when the text holds an `open` with a `close` after it. */
  lemma FirstPairIffHasPair(s: string, open: string, close: string)
    ensures FirstPair(s, open, close).Some? <==> HasPair(s, open, close)
  {
    var r := FirstPair(s, open, close);
    if r.Some? {
      assert OccursAt(s, open, r.value.0) && OccursAt(s, close, r.value.1);
    }
    FindFromFirst(s, open, 0);
    if FindFrom(s, open, 0).Some? {
      FindFromFirst(s, close, FindFrom(s, open, 0).value + |open|);
    }
  }

  /**
   The converse of `FirstPair`'s contract: an `open` at `i` with none before it, and
   a `close` at `j` with none between, is the match found.
   */
  lemma FirstPairAt(s: string, open: string, close: string, i: nat, j: nat)
    requires OccursAt(s, open, i) && forall k :: 0 <= k < i ==> !OccursAt(s, open, k)
    requires i + |open| <= j && OccursAt(s, close, j)
    requires forall k :: i + |open| <= k < j ==> !OccursAt(s, close, k)
    ensures FirstPair(s, open, close) == Some((i, j))
  {
    FindLocates(s, open, 0, i);
    FindLocates(s, close, i + |open|, j);
  }

  /**
   In `pre + open + body + close + post`, with no `open` in `pre`, no `close` in
   `body`, and delimiters that cannot overlap themselves, the first match is the
   one written out, and substitution by nothing keeps `pre` and goes on in `post`.
   */
  lemma PairInComposed(pre: string, open: string, body: string, close: string, post: string)
    requires |open| > 0 && open[0] !in open[1..]
    requires |close| > 0 && close[0] !in close[1..]
    requires !Contains(pre, open) && !Contains(body, close)
    ensures var s := pre + open + body + close + post;
      && FirstPair(s, open, close) == Some((|pre|, |pre| + |open| + |body|))
      && PairBody(s, open, close) == Some(body)
      && RemovePairs(s, open, close, false) == pre + RemovePairs(post, open, close, false)
  {
    var s := pre + open + body + close + post;
    var i, j := |pre|, |pre| + |open| + |body|;
    PiecesOfComposed(pre, open, body, close, post);
    assert FirstPair(s, open, close) == Some((i, j)) by {
      NoOccurrenceBeforeUnbordered(s, open, 0, i);
      NoOccurrenceBeforeUnbordered(s, close, i + |open|, j);
      FirstPairAt(s, open, close, i, j);
    }
    PairBodyAt(s, open, close, i, j);
    RemovePairsAt(s, open, close, false, i, j);
    assert s[..i] + "" == pre;
  }

  /** The body captured by the match at `(i, j)`. */
  lemma PairBodyAt(s: string, open: string, close: string, i: nat, j: nat)
    requires |close| > 0 && FirstPair(s, open, close) == Some((i, j))
    ensures PairBody(s, open, close) == Some(s[i + |open|..j])
  {
  }

  /** The substitution at the match `(i, j)`: keep `s[..i]`, replace the match, go on after it. */
  lemma RemovePairsAt(s: string, open: string, close: string, keepInner: bool, i: nat, j: nat)
    requires |open| > 0 && FirstPair(s, open, close) == Some((i, j))
    ensures j + |close| <= |s|
    ensures RemovePairs(s, open, close, keepInner) ==
      s[..i] + (if keepInner then s[i + |open|..j] else "") + RemovePairs(s[j + |close|..], open, close, keepInner)
  {
    var kept, rest := s[..i] + (if keepInner then s[i + |open|..j] else ""), s[j + |close|..];
    assert PairStep(s, open, close, keepInner) == Step(kept, rest);
    StepUnfold(s, open, close, keepInner, kept, rest);
  }

  lemma PiecesOfComposed(pre: string, open: string, body: string, close: string, post: string)
    ensures var s := pre + open + body + close + post;
      var i, j := |pre|, |pre| + |open| + |body|;
      && s[..i] == pre && s[0..i] == pre && s[i..i + |open|] == open
      && s[i + |open|..j] == body && s[j..j + |close|] == close && s[j + |close|..] == post
  {
    var s := pre + open + body + close + post;
    var i, j := |pre|, |pre| + |open| + |body|;
    assert s == pre + (open + (body + (close + post)));
    assert s[i..] == open + (body + (close + post));
    assert s[i + |open|..] == body + (close + post);
    assert s[j..] == close + post;
  }

  /** The text `(.*?)` captures, when there is a match. */
  function PairBody(s: string, open: string, close: string): (body: Option<string>)
    requires |close| > 0
    ensures body.Some? <==> HasPair(s, open, close)
    ensures body.Some? ==> !Contains(body.value, close)
  {
    FirstPairIffHasPair(s, open, close);
    FirstPairFirst(s, open, close);
    var m := FirstPair(s, open, close);
    if m.None? then None
    else
      BodyLacksClose(s, open, close, m.value.0, m.value.1);
      Some(s[m.value.0 + |open|..m.value.1])
  }

  lemma BodyLacksClose(s: string, open: string, close: string, i: nat, j: nat)
    requires |close| > 0 && i + |open| <= j <= |s|
    requires forall k :: i + |open| <= k < j ==> !OccursAt(s, close, k)
    ensures !Contains(s[i + |open|..j], close)
  {
    var b := s[i + |open|..j];
    forall m | 0 <= m <= |b| ensures !OccursAt(b, close, m) {
      if OccursAt(b, close, m) {
        OccursInSlice(s, close, i + |open|, j, m);
      }
    }
  }

  /** One step of the substitution: what is kept of the text up to the end of its first match, and what follows that match. */
  datatype SubStep = Done | Step(kept: string, rest: string)

  /** The replacement of the first match: the text before it, then nothing or its body. */
  function PairStep(s: string, open: string, close: string, keepInner: bool): (st: SubStep)
    requires |open| > 0
    ensures st.Step? ==> |st.rest| < |s|
  {
    var m := FirstPair(s, open, close);
    if m.None? then Done
    else
      var i, j := m.value.0, m.value.1;
      Step(s[..i] + (if keepInner then s[i + |open|..j] else ""), s[j + |close|..])
  }

  /**
   `re.sub(open + "(.*?)" + close, repl, s, flags=re.DOTALL)`: every match, found
   left to right without overlap, is replaced by nothing (`keepInner` false,
   `repl == ""`) or by its body (`keepInner` true, `repl == r"\1"`).
   */
  function RemovePairs(s: string, open: string, close: string, keepInner: bool): (r: string)
    requires |open| > 0
    decreases |s|
  {
    match PairStep(s, open, close, keepInner)
    case Done => s
    case Step(kept, rest) => kept + RemovePairs(rest, open, close, keepInner)
  }

  lemma StepUnfold(s: string, open: string, close: string, keepInner: bool, kept: string, rest: string)
    requires |open| > 0 && PairStep(s, open, close, keepInner) == Step(kept, rest)
    ensures RemovePairs(s, open, close, keepInner) == kept + RemovePairs(rest, open, close, keepInner)
  {
  }

  /** Text without a match is left as it is. */
  lemma RemovePairsUnmatched(s: string, open: string, close: string, keepInner: bool)
    requires |open| > 0 && FirstPair(s, open, close).None?
    ensures RemovePairs(s, open, close, keepInner) == s
  {
    assert PairStep(s, open, close, keepInner) == Done;
  }


  /**
   Substitution leaves text without a pair untouched, never lengthens it, and when
   there is a pair it deletes at least the two delimiters; without `keepInner`
   the whole first matched span disappears.
   */
  lemma {:induction false} RemovePairsShrinks(s: string, open: string, close: string, keepInner: bool)
    requires |open| > 0
    ensures !HasPair(s, open, close) ==> RemovePairs(s, open, close, keepInner) == s
    ensures |RemovePairs(s, open, close, keepInner)| <= |s|
    ensures HasPair(s, open, close) ==> |RemovePairs(s, open, close, keepInner)| + |open| + |close| <= |s|
    ensures !keepInner && FirstPair(s, open, close).Some? ==>
      var m := FirstPair(s, open, close).value;
      |RemovePairs(s, open, close, keepInner)| + (m.1 + |close| - m.0) <= |s|
    decreases |s|
  {
    FirstPairIffHasPair(s, open, close);
    var m := FirstPair(s, open, close);
    if m.Some? {
      var i, j := m.value.0, m.value.1;
      RemovePairsAt(s, open, close, keepInner, i, j);
      RemovePairsShrinks(s[j + |close|..], open, close, keepInner);
    } else {
      RemovePairsUnmatched(s, open, close, keepInner);
    }
  }

  /** The substitution only keeps pieces of the text: a character the text lacks, the result lacks too. */
  lemma {:induction false} RemovePairsLacksChar(s: string, open: string, close: string, keepInner: bool, c: char)
    requires |open| > 0 && c !in s
    ensures c !in RemovePairs(s, open, close, keepInner)
    decreases |s|
  {
    var m := FirstPair(s, open, close);
    if m.None? {
      RemovePairsUnmatched(s, open, close, keepInner);
    } else {
      var i, j := m.value.0, m.value.1;
      RemovePairsAt(s, open, close, keepInner, i, j);
      RemovePairsLacksChar(s[j + |close|..], open, close, keepInner, c);
      CharNotInSlice(s, c, 0, i);
      CharNotInSlice(s, c, i + |open|, j);
      assert s[0..i] == s[..i];
    }
  }
}
