/**
 How `main.py` turns a model reply into the chat message it shows and stores:
 the reasoning inside the first `<think>...</think>` is quoted under a header,
 every think block is cut out of the answer, an empty answer is replaced by a
 fixed notice, and extracted code is appended as a Python block.
 */
module Answer {
  import opened Options
  import opened Strings
  import opened Patterns
  import opened OllamaChat

  const ThinkOpen := "<think>"

  const ThinkClose := "</think>"

  /** The first lines of the quoted reasoning, before its first line. */
  const ThinkHeader := "> 💭 **SmartBuddy Thinking:**\n>\n> "

  /** What joins the reasoning's lines: each further line is quoted too. */
  const QuoteBreak := "\n> "

  const NoAnswer := "⚠️ No answer returned."

  /**
   `think_match.group(1).strip() if think_match else ""` for
   `re.search(r"<think>(.*?)</think>", full, re.DOTALL)`: empty unless the reply
   holds a think block, stripped, and never holding a closing tag.
   */
  function ThinkText(full: string): (t: string)
    ensures t != [] ==> HasPair(full, ThinkOpen, ThinkClose)
    ensures IsStripped(t)
    ensures !Contains(t, ThinkClose)
  {
    match PairBody(full, ThinkOpen, ThinkClose)
    case None => ""
    case Some(b) =>
      StripLacks(b, ThinkClose);
      Strip(b)
  }

  lemma ThinkTagsUnbordered()
    ensures ThinkOpen[0] !in ThinkOpen[1..]
    ensures ThinkClose[0] !in ThinkClose[1..]
  {
    assert ThinkOpen[1..] == "think>";
    assert ThinkClose[1..] == "/think>";
  }

  /**
   In a reply `pre <think> t </think> post` with no opening tag in `pre` and no
   closing tag in `t`, the think text is `t` stripped, and the answer is what is
   left of `pre` and `post`.
   */
  lemma ThinkBlockFound(pre: string, t: string, post: string)
    requires !Contains(pre, ThinkOpen) && !Contains(t, ThinkClose)
    ensures var full := pre + ThinkOpen + t + ThinkClose + post;
      && FirstPair(full, ThinkOpen, ThinkClose) == Some((|pre|, |pre| + |ThinkOpen| + |t|))
      && ThinkText(full) == Strip(t)
      && AnswerText(full) == Strip(pre + RemovePairs(post, ThinkOpen, ThinkClose, false))
  {
    ThinkTagsUnbordered();
    PairInComposed(pre, ThinkOpen, t, ThinkClose, post);
    var full := pre + ThinkOpen + t + ThinkClose + post;
    assert PairBody(full, ThinkOpen, ThinkClose) == Some(t);
  }

  /**
   `re.sub(r"<think>.*?</think>", "", full, flags=re.DOTALL).strip()`: stripped,
   never longer than the reply, and the stripped reply itself when it holds no think block.
   */
  function AnswerText(full: string): (a: string)
    ensures IsStripped(a)
    ensures |a| <= |full|
    ensures !HasPair(full, ThinkOpen, ThinkClose) ==> a == Strip(full)
  {
    RemovePairsShrinks(full, ThinkOpen, ThinkClose, false);
    Strip(RemovePairs(full, ThinkOpen, ThinkClose, false))
  }

  /** The reasoning as a Markdown quote: the header, then its lines joined so that each starts with `> `. */
  function FormatThink(t: string): (q: string)
    ensures |q| >= |ThinkHeader| && q[..|ThinkHeader|] == ThinkHeader
  {
    ThinkHeader + Join(SplitLines(t), QuoteBreak)
  }

  /** Undoes the quoting: drops the header and turns each `\n> ` back into `\n`. */
  function Unquote(q: string): string {
    if |q| >= |ThinkHeader| && q[..|ThinkHeader|] == ThinkHeader then
      Join(Split(q[|ThinkHeader|..], QuoteBreak), "\n")
    else q
  }

  /**
   The quote loses nothing: for reasoning whose line breaks are all `\n` (and which,
   being stripped, does not end in one), unquoting gives it back.
   */
  lemma UnquoteFormatThink(t: string)
    requires OnlyNewlineBreaks(t) && IsStripped(t)
    ensures Unquote(FormatThink(t)) == t
  {
    var q := FormatThink(t);
    var lines := SplitLines(t);
    assert q[|ThinkHeader|..] == Join(lines, QuoteBreak);
    if t == [] {
      assert Split("", QuoteBreak) == [""];
    } else {
      LinesHaveNoBreaks(t);
      assert IsLineBreak(QuoteBreak[0]);
      SplitJoin(lines, QuoteBreak);
      JoinSplitLines(t);
    }
  }

  /** The code block appended to the message. */
  function CodeSection(code: string): string {
    "\n\n### Code:\n```python\n" + code + "\n```"
  }

  /** `response.get("full", "").strip()`. */
  function ReplyText(reply: Reply): string {
    Strip(reply.full)
  }

  /** `code_response.strip() if code_response else ""`. */
  function ReplyCode(reply: Reply): string {
    match reply.code
    case None => ""
    case Some(c) => Strip(c)
  }

  /** The answer part of the message: the answer, or the notice when it is empty. */
  function Body(reply: Reply): (b: string)
    ensures b != []
    ensures AnswerText(ReplyText(reply)) != [] ==> b == AnswerText(ReplyText(reply))
  {
    var a := AnswerText(ReplyText(reply));
    if a != [] then a else NoAnswer
  }

  /** `formatted_think + "\n\n"` when there is reasoning, otherwise nothing. */
  function ThinkPart(think: string): (p: string)
    ensures p == [] <==> think == []
  {
    if think != [] then FormatThink(think) + "\n\n" else ""
  }

  /** `formatted_code`: the code block when there is code, otherwise nothing. */
  function CodePart(code: string): (p: string)
    ensures p == [] <==> code == []
  {
    if code != [] then CodeSection(code) else ""
  }

  /** `final_message`, assembled from the quoted reasoning, the answer and the code block. */
  function FinalMessage(reply: Reply): (m: string)
    ensures m != []
  {
    ThinkPart(ThinkText(ReplyText(reply))) + Body(reply) + CodePart(ReplyCode(reply))
  }

  /**
   The message opens with the quoted reasoning (and so with the header) when
   there is reasoning, and otherwise with the answer or the notice.
   */
  lemma FinalMessageStart(reply: Reply)
    ensures var m, think := FinalMessage(reply), ThinkText(ReplyText(reply));
      && (think != [] ==> |m| >= |FormatThink(think)| + 2 && m[..|FormatThink(think)| + 2] == FormatThink(think) + "\n\n")
      && (think != [] ==> m[..|ThinkHeader|] == ThinkHeader)
      && (think == [] ==> |m| >= |Body(reply)| && m[..|Body(reply)|] == Body(reply))
  {
    MessageStart(ThinkText(ReplyText(reply)), Body(reply), CodePart(ReplyCode(reply)));
  }

  lemma MessageStart(think: string, body: string, tail: string)
    ensures var m := ThinkPart(think) + body + tail;
      && (think != [] ==> |m| >= |FormatThink(think)| + 2 && m[..|FormatThink(think)| + 2] == FormatThink(think) + "\n\n")
      && (think != [] ==> m[..|ThinkHeader|] == ThinkHeader)
      && (think == [] ==> |m| >= |body| && m[..|body|] == body)
  {
    var head := ThinkPart(think);
    assert head + body + tail == head + (body + tail);
    PrefixOfConcat(head, body + tail);
    if think != [] {
      PrefixOfPrefix(head + body + tail, head, |ThinkHeader|);
      PrefixOfPrefix(head, FormatThink(think), |ThinkHeader|);
    } else {
      PrefixOfConcat(body, tail);
    }
  }

  /**
   The message closes with the code block when there is code, and otherwise with
   the answer or the notice.
   */
  lemma FinalMessageEnd(reply: Reply)
    ensures var m, code := FinalMessage(reply), ReplyCode(reply);
      && (code != [] ==> |m| >= |CodeSection(code)| && m[|m| - |CodeSection(code)|..] == CodeSection(code))
      && (code == [] ==> |m| >= |Body(reply)| && m[|m| - |Body(reply)|..] == Body(reply))
  {
    MessageEnd(ThinkPart(ThinkText(ReplyText(reply))), Body(reply), ReplyCode(reply));
  }

  lemma MessageEnd(head: string, body: string, code: string)
    ensures var m := head + body + CodePart(code);
      && (code != [] ==> |m| >= |CodeSection(code)| && m[|m| - |CodeSection(code)|..] == CodeSection(code))
      && (code == [] ==> |m| >= |body| && m[|m| - |body|..] == body)
  {
    var m := head + body + CodePart(code);
    if code == [] {
      assert m == head + body;
    }
  }

  /**
   Between the quoted reasoning and the code block the message holds exactly the
   answer, or the notice when there is none.
   */
  lemma FinalMessageMiddle(reply: Reply)
    ensures var m, h, c := FinalMessage(reply), ThinkPart(ThinkText(ReplyText(reply))), CodePart(ReplyCode(reply));
      |h| + |c| <= |m| && m[|h|..|m| - |c|] == Body(reply)
  {
    MessageMiddle(ThinkPart(ThinkText(ReplyText(reply))), Body(reply), CodePart(ReplyCode(reply)));
  }

  lemma MessageMiddle(head: string, body: string, tail: string)
    ensures var m := head + body + tail;
      |head| + |tail| <= |m| && m[|head|..|m| - |tail|] == body
  {
  }

  /** The reasoning shown in the message can be read back from it. */
  lemma ThinkRecoverable(reply: Reply)
    requires ThinkText(ReplyText(reply)) != []
    requires OnlyNewlineBreaks(ThinkText(ReplyText(reply)))
    ensures var think := ThinkText(ReplyText(reply));
      Unquote(FinalMessage(reply)[..|FormatThink(think)|]) == think
  {
    var think := ThinkText(ReplyText(reply));
    FinalMessageStart(reply);
    PrefixOfPrefix(FinalMessage(reply), FormatThink(think) + "\n\n", |FormatThink(think)|);
    UnquoteFormatThink(think);
  }


  /** An answer-less reply still produces the notice, at the place of the answer. */
  lemma EmptyAnswerGivesNotice(reply: Reply)
    requires AnswerText(ReplyText(reply)) == []
    ensures Body(reply) == NoAnswer
    ensures ThinkText(ReplyText(reply)) == [] ==> FinalMessage(reply)[..|NoAnswer|] == NoAnswer
    ensures var m, h, c := FinalMessage(reply), ThinkPart(ThinkText(ReplyText(reply))), CodePart(ReplyCode(reply));
      |h| + |c| <= |m| && m[|h|..|m| - |c|] == NoAnswer
  {
    FinalMessageStart(reply);
    FinalMessageMiddle(reply);
  }
}
