/**
 The post-processing of `call_deepseek` in `ollama_chat.py`: the stripped
 standard output of the model process, the first fenced code block in it, and
 the fixed replies for a failed run. The process itself is a parameter: the
 outcome of running it.
 */
module OllamaChat {
  import opened Options
  import opened Strings
  import opened Patterns

  /** How `subprocess.run(..., check=True)` ended. */
  datatype RunOutcome =
    | Completed(stdout: string)
    | ProcessFailed   // CalledProcessError: a non-zero exit status
    | OtherFailure    // any other exception

  /** The dictionary `call_deepseek` returns: `{"full": ..., "code": ...}`. */
  datatype Reply = Reply(full: string, code: Option<string>)

  /** The fence the code search uses on both sides, whatever the language tag. */
  const Fence := "```"

  const ProcessFailedText := "⚠️ Error occurred while retrieving the response."

  const UnexpectedText := "⚠️ An unexpected error occurred."

  /**
   `re.search(r"```(.*?)```", response, re.DOTALL)` and `group(1).strip()`: there
   is code exactly when two non-overlapping fences occur; the code is stripped
   and holds no fence.
   */
  function FencedCode(response: string): (code: Option<string>)
    ensures code.Some? <==> HasPair(response, Fence, Fence)
    ensures code.Some? ==> IsStripped(code.value) && !Contains(code.value, Fence)
  {
    match PairBody(response, Fence, Fence)
    case None => None
    case Some(b) =>
      StripLacks(b, Fence);
      Some(Strip(b))
  }

  /**
   The code is the stripped text between the first fence and the nearest fence
   that starts at or after its end, whatever else the reply holds (inline code,
   stray backticks, later blocks).
   */
  lemma FencedCodeAt(s: string, i: nat, j: nat)
    requires OccursAt(s, Fence, i) && forall k :: 0 <= k < i ==> !OccursAt(s, Fence, k)
    requires i + |Fence| <= j && OccursAt(s, Fence, j)
    requires forall k :: i + |Fence| <= k < j ==> !OccursAt(s, Fence, k)
    ensures FencedCode(s) == Some(Strip(s[i + |Fence|..j]))
  {
    FirstPairAt(s, Fence, Fence, i, j);
    PairBodyAt(s, Fence, Fence, i, j);
  }

  /** The reply `call_deepseek` returns for each outcome of the process. */
  function CallDeepseek(outcome: RunOutcome): (r: Reply)
    ensures outcome.Completed? ==> r.full == Strip(outcome.stdout) && r.code == FencedCode(r.full)
    ensures outcome.Completed? ==> (r.code.Some? <==> HasPair(r.full, Fence, Fence))
    ensures outcome.ProcessFailed? ==> r == Reply(ProcessFailedText, None)
    ensures outcome.OtherFailure? ==> r == Reply(UnexpectedText, None)
  {
    match outcome
    case Completed(stdout) =>
      var response := Strip(stdout);
      Reply(response, FencedCode(response))
    case ProcessFailed => Reply(ProcessFailedText, None)
    case OtherFailure => Reply(UnexpectedText, None)
  }

  /**
   A completed run returns output that is already stripped unchanged, and an
   empty reply text exactly when the output is all whitespace.
   */
  lemma CompletedKeepsOutput(stdout: string)
    ensures IsStripped(stdout) ==> CallDeepseek(Completed(stdout)).full == stdout
    ensures CallDeepseek(Completed(stdout)).full == [] <==> AllSpace(stdout)
  {
    if IsStripped(stdout) {
      StripKeepsStripped(stdout);
    }
  }

  /** Any stripped text that the output surrounds with whitespace only is what a completed run returns. */
  lemma CompletedOutputUnique(stdout: string, a: nat, t: string)
    requires a + |t| <= |stdout| && t == stdout[a..a + |t|]
    requires AllSpace(stdout[..a]) && AllSpace(stdout[a + |t|..]) && IsStripped(t)
    ensures CallDeepseek(Completed(stdout)).full == t
  {
    StripUnique(stdout, a, t);
  }
}
