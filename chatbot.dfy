/**
 * answer_generation: assemble the prompt for one question with no history, keep the newest
 * `max_context_length_tokens` ids, run the decode loop with the chat markers as stop words and at
 * most 256 steps, and answer with the last text it yields; then the clean-up the script applies.
 */
module Chatbot {
  import opened Wrappers
  import opened Text
  import opened Prompt
  import opened Decoding

  /** The stop words answer_generation passes to sample_decode. */
  const StopWords: seq<string> := ["[|Human|]", "[|AI|]"]

  /** The step limit answer_generation passes to sample_decode; its own `max_length` only bounds
      the prompt. */
  const DecodeSteps: int := 256

  /** The marker the script removes from the answer. */
  const HumanMarker: string := "\n[|Human|]"

  /** The source unpacks the result of the prompt assembler, which fails when that is None. */
  datatype AnswerError = PromptTooLong

  /** Python's `ids[-n:]`: the newest `n` ids when `n` is positive, all of them when `n` is zero,
      and all but the oldest `-n` when `n` is negative. */
  function TailWindow(ids: seq<int>, n: int): (w: seq<int>)
    ensures |w| <= |ids| && w == ids[|ids| - |w|..]
    ensures n > 0 ==> |w| == if n < |ids| then n else |ids|
    ensures n == 0 ==> w == ids
    ensures n < 0 ==> |w| == if |ids| + n < 0 then 0 else |ids| + n
  {
    if n > 0 then (if n < |ids| then ids[|ids| - n..] else ids)
    else if n == 0 then ids
    else if -n < |ids| then ids[-n..]
    else []
  }

  /** What answer_generation returns once the question's prompt text is `prompt`: a failure when
      the prompt is over budget, else the last text the decode loop yields from the newest
      `maxContextLengthTokens` ids of its encoding. */
  function AnswerFor<C>(prompt: string, maxLength: int, maxContextLengthTokens: int,
                        encode: string -> seq<int>, decode: seq<int> -> string,
                        step: (nat, ModelCall<C>) -> (int, Option<C>)): (r: Result<string, AnswerError>)
    ensures r.Failure? <==> |encode(prompt)| > maxLength
    ensures r.Success? ==> r.value in DecodeYields(TailWindow(encode(prompt), maxContextLengthTokens), step, decode, StopWords, DecodeSteps)
  {
    if |encode(prompt)| > maxLength then Failure(PromptTooLong)
    else
      var window := TailWindow(encode(prompt), maxContextLengthTokens);
      var ys := DecodeYields(window, step, decode, StopWords, DecodeSteps);
      DecodeYieldsFacts(window, step, decode, StopWords, DecodeSteps);
      Success(ys[|ys| - 1])
  }

  /** A successful answer is the decoding of the first `n` generated tokens, where `n` is the
      number of steps run, between 1 and 256; no shorter decoding held a stop word, and unless all
      256 steps ran, the answer itself holds one. */
  lemma AnswerFacts<C>(prompt: string, maxLength: int, maxContextLengthTokens: int,
                       encode: string -> seq<int>, decode: seq<int> -> string,
                       step: (nat, ModelCall<C>) -> (int, Option<C>))
    requires |encode(prompt)| <= maxLength
    ensures var window := TailWindow(encode(prompt), maxContextLengthTokens);
            var n := |DecodeYields(window, step, decode, StopWords, DecodeSteps)|;
            var answer := AnswerFor(prompt, maxLength, maxContextLengthTokens, encode, decode, step);
            && 1 <= n <= DecodeSteps
            && answer == Success(decode(StateAfter(window, step, n).generated))
            && |StateAfter(window, step, n).generated| == n
            && (forall j :: 1 <= j < n ==> !HasStopWord(decode(StateAfter(window, step, j).generated), StopWords))
            && (n < DecodeSteps ==> HasStopWord(answer.value, StopWords))
  {
    var window := TailWindow(encode(prompt), maxContextLengthTokens);
    var ys := DecodeYields(window, step, decode, StopWords, DecodeSteps);
    DecodeYieldsFacts(window, step, decode, StopWords, DecodeSteps);
    forall j | 1 <= j < |ys|
      ensures !HasStopWord(decode(StateAfter(window, step, j).generated), StopWords)
    {
      assert ys[j - 1] == decode(StateAfter(window, step, j).generated);
    }
  }

  /** answer_generation, with the tokenizer, the model step and the decoder as parameters. */
  method AnswerGeneration<C>(question: string, maxLength: int, maxContextLengthTokens: int,
                             encode: string -> seq<int>, decode: seq<int> -> string,
                             step: (nat, ModelCall<C>) -> (int, Option<C>))
    returns (r: Result<string, AnswerError>)
    ensures r == AnswerFor(Preamble + UtteranceText(question), maxLength, maxContextLengthTokens, encode, decode, step)
    ensures r.Failure? <==> |encode(Preamble + UtteranceText(question))| > maxLength
  {
    var assembled := AssemblePrompt(question, [], encode, maxLength);
    PromptWithoutHistory(Preamble, question, encode, maxLength, Intended);
    if assembled.None? {
      return Failure(PromptTooLong);
    }
    var inputIds := TailWindow(assembled.value.ids, maxContextLengthTokens);
    var texts := SampleDecode(inputIds, step, decode, StopWords, DecodeSteps);
    DecodeYieldsFacts(inputIds, step, decode, StopWords, DecodeSteps);
    r := Success(texts[|texts| - 1]);
  }

  /** A step whose text shows the next human turn ends the loop there, provided no earlier text
      held a stop word. */
  lemma HumanTurnEndsDecoding<C>(init: seq<int>, step: (nat, ModelCall<C>) -> (int, Option<C>), decode: seq<int> -> string,
                                 n: nat, before: string, after: string)
    requires n < DecodeSteps
    requires YieldAt(init, step, decode, n) == before + "[|Human|]" + after
    requires forall j :: 0 <= j < n ==> !HasStopWord(YieldAt(init, step, decode, j), StopWords)
    ensures |DecodeYields(init, step, decode, StopWords, DecodeSteps)| == n + 1
  {
    ContainsInContext(before, "[|Human|]", after);
    assert HasStopWord(YieldAt(init, step, decode, n), StopWords);
    StopsAfterFirstStopWord(init, step, decode, StopWords, DecodeSteps, n);
  }

  /** The script's `.replace("\n[|Human|]", "")` on the answer. */
  function FinalAnswer(ans: string): (r: string)
    ensures |r| <= |ans|
  {
    RemoveAll(ans, HumanMarker)
  }

  /** The clean-up changes the answer exactly when the marker occurs in it. */
  lemma {:induction false} FinalAnswerUnchangedIff(ans: string)
    ensures FinalAnswer(ans) == ans <==> !Contains(ans, HumanMarker)
  {
    RemoveAllUnchangedIff(ans, HumanMarker);
  }
}
