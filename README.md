# Baize medical chatbot: prompt packing, decode loop and sampling filters

This project models the core of the medical chatbot in `Ascle/medical_chatbot.py` and proves
properties of that model. It covers four parts:

- **Prompt assembler** (`generate_prompt_with_history`). It puts a fixed system preamble in front
  of the newest conversation turns and the new human utterance. It walks from the newest piece to
  the oldest and keeps each piece while a token-count check passes. It stops at the first piece that
  fails, and returns nothing when not even the utterance fits.
- **Decode loop** (`sample_decode`). It runs at most `max_length` steps. The first call to the model
  gets the whole prompt. Every later call gets only the last token id plus the cache the model
  returned, or the whole of `input_ids` again when the model returned no cache. Each step
  appends the chosen token, decodes all tokens generated so far, and yields that text. The loop
  ends right after a text that contains one of the stop words.
- **Sampling filters** (top-p and top-k). They act on the probabilities after a descending sort.
- **The chatbot's entry point** (`answer_generation`). It assembles the prompt for one question with
  no history and keeps the newest `max_context_length_tokens` ids. It then runs the decode loop with
  the stop words `[|Human|]` and `[|AI|]` for at most 256 steps, and answers with the last text.
  The script then removes every `"\n[|Human|]"` from that answer.

What the model does not compute itself is passed in as a parameter:

- The tokenizer is `encode: string -> seq<int>`. The token count of a string is the length of its
  encoding.
- The model forward pass, together with the sampler that turns logits into a token, is
  `step: (nat, ModelCall<C>) -> (int, Option<C>)`. From the step index and the ids and cache the
  model is called with, it gives the chosen token and the cache the model returned. That cache is
  `None` for a model that keeps none (`use_cache=False`); the loop then sends the whole of
  `input_ids` again at the next step. The step index stands for that step's random draw. The cache
  type `C` is opaque.
- The tokenizer's decoder is `decode: seq<int> -> string`.

Modules:

- `Wrappers`: `Option` and `Result`.
- `Text`: Python's `in` on strings and `str.replace(pat, "")`.
- `Prompt`: the assembler.
- `Sampling`: the filters.
- `Decoding`: the decode loop.
- `Chatbot`: `answer_generation` and the final clean-up.

The model follows the code as written:

- The assembler's check measures the accepted text followed by the new piece, but it keeps the new
  piece followed by the accepted text (see Findings). Both orders are modelled, and the entry point
  uses the one that keeps the budget.
- The clean-up deletes only the exact string `"\n[|Human|]"`. A stop marker without a leading
  newline, or an `[|AI|]` marker, stays in the answer (`FinalAnswer`).
- Nothing validates the parameters. A prompt that does not fit makes `answer_generation` fail
  while unpacking `None`; the model reports that failure as `PromptTooLong`.
- `answer_generation` ignores its `temperature`, `top_p` and `top_k` arguments. The decode loop
  therefore always runs with 256 steps and its default filters (top-p 1.0, top-k 25). Its own
  `max_length` only bounds the prompt.

## Model

| member | source | states |
|---|---|---|
| Prompt.TurnText | Ascle/medical_chatbot.py:120 | one past turn is the human marker `"\n[|Human|]"`, the human's words, the AI marker and the reply: 17 characters of markers, ending with the reply |
| Prompt.UtteranceText | Ascle/medical_chatbot.py:121 | the new utterance is the human marker, the words and an open `"\n[|AI|]"` marker at the very end, for the model to continue as the assistant |
| Prompt.TurnTexts | Ascle/medical_chatbot.py:120 | one serialised piece per past turn |
| Prompt.Pieces | Ascle/medical_chatbot.py:120-121 | the pieces are every past turn followed by the new utterance |
| Prompt.Probe | Ascle/medical_chatbot.py:126 | the string whose tokens a check counts: the preamble, then the accepted text followed by the new piece as written, or the new piece followed by the accepted text in the corrected order |
| Prompt.Fits | Ascle/medical_chatbot.py:125-130 | one step of the walk passes its check: the probe's token count is at most `max_length`; KeptFromFacts and KeptIsFirstFailure state what the walk does with it |
| Prompt.KeptFrom | Ascle/medical_chatbot.py:124-134 | the walk never keeps fewer pieces than already accepted, nor more than exist |
| Prompt.KeptFromFacts | Ascle/medical_chatbot.py:124-134 | from any point, every accepted step passed its check, and the step after the last accepted one failed |
| Prompt.KeptIsFirstFailure | Ascle/medical_chatbot.py:124-134 | the walk keeps exactly the pieces before the first failing check; older pieces are dropped even if they would fit |
| Prompt.Packed | Ascle/medical_chatbot.py:135-140 | the assembler's return: a returned prompt starts with the preamble and its ids are the encoding of the prompt; PackedNoneIff gives when nothing is returned |
| Prompt.PackedNoneIff | Ascle/medical_chatbot.py:135-140 | assembly returns nothing exactly when the preamble plus the new utterance is over budget |
| Prompt.IntendedWithinBudget | Ascle/medical_chatbot.py:124-138 | when each check measures the text it will keep, a returned prompt's token count is within `max_length` |
| Prompt.KeptFromMonotone | Ascle/medical_chatbot.py:124-134 | a larger budget keeps at least as many pieces, from any point of the walk |
| Prompt.KeptMonotone | Ascle/medical_chatbot.py:124-134 | raising `max_length` never decreases the number of pieces kept |
| Prompt.PromptShape | Ascle/medical_chatbot.py:120-137 | the prompt is the preamble, then the `t` newest turns in chronological order, then the utterance; if an older turn exists, the check for the next one failed |
| Prompt.AsWrittenKeepsOneTurn | Ascle/medical_chatbot.py:124-138 | with one past turn, the source's checks alone decide that the turn is kept, whatever the kept prompt's token count |
| Prompt.AsWrittenCanExceedBudget | Ascle/medical_chatbot.py:126-131 | with the source's probe order, some tokenizer and budget give a returned prompt that is over budget |
| Prompt.OrdersAgreeWithoutHistory | Ascle/medical_chatbot.py:124-131 | with no history the two probe orders give the same result |
| Prompt.PromptWithoutHistory | Ascle/medical_chatbot.py:118-140 | with no history the prompt is the preamble plus the utterance when that fits, and nothing otherwise |
| Prompt.PackHistory | Ascle/medical_chatbot.py:122-140 | the loop with `history_text`, `flag` and `break` returns exactly `Packed`, the packing of the newest pieces that pass their checks |
| Prompt.GeneratePromptWithHistory | Ascle/medical_chatbot.py:118-140 | the assembler as written; it returns nothing iff the utterance alone is over budget, and the returned ids encode the returned prompt |
| Prompt.AssemblePrompt | Ascle/medical_chatbot.py:118-140 | the assembler with the corrected check; same error case, and the returned prompt is within budget |
| Sampling.SumPrefixMonotone | Ascle/medical_chatbot.py:95 | over non-negative weights a longer running sum is never smaller |
| Sampling.TopP | Ascle/medical_chatbot.py:94-97 | the mask keeps the length of the weights |
| Sampling.TopPKeepsIff | Ascle/medical_chatbot.py:95-97 | position `j` survives iff the mass strictly before it is at most `top_p`; position 0 survives when `top_p >= 0` |
| Sampling.TopPIsNucleus | Ascle/medical_chatbot.py:94-97 | on non-negative weights the survivors are a prefix, and it is the shortest prefix whose mass exceeds `top_p` |
| Sampling.TopPSorted | Ascle/medical_chatbot.py:94-97 | the mask keeps the weights non-negative and non-increasing |
| Sampling.TopK | Ascle/medical_chatbot.py:100-103 | the first `k` weights and every tie with the k-th largest survive; exactly the weights strictly below it are zeroed |
| Sampling.Filter | Ascle/medical_chatbot.py:94-103 | top-p then top-k keeps the weights non-negative and non-increasing |
| Sampling.FilterKeepsLargest | Ascle/medical_chatbot.py:94-105 | the largest weight survives both filters, so the mass that `div_` divides by is positive |
| Sampling.TopPKeepsAllWhenMassFits | Ascle/medical_chatbot.py:94-97 | with `top_p` at least the total mass, top-p zeroes nothing |
| Sampling.PermissiveFilterIsIdentity | Ascle/medical_chatbot.py:94-103 | with `top_p` at least the total mass and no top-k, or a top-k equal to the vocabulary size, nothing is zeroed |
| Sampling.MaskTopP | Ascle/medical_chatbot.py:94-97 | the in-place mask over an array, with a running sum, leaves exactly the top-p weights |
| Decoding.LastSlice | Ascle/medical_chatbot.py:85 | Python's `input_ids[:, -1:]` on one row: a suffix of the ids, of length 1, or 0 when there are none |
| Decoding.CallFor | Ascle/medical_chatbot.py:82-85 | the ids the model is called with: all of `input_ids` when there is no cache, the last id and the cache otherwise; CallsChain states it along the loop |
| Decoding.StateAfter | Ascle/medical_chatbot.py:77-111 | the loop variables after `n` steps, each step appending the chosen token and keeping the cache exactly as the model returned it; StateAfterShape and CallsChain state its meaning |
| Decoding.StateAfterShape | Ascle/medical_chatbot.py:77-111 | after `n` steps exactly `n` tokens were generated, `input_ids` is the prompt followed by them, and before the first call there is no cache |
| Decoding.GeneratedPrefix | Ascle/medical_chatbot.py:109-111 | generated tokens are only appended: earlier token lists are prefixes of later ones |
| Decoding.CallsChain | Ascle/medical_chatbot.py:81-87 | the first model call gets the whole prompt and no cache; each later call gets the previous token and the cache the previous call returned, or, when that call returned none, the whole of `input_ids` again |
| Decoding.CallsWithoutCache | Ascle/medical_chatbot.py:81-87 | a model that never returns a cache is called with the prompt followed by every generated token, at every step |
| Decoding.HasStopWord | Ascle/medical_chatbot.py:115 | `any([x in text for x in stop_words])`; HasStopWordIff gives its meaning |
| Decoding.HasStopWordIff | Ascle/medical_chatbot.py:115 | the stop test holds iff some stop word occurs in the text |
| Decoding.AnyStopWord | Ascle/medical_chatbot.py:115 | the loop over the stop words computes the stop test |
| Decoding.DecodeYieldsFacts | Ascle/medical_chatbot.py:77-116 | at most `max_length` texts; text `j` decodes exactly `j + 1` generated tokens; no text before the last holds a stop word; if fewer than `max_length` came out, the last one does |
| Decoding.DecodeYields | Ascle/medical_chatbot.py:77-116 | every text the generator yields, in order; DecodeYieldsFacts states what they are |
| Decoding.StopsAfterFirstStopWord | Ascle/medical_chatbot.py:112-116 | if the first text with a stop word is that of step `n < max_length`, exactly `n + 1` texts are yielded |
| Decoding.SampleDecode | Ascle/medical_chatbot.py:67-116 | the loop yields exactly `DecodeYields` for every model, sampler and decoder; DecodeYieldsFacts gives its meaning |
| Text.Contains | Ascle/medical_chatbot.py:115 | Python's `w in text`; ContainsIff gives an independent reading |
| Text.ContainsIff | Ascle/medical_chatbot.py:115 | `w in text` holds iff some suffix of `text` starts with `w` |
| Text.RemoveAll | Ascle/medical_chatbot.py:168 | removing a pattern never makes a string longer |
| Text.RemoveAllUnchangedIff | Ascle/medical_chatbot.py:168 | removal leaves a string unchanged iff the pattern does not occur in it |
| Chatbot.TailWindow | Ascle/medical_chatbot.py:150 | the window is a suffix of the ids: the last `min(n, N)` when `n > 0`, all of them when `n == 0`, all but the first `-n` when `n < 0` |
| Chatbot.AnswerFor | Ascle/medical_chatbot.py:142-158 | the result of answer_generation for a prompt text: a failure iff its encoding is over `max_length`, else one of the texts that the decode loop yields from the window, with the stop words `StopWords` of line 151 and the `DecodeSteps` = 256 steps of line 156 |
| Chatbot.AnswerFacts | Ascle/medical_chatbot.py:150-158 | for a prompt that fits, the answer decodes the first `n` generated tokens, where `n` is the number of steps run and `1 <= n <= 256`; no shorter decoding held a stop word, and unless all 256 steps ran the answer holds one |
| Chatbot.AnswerGeneration | Ascle/medical_chatbot.py:142-158 | assembling with no history, windowing and decoding return `AnswerFor` of the preamble plus the question, whose meaning AnswerFacts states; it fails iff the preamble plus the question is over budget |
| Chatbot.HumanTurnEndsDecoding | Ascle/medical_chatbot.py:151-157 | a text showing the next human turn ends the loop at that step when no earlier text held a stop word |
| Chatbot.FinalAnswer | Ascle/medical_chatbot.py:168 | the clean-up removes every `HumanMarker`, the `"\n[|Human|]"` of line 168, and never lengthens the answer |
| Chatbot.FinalAnswerUnchangedIff | Ascle/medical_chatbot.py:168 | the clean-up changes the answer iff `"\n[|Human|]"` occurs in it |

## Left out

- `load_tokenizer_and_model` (lines 7-65): device probing, downloading weights, merging the adapter
  and half precision are I/O and library set-up.
- The model forward pass and the contents of `past_key_values` are foreign calls. The model is part
  of the `step` parameter, and the cache is an opaque value, stored exactly as the model returned
  it (`None` included) and passed along unchanged.
- Tokenizer internals: `encode` and `decode` are parameters, and no round-trip between them is
  claimed.
- Temperature scaling, `torch.softmax` and the `div_` renormalisation (lines 90-92, 105) are
  floating-point numerics. The filters are stated on exact reals.
- `torch.sort`, `torch.multinomial` and `torch.gather` (lines 94, 106-107) are folded into `step`.
  The model does not state that the chosen token has a non-zero weight.
- `torch.topk` raising when `top_k` exceeds the vocabulary size: `Sampling.TopK` requires
  `1 <= k <= |q|`.
- Tensors have a batch dimension of one, so they are modelled as one-dimensional sequences.
- The unused locals `current_length` (line 79) and `begin_length` (line 149) are not modelled.
- The module-level script (lines 160-170) loads a model and prints. Only its `.replace` on line 168
  is modelled, as `Chatbot.FinalAnswer`.
- `sample_decode` is a generator. Its one caller consumes every text, so the model returns all texts
  as one sequence and does not model lazy consumption.
- `Chatbot.AnswerGeneration` calls the corrected assembler `Prompt.AssemblePrompt`. With the empty
  history that `answer_generation` passes, it gives the same result as the source's order
  (`Prompt.OrdersAgreeWithoutHistory`).

## Findings

| source | as written | input that shows it | evidently intended | confidence | as-written member | corrected member |
|---|---|---|---|---|---|---|
| Ascle/medical_chatbot.py:126 | The budget check measures `prompt + history_text + x`, the accepted text followed by the new piece, but line 131 keeps `x + history_text`. The returned prompt was never measured, so it can be over `max_length`. | One past turn, a budget of 0 tokens, and a tokenizer that gives one token only to the kept prompt `preamble + turn + utterance`. Both checks measure other strings and pass, so both pieces are kept and the prompt has 1 token. | Measure `prompt + x + history_text`, the text that will be kept, so that every returned prompt is within budget. | high that the order differs; real tokenizers count the two orders differently only at piece boundaries; not executed | Prompt.AsWrittenCanExceedBudget | Prompt.IntendedWithinBudget |
