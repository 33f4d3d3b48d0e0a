/**
 * The decode loop of sample_decode. The model forward pass together with the sampler (temperature,
 * softmax, sort, the filters of module Sampling, the weighted draw) is one step function `step`:
 * given the step index, which stands for the random draw of that step, and what the model is
 * called with, it returns the chosen token id and the cache the model returned, `None` when the
 * model keeps no cache (`use_cache=False`). The cache type `C` is opaque and only passed along. The tokenizer's decoder is the parameter `decode`.
 */
module Decoding {
  import opened Wrappers
  import opened Text

  /** What the model is called with: the token ids it sees and the cache of the previous call. */
  datatype ModelCall<C> = ModelCall(ids: seq<int>, past: Option<C>)

  /** The loop's variables: `input_ids`, `generated_tokens` and `past_key_values`. */
  datatype DecodeState<C> = DecodeState(ids: seq<int>, generated: seq<int>, past: Option<C>)

  /** Python's `ids[-1:]`: the last id, or nothing when there is none. */
  function LastSlice(ids: seq<int>): (r: seq<int>)
    ensures |r| == (if ids == [] then 0 else 1) && r == ids[|ids| - |r|..]
  {
    if ids == [] then [] else [ids[|ids| - 1]]
  }

  /** With no cache the model sees all of `input_ids`; with one, the last id and the cache. */
  function CallFor<C>(s: DecodeState<C>): ModelCall<C>
  {
    if s.past.None? then ModelCall(s.ids, None) else ModelCall(LastSlice(s.ids), s.past)
  }

  /** The state after `n` steps, ignoring stop words: each step appends the chosen token to both
      `input_ids` and the generated tokens and keeps the cache exactly as the model returned it. */
  function StateAfter<C>(init: seq<int>, step: (nat, ModelCall<C>) -> (int, Option<C>), n: nat): DecodeState<C>
  {
    if n == 0 then DecodeState(init, [], None)
    else
      var prev := StateAfter(init, step, n - 1);
      var out := step(n - 1, CallFor(prev));
      DecodeState(prev.ids + [out.0], prev.generated + [out.0], out.1)
  }

  /** After `n` steps exactly `n` tokens were generated, `input_ids` is the prompt followed by them,
      and before the first call there is no cache. */
  lemma {:induction false} StateAfterShape<C>(init: seq<int>, step: (nat, ModelCall<C>) -> (int, Option<C>), n: nat)
    ensures |StateAfter(init, step, n).generated| == n
    ensures StateAfter(init, step, n).ids == init + StateAfter(init, step, n).generated
    ensures n == 0 ==> StateAfter(init, step, n).past.None?
  {
    if n > 0 {
      StateAfterShape(init, step, n - 1);
    }
  }

  /** Tokens are only ever appended: the tokens after `i` steps begin the tokens after any later step. */
  lemma {:induction false} GeneratedPrefix<C>(init: seq<int>, step: (nat, ModelCall<C>) -> (int, Option<C>), i: nat, j: nat)
    requires i <= j
    ensures StateAfter(init, step, i).generated <= StateAfter(init, step, j).generated
    decreases j - i
  {
    StateAfterShape(init, step, i);
    StateAfterShape(init, step, j);
    if i < j {
      GeneratedPrefix(init, step, i, j - 1);
      StateAfterShape(init, step, j - 1);
    }
  }

  /** The first call passes the whole prompt and no cache. A later call passes exactly the token
      chosen by the previous step and the cache that step returned when it returned one, and
      otherwise the whole of `input_ids` again, the prompt followed by every generated token. */
  lemma CallsChain<C>(init: seq<int>, step: (nat, ModelCall<C>) -> (int, Option<C>))
    ensures CallFor(StateAfter(init, step, 0)) == ModelCall(init, None)
    ensures forall j: nat :: j > 0 ==>
              var prev := step(j - 1, CallFor(StateAfter(init, step, j - 1)));
              CallFor(StateAfter(init, step, j)) ==
                if prev.1.Some? then ModelCall([prev.0], prev.1)
                else ModelCall(init + StateAfter(init, step, j).generated, None)
  {
    forall j: nat | j > 0
      ensures var prev := step(j - 1, CallFor(StateAfter(init, step, j - 1)));
              CallFor(StateAfter(init, step, j)) ==
                if prev.1.Some? then ModelCall([prev.0], prev.1)
                else ModelCall(init + StateAfter(init, step, j).generated, None)
    {
      StateAfterShape(init, step, j);
    }
  }

  /** A model that never returns a cache (`use_cache=False`) is called with the whole of
      `input_ids`, the prompt followed by every token generated so far, at every step. */
  lemma CallsWithoutCache<C>(init: seq<int>, step: (nat, ModelCall<C>) -> (int, Option<C>))
    requires forall j: nat, call: ModelCall<C> :: step(j, call).1.None?
    ensures forall j: nat :: CallFor(StateAfter(init, step, j)) == ModelCall(init + StateAfter(init, step, j).generated, None)
  {
    forall j: nat
      ensures CallFor(StateAfter(init, step, j)) == ModelCall(init + StateAfter(init, step, j).generated, None)
    {
      StateAfterShape(init, step, j);
    }
  }

  /** Some stop word occurs in `text`. */
  predicate HasStopWord(text: string, stopWords: seq<string>)
    decreases |stopWords|
  {
    stopWords != [] && (Contains(text, stopWords[0]) || HasStopWord(text, stopWords[1..]))
  }

  lemma {:induction false} HasStopWordIff(text: string, stopWords: seq<string>)
    ensures HasStopWord(text, stopWords) <==> exists k :: 0 <= k < |stopWords| && Contains(text, stopWords[k])
    decreases |stopWords|
  {
    if stopWords != [] {
      HasStopWordIff(text, stopWords[1..]);
      if k :| 0 < k < |stopWords| && Contains(text, stopWords[k]) {
        assert stopWords[1..][k - 1] == stopWords[k];
      }
    }
  }

  /** Python's `any([w in text for w in stop_words])`: test each stop word in turn. */
  method AnyStopWord(text: string, stopWords: seq<string>) returns (found: bool)
    ensures found == HasStopWord(text, stopWords)
  {
    found := false;
    for k := 0 to |stopWords|
      invariant HasStopWord(text, stopWords) == (found || HasStopWord(text, stopWords[k..]))
    {
      assert stopWords[k..][1..] == stopWords[k + 1..];
      found := found || Contains(text, stopWords[k]);
    }
  }

  /** The stop condition of sample_decode as a test on texts. */
  function StopTest(stopWords: seq<string>): string -> bool
  {
    text => HasStopWord(text, stopWords)
  }

  /** The text yielded at step `j`: the decoding of all `j + 1` tokens generated so far. */
  function YieldAt<C>(init: seq<int>, step: (nat, ModelCall<C>) -> (int, Option<C>), decode: seq<int> -> string, j: nat): string
  {
    decode(StateAfter(init, step, j + 1).generated)
  }

  /** The text of every step, as one function of the step index. */
  function TextsOf<C>(init: seq<int>, step: (nat, ModelCall<C>) -> (int, Option<C>), decode: seq<int> -> string): nat -> string
  {
    (j: nat) => YieldAt(init, step, decode, j)
  }

  /** The texts yielded from step `j` on, given the text of every step: one per step until
      `limit` steps are done, ending right after the first text that passes the stop test. */
  function UntilStop(text: nat -> string, stop: string -> bool, limit: int, j: nat): seq<string>
    decreases limit - j
  {
    if limit <= j then []
    else if stop(text(j)) then [text(j)]
    else [text(j)] + UntilStop(text, stop, limit, j + 1)
  }

  /** The texts sample_decode yields from step `j` on: UntilStop over TextsOf and StopTest, written
      out directly (YieldsFromUntilStop proves the two equal). The loop invariant of SampleDecode
      and the lemmas beside it use this form, because a lambda in their proof obligations makes
      them too expensive to verify; the generic UntilStop carries the inductive lemmas. */
  function YieldsFrom<C>(init: seq<int>, step: (nat, ModelCall<C>) -> (int, Option<C>), decode: seq<int> -> string,
                         stopWords: seq<string>, limit: int, j: nat): seq<string>
    decreases limit - j
  {
    if limit <= j then []
    else
      var t := YieldAt(init, step, decode, j);
      if HasStopWord(t, stopWords) then [t] else [t] + YieldsFrom(init, step, decode, stopWords, limit, j + 1)
  }

  /** Everything sample_decode yields. */
  function DecodeYields<C>(init: seq<int>, step: (nat, ModelCall<C>) -> (int, Option<C>), decode: seq<int> -> string,
                           stopWords: seq<string>, maxLength: int): seq<string>
  {
    YieldsFrom(init, step, decode, stopWords, maxLength, 0)
  }

  /** The yields are the generic take-until-stop over the texts of the steps. */
  lemma {:induction false} YieldsFromUntilStop<C>(init: seq<int>, step: (nat, ModelCall<C>) -> (int, Option<C>), decode: seq<int> -> string,
                                                  stopWords: seq<string>, limit: int, j: nat)
    ensures YieldsFrom(init, step, decode, stopWords, limit, j) == UntilStop(TextsOf(init, step, decode), StopTest(stopWords), limit, j)
    decreases limit - j
  {
    if j < limit {
      YieldsFromUntilStop(init, step, decode, stopWords, limit, j + 1);
    }
  }

  lemma {:induction false} UntilStopAre(text: nat -> string, stop: string -> bool, limit: int, j: nat)
    ensures j < limit ==> 0 < |UntilStop(text, stop, limit, j)| <= limit - j
    ensures limit <= j ==> UntilStop(text, stop, limit, j) == []
    ensures forall i :: 0 <= i < |UntilStop(text, stop, limit, j)| ==> UntilStop(text, stop, limit, j)[i] == text(j + i)
    decreases limit - j
  {
    if j < limit && !stop(text(j)) {
      UntilStopAre(text, stop, limit, j + 1);
    }
  }

  lemma {:induction false} UntilStopStops(text: nat -> string, stop: string -> bool, limit: int, j: nat)
    ensures forall i :: 0 <= i < |UntilStop(text, stop, limit, j)| - 1 ==> !stop(UntilStop(text, stop, limit, j)[i])
    ensures j + |UntilStop(text, stop, limit, j)| < limit ==>
              0 < |UntilStop(text, stop, limit, j)| &&
              stop(UntilStop(text, stop, limit, j)[|UntilStop(text, stop, limit, j)| - 1])
    decreases limit - j
  {
    if j < limit && !stop(text(j)) {
      UntilStopStops(text, stop, limit, j + 1);
    }
  }

  lemma {:induction false} UntilStopCount(text: nat -> string, stop: string -> bool, limit: int, n: nat, j: nat)
    requires j <= n < limit
    requires stop(text(n))
    requires forall i :: j <= i < n ==> !stop(text(i))
    ensures |UntilStop(text, stop, limit, j)| == n + 1 - j
    decreases n - j
  {
    if j < n {
      UntilStopCount(text, stop, limit, n, j + 1);
    }
  }

  /** What the caller of sample_decode sees: at most `maxLength` texts (none when it is not
      positive); text `j` is the decoding of exactly `j + 1` generated tokens; no text before the
      last contains a stop word, and if fewer than `maxLength` texts came out, the last one does. */
  lemma DecodeYieldsFacts<C>(init: seq<int>, step: (nat, ModelCall<C>) -> (int, Option<C>), decode: seq<int> -> string,
                             stopWords: seq<string>, maxLength: int)
    ensures var ys := DecodeYields(init, step, decode, stopWords, maxLength);
            && |ys| <= (if maxLength < 0 then 0 else maxLength)
            && (forall j :: 0 <= j < |ys| ==>
                  ys[j] == decode(StateAfter(init, step, j + 1).generated) && |StateAfter(init, step, j + 1).generated| == j + 1)
            && (forall j :: 0 <= j < |ys| - 1 ==> !HasStopWord(ys[j], stopWords))
            && (|ys| < maxLength ==> 0 < |ys| && HasStopWord(ys[|ys| - 1], stopWords))
  {
    var text := TextsOf(init, step, decode);
    YieldsFromUntilStop(init, step, decode, stopWords, maxLength, 0);
    UntilStopAre(text, StopTest(stopWords), maxLength, 0);
    UntilStopStops(text, StopTest(stopWords), maxLength, 0);
    var ys := DecodeYields(init, step, decode, stopWords, maxLength);
    forall j | 0 <= j < |ys|
      ensures ys[j] == decode(StateAfter(init, step, j + 1).generated)
      ensures |StateAfter(init, step, j + 1).generated| == j + 1
    {
      assert ys[j] == text(j);
      StateAfterShape(init, step, j + 1);
    }
    forall j | 0 <= j < |ys| - 1
      ensures !HasStopWord(ys[j], stopWords)
    {
      assert !StopTest(stopWords)(ys[j]);
    }
    if |ys| < maxLength {
      assert StopTest(stopWords)(ys[|ys| - 1]);
    }
  }

  /** If the first text with a stop word is the one of step `n` and `n` is within the step limit,
      exactly `n + 1` texts are yielded. */
  lemma StopsAfterFirstStopWord<C>(init: seq<int>, step: (nat, ModelCall<C>) -> (int, Option<C>), decode: seq<int> -> string,
                                   stopWords: seq<string>, maxLength: int, n: nat)
    requires n < maxLength
    requires HasStopWord(YieldAt(init, step, decode, n), stopWords)
    requires forall j :: 0 <= j < n ==> !HasStopWord(YieldAt(init, step, decode, j), stopWords)
    ensures |DecodeYields(init, step, decode, stopWords, maxLength)| == n + 1
  {
    YieldsFromUntilStop(init, step, decode, stopWords, maxLength, 0);
    UntilStopCount(TextsOf(init, step, decode), StopTest(stopWords), maxLength, n, 0);
  }

  /** One turn of the loop keeps its variables equal to the specified state. */
  lemma StepMatches<C>(init: seq<int>, step: (nat, ModelCall<C>) -> (int, Option<C>), i: nat,
                       ids: seq<int>, generated: seq<int>, past: Option<C>, call: ModelCall<C>, token: int, cache: Option<C>)
    requires ids == StateAfter(init, step, i).ids
    requires generated == StateAfter(init, step, i).generated
    requires past == StateAfter(init, step, i).past
    requires call == if past.None? then ModelCall(ids, None) else ModelCall(LastSlice(ids), past)
    requires (token, cache) == step(i, call)
    ensures ids + [token] == StateAfter(init, step, i + 1).ids
    ensures generated + [token] == StateAfter(init, step, i + 1).generated
    ensures cache == StateAfter(init, step, i + 1).past
  {
  }

  /** The text the loop decodes after step `i` is the text of step `i`. */
  lemma TextOfStep<C>(init: seq<int>, step: (nat, ModelCall<C>) -> (int, Option<C>), decode: seq<int> -> string,
                      i: nat, generated: seq<int>)
    requires generated == StateAfter(init, step, i + 1).generated
    ensures YieldAt(init, step, decode, i) == decode(generated)
  {
  }

  /** One turn of the loop extends the collected texts along the specification. */
  lemma YieldsAdvance<C>(init: seq<int>, step: (nat, ModelCall<C>) -> (int, Option<C>), decode: seq<int> -> string,
                         stopWords: seq<string>, limit: int, i: nat, all: seq<string>, before: seq<string>)
    requires i < limit
    requires all == before + YieldsFrom(init, step, decode, stopWords, limit, i)
    ensures var t := YieldAt(init, step, decode, i);
            if HasStopWord(t, stopWords) then all == before + [t]
            else all == (before + [t]) + YieldsFrom(init, step, decode, stopWords, limit, i + 1)
  {
    var t := YieldAt(init, step, decode, i);
    assert before + ([t] + YieldsFrom(init, step, decode, stopWords, limit, i + 1))
           == (before + [t]) + YieldsFrom(init, step, decode, stopWords, limit, i + 1);
  }

  /** sample_decode, with the generator's texts collected into a sequence (its one caller consumes
      them all). The texts are those of the specification for every model and decoder, so the
      model is called as CallsChain describes. */
  method SampleDecode<C>(inputIds: seq<int>, step: (nat, ModelCall<C>) -> (int, Option<C>), decode: seq<int> -> string,
                         stopWords: seq<string>, maxLength: int)
    returns (texts: seq<string>)
    ensures texts == DecodeYields(inputIds, step, decode, stopWords, maxLength)
  {
    var generatedTokens: seq<int> := [];
    var pastKeyValues: Option<C> := None;
    var ids := inputIds;
    texts := [];
    var i := 0;
    ghost var all := DecodeYields(inputIds, step, decode, stopWords, maxLength);
    while i < maxLength
      invariant 0 <= i && (i == 0 || i <= maxLength)
      invariant ids == StateAfter(inputIds, step, i).ids
      invariant generatedTokens == StateAfter(inputIds, step, i).generated
      invariant pastKeyValues == StateAfter(inputIds, step, i).past
      invariant all == texts + YieldsFrom(inputIds, step, decode, stopWords, maxLength, i)
    {
      YieldsAdvance(inputIds, step, decode, stopWords, maxLength, i, all, texts);
      var call := if pastKeyValues.None? then ModelCall(ids, None) else ModelCall(LastSlice(ids), pastKeyValues);
      var (nextToken, cache) := step(i, call);
      StepMatches(inputIds, step, i, ids, generatedTokens, pastKeyValues, call, nextToken, cache);
      pastKeyValues := cache;
      ids := ids + [nextToken];
      generatedTokens := generatedTokens + [nextToken];
      var text := decode(generatedTokens);
      TextOfStep(inputIds, step, decode, i, generatedTokens);
      texts := texts + [text];
      i := i + 1;
      var stop := AnyStopWord(text, stopWords);
      if stop {
        return;
      }
    }
  }
}
