/**
 * The context assembler of the chatbot (generate_prompt_with_history): it packs the newest
 * conversation turns that fit into a token budget in front of the new utterance.
 * The tokenizer is a parameter `encode`; the token count of a string is the length of its encoding.
 * The walk and its properties are stated for any `preamble`; the assembler itself uses the fixed
 * system preamble `Preamble`.
 */
module Prompt {
  import opened Wrappers

  /** The fixed system preamble every prompt starts with. */
  const Preamble: string :=
    "The following is a conversation between a human and an AI assistant named Baize (named after a mythical creature in Chinese folklore). Baize is an open-source AI assistant developed by UCSD and Sun Yat-Sen University. The human and the AI assistant take turns chatting. Human statements start with [|Human|] and AI assistant statements start with [|AI|]. The AI assistant always provides responses in as much detail as possible, and in Markdown format. The AI assistant always declines to engage with topics, questions and instructions related to unethical, controversial, or sensitive issues. Complete the transcript in exactly that format.\n[|Human|]Hello!\n[|AI|]Hi!"

  /** One past exchange: what the human said and what the assistant answered. */
  datatype Turn = Turn(human: string, ai: string)

  /** A successful assembly: the prompt text and its encoding. */
  datatype Assembled = Assembled(prompt: string, ids: seq<int>)

  /** Which string the walk measures before putting a piece `x` in front of the accepted text `acc`:
      the source measures `acc` followed by `x`, while the text it keeps is `x` followed by `acc`. */
  datatype ProbeOrder = AsWritten | Intended

  /** One past turn: the human marker, the human's words, the AI marker and the reply. */
  function TurnText(t: Turn): (r: string)
    ensures |r| == |t.human| + |t.ai| + 17
    ensures r[..10] == "\n[|Human|]" && r[|r| - |t.ai|..] == t.ai
  {
    "\n[|Human|]" + t.human + "\n[|AI|]" + t.ai
  }

  /** The new utterance: the human marker, the words, and an open AI marker for the reply. */
  function UtteranceText(text: string): (r: string)
    ensures |r| == |text| + 17
    ensures r[..10] == "\n[|Human|]" && r[10..|r| - 7] == text && r[|r| - 7..] == "\n[|AI|]"
  {
    "\n[|Human|]" + text + "\n[|AI|]"
  }

  function TurnTexts(history: seq<Turn>): (ps: seq<string>)
    ensures |ps| == |history|
  {
    seq(|history|, i requires 0 <= i < |history| => TurnText(history[i]))
  }

  /** The pieces the walk considers, oldest first: every past turn, then the new utterance. */
  function Pieces(text: string, history: seq<Turn>): (ps: seq<string>)
    ensures |ps| == |history| + 1
  {
    TurnTexts(history) + [UtteranceText(text)]
  }

  function Concat(ps: seq<string>): string
  {
    if ps == [] then "" else ps[0] + Concat(ps[1..])
  }

  lemma {:induction false} ConcatAppend(a: seq<string>, b: seq<string>)
    ensures Concat(a + b) == Concat(a) + Concat(b)
  {
    if a == [] {
      assert a + b == b;
    } else {
      assert (a + b)[1..] == a[1..] + b;
      ConcatAppend(a[1..], b);
    }
  }

  /** The text accepted after `i` steps of the walk: the `i` newest pieces, in order. */
  function Suffix(ps: seq<string>, i: nat): string
    requires i <= |ps|
  {
    Concat(ps[|ps| - i..])
  }

  lemma SuffixStep(ps: seq<string>, i: nat)
    requires i < |ps|
    ensures Suffix(ps, i + 1) == ps[|ps| - 1 - i] + Suffix(ps, i)
  {
    assert ps[|ps| - (i + 1)..][1..] == ps[|ps| - i..];
  }

  /** The string whose tokens are counted before the walk accepts piece `x` in front of `acc`. */
  function Probe(preamble: string, order: ProbeOrder, acc: string, x: string): string
  {
    match order
    case AsWritten => preamble + acc + x
    case Intended => preamble + x + acc
  }

  /** Step `i` of the walk (0 = the new utterance, 1 = the newest turn, ...) passes its budget check. */
  predicate Fits(preamble: string, ps: seq<string>, encode: string -> seq<int>, maxLength: int, order: ProbeOrder, i: nat)
    requires i < |ps|
  {
    |encode(Probe(preamble, order, Suffix(ps, i), ps[|ps| - 1 - i]))| <= maxLength
  }

  /** How many pieces the walk ends up keeping when it has already kept `i`: it stops at the first
      step that fails its check and never looks at older pieces. */
  function KeptFrom(preamble: string, ps: seq<string>, encode: string -> seq<int>, maxLength: int, order: ProbeOrder, i: nat): (k: nat)
    requires i <= |ps|
    ensures i <= k <= |ps|
    decreases |ps| - i
  {
    if i == |ps| then i
    else if Fits(preamble, ps, encode, maxLength, order, i) then KeptFrom(preamble, ps, encode, maxLength, order, i + 1)
    else i
  }

  function Kept(preamble: string, ps: seq<string>, encode: string -> seq<int>, maxLength: int, order: ProbeOrder): nat
  {
    KeptFrom(preamble, ps, encode, maxLength, order, 0)
  }

  /** What the assembler returns: nothing when no piece was kept, else the preamble followed by the
      kept pieces, with its encoding. */
  function Packed(preamble: string, ps: seq<string>, encode: string -> seq<int>, maxLength: int, order: ProbeOrder): (r: Option<Assembled>)
    ensures r.Some? ==> preamble <= r.value.prompt && r.value.ids == encode(r.value.prompt)
  {
    var k := Kept(preamble, ps, encode, maxLength, order);
    if k == 0 then None
    else
      var p := preamble + Suffix(ps, k);
      Some(Assembled(p, encode(p)))
  }

  /** The number of history turns in the prompt (the kept pieces other than the utterance). */
  function TurnsKept(preamble: string, text: string, history: seq<Turn>, encode: string -> seq<int>, maxLength: int, order: ProbeOrder): nat
  {
    var k := Kept(preamble, Pieces(text, history), encode, maxLength, order);
    if k == 0 then 0 else k - 1
  }

  lemma {:induction false} KeptFromFacts(preamble: string, ps: seq<string>, encode: string -> seq<int>, maxLength: int, order: ProbeOrder, i: nat)
    requires i <= |ps|
    ensures forall j :: i <= j < KeptFrom(preamble, ps, encode, maxLength, order, i) ==> Fits(preamble, ps, encode, maxLength, order, j)
    ensures KeptFrom(preamble, ps, encode, maxLength, order, i) < |ps| ==>
              !Fits(preamble, ps, encode, maxLength, order, KeptFrom(preamble, ps, encode, maxLength, order, i))
    decreases |ps| - i
  {
    if i < |ps| && Fits(preamble, ps, encode, maxLength, order, i) {
      KeptFromFacts(preamble, ps, encode, maxLength, order, i + 1);
    }
  }

  /** The walk keeps exactly the steps before the first failing check: every kept step passed,
      and the step right after the last kept one failed (unless every piece was kept). */
  lemma KeptIsFirstFailure(preamble: string, ps: seq<string>, encode: string -> seq<int>, maxLength: int, order: ProbeOrder)
    ensures forall j :: 0 <= j < Kept(preamble, ps, encode, maxLength, order) ==> Fits(preamble, ps, encode, maxLength, order, j)
    ensures Kept(preamble, ps, encode, maxLength, order) < |ps| ==>
              !Fits(preamble, ps, encode, maxLength, order, Kept(preamble, ps, encode, maxLength, order))
  {
    KeptFromFacts(preamble, ps, encode, maxLength, order, 0);
  }

  /** Assembly fails exactly when the new utterance alone, after the preamble, is over budget;
      this holds for either probe order, since nothing has been accepted yet at the first step. */
  lemma PackedNoneIff(preamble: string, ps: seq<string>, encode: string -> seq<int>, maxLength: int, order: ProbeOrder)
    requires |ps| > 0
    ensures Packed(preamble, ps, encode, maxLength, order).None? <==> |encode(preamble + ps[|ps| - 1])| > maxLength
  {
    assert ps[|ps|..] == [];
    assert Suffix(ps, 0) == "";
    assert Probe(preamble, order, "", ps[|ps| - 1]) == preamble + ps[|ps| - 1];
  }

  /** With the intended probe order, a returned prompt never exceeds the budget: the last accepted
      check measured exactly the text that was kept. */
  lemma IntendedWithinBudget(preamble: string, ps: seq<string>, encode: string -> seq<int>, maxLength: int)
    ensures Packed(preamble, ps, encode, maxLength, Intended).Some? ==> |Packed(preamble, ps, encode, maxLength, Intended).value.ids| <= maxLength
  {
    var k := Kept(preamble, ps, encode, maxLength, Intended);
    if k > 0 {
      KeptIsFirstFailure(preamble, ps, encode, maxLength, Intended);
      assert Fits(preamble, ps, encode, maxLength, Intended, k - 1);
      SuffixStep(ps, k - 1);
      var x, acc := ps[|ps| - k], Suffix(ps, k - 1);
      assert Probe(preamble, Intended, acc, x) == preamble + Suffix(ps, k);
    }
  }

  /** A larger budget never keeps fewer pieces. */
  lemma {:induction false} KeptFromMonotone(preamble: string, ps: seq<string>, encode: string -> seq<int>, small: int, large: int, order: ProbeOrder, i: nat)
    requires small <= large && i <= |ps|
    ensures KeptFrom(preamble, ps, encode, small, order, i) <= KeptFrom(preamble, ps, encode, large, order, i)
    decreases |ps| - i
  {
    if i < |ps| && Fits(preamble, ps, encode, small, order, i) {
      KeptFromMonotone(preamble, ps, encode, small, large, order, i + 1);
    }
  }

  lemma KeptMonotone(preamble: string, ps: seq<string>, encode: string -> seq<int>, small: int, large: int, order: ProbeOrder)
    requires small <= large
    ensures Kept(preamble, ps, encode, small, order) <= Kept(preamble, ps, encode, large, order)
  {
    KeptFromMonotone(preamble, ps, encode, small, large, order, 0);
  }

  /** The prompt is the preamble, the `t` newest turns in chronological order and the utterance;
      when `t` is short of the whole history, the next older turn failed its check, so it and
      every turn before it are left out. */
  lemma PromptShape(preamble: string, text: string, history: seq<Turn>, encode: string -> seq<int>, maxLength: int, order: ProbeOrder)
    ensures var r := Packed(preamble, Pieces(text, history), encode, maxLength, order);
            var t := TurnsKept(preamble, text, history, encode, maxLength, order);
            r.Some? ==>
              && t <= |history|
              && r.value.prompt == preamble + Concat(TurnTexts(history[|history| - t..])) + UtteranceText(text)
              && (t < |history| ==> !Fits(preamble, Pieces(text, history), encode, maxLength, order, t + 1))
              && (t < |history| ==> Pieces(text, history)[|history| - 1 - t] == TurnText(history[|history| - 1 - t]))
  {
    var ps := Pieces(text, history);
    var k := Kept(preamble, ps, encode, maxLength, order);
    KeptIsFirstFailure(preamble, ps, encode, maxLength, order);
    if k > 0 {
      NewestPieces(text, history, k - 1);
    }
  }

  /** The `t + 1` newest pieces are the `t` newest turns in chronological order, then the utterance. */
  lemma NewestPieces(text: string, history: seq<Turn>, t: nat)
    requires t <= |history|
    ensures Suffix(Pieces(text, history), t + 1) == Concat(TurnTexts(history[|history| - t..])) + UtteranceText(text)
  {
    var ps := Pieces(text, history);
    var recent := TurnTexts(history[|history| - t..]);
    assert ps[|ps| - (t + 1)..] == recent + [UtteranceText(text)] by {
      assert ps[|ps| - (t + 1)..] == TurnTexts(history)[|history| - t..] + [UtteranceText(text)];
      assert TurnTexts(history)[|history| - t..] == recent;
    }
    ConcatAppend(recent, [UtteranceText(text)]);
    assert Concat([UtteranceText(text)]) == UtteranceText(text) by {
      assert [UtteranceText(text)][1..] == [];
    }
  }

  /** With one turn of history, the source keeps the turn whenever the two strings it measures
      fit, whatever the token count of the prompt it then returns. */
  lemma AsWrittenKeepsOneTurn(preamble: string, t: Turn, text: string, encode: string -> seq<int>, maxLength: int)
    requires |encode(preamble + UtteranceText(text))| <= maxLength
    requires |encode(preamble + UtteranceText(text) + TurnText(t))| <= maxLength
    ensures var p := preamble + TurnText(t) + UtteranceText(text);
            Packed(preamble, Pieces(text, [t]), encode, maxLength, AsWritten) == Some(Assembled(p, encode(p)))
  {
    var ps := Pieces(text, [t]);
    assert ps == [TurnText(t), UtteranceText(text)];
    assert Suffix(ps, 0) == "" by { assert ps[2..] == []; }
    assert Probe(preamble, AsWritten, "", ps[1]) == preamble + UtteranceText(text);
    assert Fits(preamble, ps, encode, maxLength, AsWritten, 0);
    assert Suffix(ps, 1) == UtteranceText(text) by {
      assert ps[1..] == [UtteranceText(text)];
      assert [UtteranceText(text)][1..] == [];
    }
    assert Fits(preamble, ps, encode, maxLength, AsWritten, 1);
    assert KeptFrom(preamble, ps, encode, maxLength, AsWritten, 1) == 2;
    SuffixStep(ps, 1);
    assert preamble + Suffix(ps, 2) == preamble + TurnText(t) + UtteranceText(text);
  }

  /** The string measured for the turn differs from the prompt kept, after any common prefix. */
  lemma ProbeDiffersFromKept(p: string)
    ensures p + UtteranceText("q") + TurnText(Turn("a", "b")) != p + TurnText(Turn("a", "b")) + UtteranceText("q")
  {
    assert (p + UtteranceText("q") + TurnText(Turn("a", "b")))[|p| + 10] == 'q';
    assert (p + TurnText(Turn("a", "b")) + UtteranceText("q"))[|p| + 10] == 'a';
  }

  /** Finding: the probe order of the source can return a prompt over budget. One turn of history,
      an encoder that gives one token only to the kept prompt, and a budget of zero tokens: both
      checks measure other strings, so both pieces are kept and the result has one token. */
  lemma AsWrittenCanExceedBudget(preamble: string)
    ensures var encode := (s: string) => if s == preamble + TurnText(Turn("a", "b")) + UtteranceText("q") then [0] else [];
            var r := Packed(preamble, Pieces("q", [Turn("a", "b")]), encode, 0, AsWritten);
            r.Some? && |r.value.ids| > 0
  {
    var kept := preamble + TurnText(Turn("a", "b")) + UtteranceText("q");
    var encode := (s: string) => if s == kept then [0] else [];
    assert |preamble + UtteranceText("q")| < |kept|;
    ProbeDiffersFromKept(preamble);
    AsWrittenKeepsOneTurn(preamble, Turn("a", "b"), "q", encode, 0);
  }

  /** With no history, the case the chatbot itself uses, the two probe orders give the same result. */
  lemma OrdersAgreeWithoutHistory(preamble: string, text: string, encode: string -> seq<int>, maxLength: int)
    ensures Packed(preamble, Pieces(text, []), encode, maxLength, AsWritten) == Packed(preamble, Pieces(text, []), encode, maxLength, Intended)
  {
    var ps := Pieces(text, []);
    assert Suffix(ps, 0) == "" by { assert ps[1..] == []; }
    assert Probe(preamble, AsWritten, "", ps[0]) == Probe(preamble, Intended, "", ps[0]);
  }

  /** With no history the prompt is the preamble followed by the new utterance, or nothing when that
      alone is over budget. */
  lemma PromptWithoutHistory(preamble: string, text: string, encode: string -> seq<int>, maxLength: int, order: ProbeOrder)
    ensures var p := preamble + UtteranceText(text);
            Packed(preamble, Pieces(text, []), encode, maxLength, order)
              == if |encode(p)| <= maxLength then Some(Assembled(p, encode(p))) else None
  {
    var ps := Pieces(text, []);
    assert ps == [UtteranceText(text)];
    assert Suffix(ps, 0) == "" by { assert ps[1..] == []; }
    assert Suffix(ps, 1) == UtteranceText(text) by {
      assert ps[0..] == ps;
      assert ps[1..] == [];
    }
    assert Probe(preamble, order, "", ps[0]) == preamble + UtteranceText(text);
  }

  /** The walk of generate_prompt_with_history: newest piece first, accept while the check passes,
      stop at the first piece that fails; `flag` records whether anything was accepted. */
  method PackHistory(preamble: string, ps: seq<string>, encode: string -> seq<int>, maxLength: int, order: ProbeOrder)
    returns (r: Option<Assembled>)
    ensures r == Packed(preamble, ps, encode, maxLength, order)
  {
    var historyText := "";
    var flag := false;
    var i := 0;
    while i < |ps|
      invariant 0 <= i <= |ps|
      invariant historyText == Suffix(ps, i)
      invariant KeptFrom(preamble, ps, encode, maxLength, order, i) == Kept(preamble, ps, encode, maxLength, order)
      invariant flag <==> i > 0
    {
      var x := ps[|ps| - 1 - i];
      if |encode(Probe(preamble, order, historyText, x))| <= maxLength {
        SuffixStep(ps, i);
        historyText := x + historyText;
        flag := true;
        i := i + 1;
      } else {
        break;
      }
    }
    if flag {
      r := Some(Assembled(preamble + historyText, encode(preamble + historyText)));
    } else {
      r := None;
    }
  }

  /** generate_prompt_with_history as written (budget check on the accepted text followed by the
      new piece). */
  method GeneratePromptWithHistory(text: string, history: seq<Turn>, encode: string -> seq<int>, maxLength: int)
    returns (r: Option<Assembled>)
    ensures r == Packed(Preamble, Pieces(text, history), encode, maxLength, AsWritten)
    ensures r.None? <==> |encode(Preamble + UtteranceText(text))| > maxLength
    ensures r.Some? ==> r.value.ids == encode(r.value.prompt)
  {
    r := PackHistory(Preamble, Pieces(text, history), encode, maxLength, AsWritten);
    PackedNoneIff(Preamble, Pieces(text, history), encode, maxLength, AsWritten);
  }

  /** The assembler with the budget check on the text it keeps (new piece followed by the accepted
      text); a returned prompt is within budget. */
  method AssemblePrompt(text: string, history: seq<Turn>, encode: string -> seq<int>, maxLength: int)
    returns (r: Option<Assembled>)
    ensures r == Packed(Preamble, Pieces(text, history), encode, maxLength, Intended)
    ensures r.None? <==> |encode(Preamble + UtteranceText(text))| > maxLength
    ensures r.Some? ==> r.value.ids == encode(r.value.prompt) && |r.value.ids| <= maxLength
  {
    r := PackHistory(Preamble, Pieces(text, history), encode, maxLength, Intended);
    PackedNoneIff(Preamble, Pieces(text, history), encode, maxLength, Intended);
    IntendedWithinBudget(Preamble, Pieces(text, history), encode, maxLength);
  }
}
