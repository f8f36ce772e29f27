/**
 * The prompt/response handling of `generate_response` in
 * gemma3_saudi_benchmark.py: the question is wrapped in Gemma's chat
 * template, the backend's decoded text is cut to what follows the last
 * model-turn marker, and any failure is turned into an error string.
 */
module Chat {
  import opened Common
  import opened Text

  /** The marker that opens the model's turn in Gemma's chat template. */
  const ModelTurnMarker: string := "<start_of_turn>model"

  /** Template text before the question. */
  const PromptHead: string := "<bos><start_of_turn>user\n"

  /** Template text after the question: closes the user turn and opens an empty model turn. */
  const PromptTail: string := "<end_of_turn>\n" + ModelTurnMarker + "\n"

  /** Prefix of the response text that records a failed generation. */
  const ErrorPrefix: string := "Error: "

  /** What the tokenizer, the model and the decoder produce together: decoded text, or a raised exception's message. */
  datatype Generation = Decoded(text: string) | Raised(message: string)

  /** Wraps a question in the chat template; the question text is embedded unchanged. */
  function FormatPrompt(question: string): (prompt: string)
    ensures |prompt| == |PromptHead| + |question| + |PromptTail|
    ensures prompt[|PromptHead|..|PromptHead| + |question|] == question
    ensures prompt[..|PromptHead|] == PromptHead
    ensures prompt[|PromptHead| + |question|..] == PromptTail
  {
    PromptHead + question + PromptTail
  }

  /** Recovers the question from a formatted prompt, if it is one. */
  function QuestionOf(prompt: string): (question: Option<string>)
    ensures question.Some? ==> FormatPrompt(question.value) == prompt
  {
    var h := |PromptHead|;
    var t := |PromptTail|;
    if |prompt| >= h + t && prompt[..h] == PromptHead && prompt[|prompt| - t..] == PromptTail then
      var q := prompt[h..|prompt| - t];
      assert prompt == prompt[..h] + q + prompt[|prompt| - t..];
      Some(q)
    else
      None
  }

  /** The template can be undone: the prompt determines the question it was made from. */
  lemma PromptRoundTrip(question: string)
    ensures QuestionOf(FormatPrompt(question)) == Some(question)
  {
    var p := FormatPrompt(question);
    assert p[|p| - |PromptTail|..] == PromptTail;
  }

  /** The model-turn marker occurs once at most in any window of its own length. */
  lemma MarkerOverlapFree()
    ensures OverlapFree(ModelTurnMarker)
  {
    var m := ModelTurnMarker;
    var rest := "start_of_turn>model";
    assert m == ['<'] + rest;
    assert '<' !in rest;
    forall t | 0 < t < |m|
      ensures m[t..] != m[..|m| - t]
    {
      assert m[t] == rest[t - 1];
      assert m[t..][0] != m[..|m| - t][0];
    }
  }

  /**
   * The response extraction of `generate_response`: when the marker is
   * present, keep the text after the last occurrence (as `split(...)[-1]`
   * does) and strip it; otherwise keep the decoded text as it is.
   */
  function ExtractResponse(decoded: string): (response: string)
    ensures !Occurs(decoded, ModelTurnMarker) ==> response == decoded
    ensures !Occurs(response, ModelTurnMarker)
  {
    if Contains(decoded, ModelTurnMarker) then
      var tail := LastPiece(decoded, ModelTurnMarker);
      StripAvoids(tail, ModelTurnMarker);
      Strip(tail)
    else
      decoded
  }

  /** An occurrence inside the suffix `s[k..]` lies at or after `k` in `s`. */
  lemma OccursInSuffix(s: string, k: nat, sep: string, j: int)
    requires k <= j
    requires OccursAt(s, sep, j)
    ensures OccursAt(s[k..], sep, j - k)
  {
    assert s[k..][j - k..j - k + |sep|] == s[j..j + |sep|];
  }

  /**
   * When the marker is present, the response is the stripped text that
   * follows its last occurrence.
   */
  lemma ExtractAfterLastMarker(decoded: string)
    requires Occurs(decoded, ModelTurnMarker)
    ensures exists i :: IsLastOccurrence(decoded, ModelTurnMarker, i)
                        && ExtractResponse(decoded) == Strip(decoded[i + |ModelTurnMarker|..])
  {
    var m := ModelTurnMarker;
    var k := LastPieceStart(decoded, m);
    var i := k - |m|;
    MarkerOverlapFree();
    forall j | i < j
      ensures !OccursAt(decoded, m, j)
    {
      if j < k {
        OccurrencesDoNotOverlap(decoded, m, i, j);
      } else if OccursAt(decoded, m, j) {
        OccursInSuffix(decoded, k, m, j);
      }
    }
    assert IsLastOccurrence(decoded, m, i);
  }

  /** At most one position is the last occurrence. */
  lemma LastOccurrenceUnique(s: string, sep: string, i: int, j: int)
    requires IsLastOccurrence(s, sep, i) && IsLastOccurrence(s, sep, j)
    ensures i == j
  {
  }

  /** Whichever position is the marker's last occurrence, the response is the stripped text after it. */
  lemma ExtractAtLastMarker(decoded: string, i: int)
    requires IsLastOccurrence(decoded, ModelTurnMarker, i)
    ensures ExtractResponse(decoded) == Strip(decoded[i + |ModelTurnMarker|..])
  {
    ExtractAfterLastMarker(decoded);
    var j :| IsLastOccurrence(decoded, ModelTurnMarker, j)
             && ExtractResponse(decoded) == Strip(decoded[j + |ModelTurnMarker|..]);
    LastOccurrenceUnique(decoded, ModelTurnMarker, i, j);
  }

  /**
   * The decoded output echoes the prompt and then the generated
   * continuation; the extracted response is that continuation, stripped,
   * whatever the question contains.
   */
  lemma EchoedPromptYieldsContinuation(question: string, continuation: string)
    requires !Occurs(continuation, ModelTurnMarker)
    ensures ExtractResponse(FormatPrompt(question) + continuation) == Strip(continuation)
  {
    var m := ModelTurnMarker;
    var decoded := FormatPrompt(question) + continuation;
    var i := |PromptHead| + |question| + |"<end_of_turn>\n"|;
    var after := "\n" + continuation;
    assert decoded == PromptHead + question + "<end_of_turn>\n" + m + after;
    assert decoded[i..i + |m|] == m;
    assert decoded[i + |m|..] == after;
    assert !Occurs(after, m) by {
      forall j | 0 <= j && j + |m| <= |after|
        ensures !OccursAt(after, m, j)
      {
        if j == 0 {
          assert after[0..|m|][0] == '\n';
        } else {
          assert after[j..j + |m|] == continuation[j - 1..j - 1 + |m|];
          assert !OccursAt(continuation, m, j - 1);
        }
      }
    }
    MarkerOverlapFree();
    forall j | i < j
      ensures !OccursAt(decoded, m, j)
    {
      if j < i + |m| {
        OccurrencesDoNotOverlap(decoded, m, i, j);
      } else if OccursAt(decoded, m, j) {
        OccursInSuffix(decoded, i + |m|, m, j);
      }
    }
    assert IsLastOccurrence(decoded, m, i);
    ExtractAfterLastMarker(decoded);
    StripSkipsLeadingSpace('\n', continuation);
  }

  /**
   * `generate_response`: format the prompt, run the backend, extract the
   * model's turn; a failure anywhere becomes `"Error: " + message` and is
   * not propagated. The backend samples afresh on every call, so it also
   * receives `call`, the number of the call within the run: two calls on the
   * same prompt may decode different texts or fail differently.
   */
  function GenerateResponse<M, T>(generate: (nat, M, T, string) -> Generation, call: nat, model: M, tokenizer: T, question: string): (response: string)
    ensures generate(call, model, tokenizer, FormatPrompt(question)).Raised? ==>
              response == ErrorPrefix + generate(call, model, tokenizer, FormatPrompt(question)).message
    ensures generate(call, model, tokenizer, FormatPrompt(question)).Decoded? ==>
              !Occurs(response, ModelTurnMarker)
    ensures generate(call, model, tokenizer, FormatPrompt(question)).Decoded? &&
            !Occurs(generate(call, model, tokenizer, FormatPrompt(question)).text, ModelTurnMarker) ==>
              response == generate(call, model, tokenizer, FormatPrompt(question)).text
  {
    match generate(call, model, tokenizer, FormatPrompt(question))
    case Decoded(text) => ExtractResponse(text)
    case Raised(message) => ErrorPrefix + message
  }
}
