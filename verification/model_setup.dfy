/**
 * `setup_gemma3_model` in gemma3_saudi_benchmark.py: an ordered chain of
 * three load attempts that stops at the first one that succeeds. Each
 * attempt's outcome comes from the (unmodelled) ML libraries and is taken
 * as a parameter.
 */
module ModelSetup {
  import opened Common

  /** The library an attempt loads through. */
  datatype Library = Unsloth | Transformers

  /** How the weights are loaded: 4-bit quantized, automatic dtype, or float16. */
  datatype Precision = FourBit | AutoDtype | Float16

  /** One way of obtaining a model and its tokenizer. */
  datatype LoadAttempt = LoadAttempt(library: Library, modelName: string, precision: Precision)

  /** The GGUF checkpoint the first two attempts load. */
  const GgufModel: string := "unsloth/gemma-3-270m-it-GGUF"

  /** The checkpoint of the last-resort attempt. */
  const FallbackModel: string := "google/gemma-2-270m-it"

  /** The attempts in the order the source makes them. */
  const LoadPlan: seq<LoadAttempt> := [
    LoadAttempt(Unsloth, GgufModel, FourBit),
    LoadAttempt(Unsloth, GgufModel, AutoDtype),
    LoadAttempt(Transformers, FallbackModel, Float16)
  ]

  /** What one attempt yields: both handles, or the message of the exception it raised. */
  datatype LoadOutcome<+M, +T> = Loaded(model: M, tokenizer: T) | LoadFailed(message: string)

  /** Attempt `k` is the first one of `plan` that succeeds. */
  ghost predicate FirstSuccessAt<M, T>(plan: seq<LoadAttempt>, load: LoadAttempt -> LoadOutcome<M, T>, k: int) {
    && 0 <= k < |plan|
    && load(plan[k]).Loaded?
    && forall j :: 0 <= j < k ==> load(plan[j]).LoadFailed?
  }

  /**
   * Runs the attempts in order and returns the handles of the first success,
   * or `(None, None)` when every attempt fails.
   */
  function FirstLoaded<M, T>(plan: seq<LoadAttempt>, load: LoadAttempt -> LoadOutcome<M, T>): (handles: (Option<M>, Option<T>))
    ensures handles.0.Some? <==> handles.1.Some?
    ensures handles.0.None? <==> forall k :: 0 <= k < |plan| ==> load(plan[k]).LoadFailed?
    ensures handles.0.Some? ==>
              exists k :: FirstSuccessAt(plan, load, k) && load(plan[k]) == Loaded(handles.0.value, handles.1.value)
    decreases |plan|
  {
    if |plan| == 0 then (None, None)
    else
      match load(plan[0])
      case Loaded(model, tokenizer) =>
        assert FirstSuccessAt(plan, load, 0);
        (Some(model), Some(tokenizer))
      case LoadFailed(_) =>
        var rest := FirstLoaded(plan[1..], load);
        if rest.0.Some? then
          assert exists k :: FirstSuccessAt(plan, load, k) && load(plan[k]) == Loaded(rest.0.value, rest.1.value) by {
            var k :| FirstSuccessAt(plan[1..], load, k) && load(plan[1..][k]) == Loaded(rest.0.value, rest.1.value);
            assert FirstSuccessAt(plan, load, k + 1);
          }
          rest
        else
          assert forall k :: 1 <= k < |plan| ==> plan[k] == plan[1..][k - 1];
          rest
  }

  /**
   * The chain stops at the first success: attempts after it cannot change
   * the result, whatever they would have done.
   */
  lemma {:induction false} LaterAttemptsIrrelevant<M, T>(
    plan: seq<LoadAttempt>, load: LoadAttempt -> LoadOutcome<M, T>, load': LoadAttempt -> LoadOutcome<M, T>, k: nat)
    requires FirstSuccessAt(plan, load, k)
    requires forall j :: 0 <= j <= k ==> load'(plan[j]) == load(plan[j])
    ensures FirstLoaded(plan, load') == FirstLoaded(plan, load)
    decreases k
  {
    if k > 0 {
      assert load(plan[0]).LoadFailed? && load'(plan[0]).LoadFailed?;
      assert FirstSuccessAt(plan[1..], load, k - 1);
      LaterAttemptsIrrelevant(plan[1..], load, load', k - 1);
    }
  }

  /** Whichever attempt succeeds first supplies exactly the handles the chain returns. */
  lemma FirstLoadedAt<M, T>(plan: seq<LoadAttempt>, load: LoadAttempt -> LoadOutcome<M, T>, k: int)
    ensures FirstSuccessAt(plan, load, k) ==>
              FirstLoaded(plan, load) == (Some(load(plan[k]).model), Some(load(plan[k]).tokenizer))
  {
    if FirstSuccessAt(plan, load, k) {
      var handles := FirstLoaded(plan, load);
      var k' :| FirstSuccessAt(plan, load, k') && load(plan[k']) == Loaded(handles.0.value, handles.1.value);
      assert k' == k;
    }
  }

  /**
   * `setup_gemma3_model`: the 4-bit GGUF load, then the unquantized GGUF
   * load, then the transformers fallback; the first that succeeds supplies
   * the handles, and `(None, None)` means all three failed.
   */
  function SetupModel<M, T>(load: LoadAttempt -> LoadOutcome<M, T>): (handles: (Option<M>, Option<T>))
    ensures load(LoadAttempt(Unsloth, GgufModel, FourBit)).Loaded? ==>
              handles == (Some(load(LoadAttempt(Unsloth, GgufModel, FourBit)).model),
                          Some(load(LoadAttempt(Unsloth, GgufModel, FourBit)).tokenizer))
    ensures load(LoadAttempt(Unsloth, GgufModel, FourBit)).LoadFailed? &&
            load(LoadAttempt(Unsloth, GgufModel, AutoDtype)).Loaded? ==>
              handles == (Some(load(LoadAttempt(Unsloth, GgufModel, AutoDtype)).model),
                          Some(load(LoadAttempt(Unsloth, GgufModel, AutoDtype)).tokenizer))
    ensures load(LoadAttempt(Unsloth, GgufModel, FourBit)).LoadFailed? &&
            load(LoadAttempt(Unsloth, GgufModel, AutoDtype)).LoadFailed? &&
            load(LoadAttempt(Transformers, FallbackModel, Float16)).Loaded? ==>
              handles == (Some(load(LoadAttempt(Transformers, FallbackModel, Float16)).model),
                          Some(load(LoadAttempt(Transformers, FallbackModel, Float16)).tokenizer))
    ensures handles == (None, None) <==>
              (forall a :: a in LoadPlan ==> load(a).LoadFailed?)
    ensures handles.0.Some? <==> handles.1.Some?
  {
    FirstLoadedAt(LoadPlan, load, 0);
    FirstLoadedAt(LoadPlan, load, 1);
    FirstLoadedAt(LoadPlan, load, 2);
    FirstLoaded(LoadPlan, load)
  }
}
