/**
 * `run_benchmark` and `main` of gemma3_saudi_benchmark.py: the real
 * driver feeds every question through `generate_response`, and `main`
 * only reaches it once the environment, the data and the model are ready.
 */
module Benchmark {
  import opened Common
  import opened Records
  import opened Chat
  import opened ModelSetup
  import opened Driver

  /**
   * `run_benchmark`: one result per row, in row order, with the row's
   * fields copied and the response produced by `generate_response`;
   * a "Completed" notice after every tenth row. `now` stands for the clock
   * read of row `i` (`datetime.now()`); rows are positioned 0..n-1, as in a
   * freshly read data frame.
   */
  method RunBenchmark<M, T>(generate: (nat, M, T, string) -> Generation, model: M, tokenizer: T, rows: seq<Question>, now: nat -> string)
    returns (results: seq<ResultRecord>, notices: seq<nat>)
    ensures |results| == |rows|
    ensures forall i :: 0 <= i < |rows| ==> Carries(results[i], rows[i]) && results[i].tags.None?
    ensures forall i :: 0 <= i < |rows| ==> results[i].timestamp == now(i)
    ensures forall i :: 0 <= i < |rows| ==>
              results[i].response == GenerateResponse(generate, i, model, tokenizer, rows[i].text)
    ensures forall i :: 0 <= i < |rows| ==>
              generate(i, model, tokenizer, FormatPrompt(rows[i].text)).Raised? ==>
                results[i].response == ErrorPrefix + generate(i, model, tokenizer, FormatPrompt(rows[i].text)).message
    ensures notices == Cadence(|rows|)
    ensures |notices| == |rows| / NoticeEvery
    ensures forall count :: count in notices <==> 1 <= count <= |rows| && count % NoticeEvery == 0
  {
    results, notices := Drive(rows, (i: nat, q: Question) => GenerateResponse(generate, i, model, tokenizer, q.text), now, None, true);
    forall count
      ensures count in notices <==> 1 <= count <= |rows| && count % NoticeEvery == 0
    {
      CadenceMembers(|rows|, count);
    }
  }

  /**
   * Sampling is per call: the same question asked by two rows can be
   * answered on one call and fail on the other.
   */
  lemma SamplesPerRow()
    ensures
      var generate := (call: nat, model: int, tokenizer: int, prompt: string) =>
        if call == 0 then Decoded("a") else Raised("oom");
      && GenerateResponse(generate, 0, 0, 0, "Q") == "a"
      && GenerateResponse(generate, 1, 0, 0, "Q") == ErrorPrefix + "oom"
  {
  }

  /** How a run of `main` ends. */
  datatype RunOutcome =
    | MissingPackages
    | NoBenchmarkData
    | NoModel
    | Completed(results: seq<ResultRecord>, notices: seq<nat>)

  /**
   * `main`: stop when the package check fails, when the data could not be
   * loaded, or when no model could be set up; otherwise run the benchmark
   * on the loaded rows with the loaded handles.
   */
  method RunMain<M, T>(
    requirementsMet: bool,
    data: Option<seq<Question>>,
    load: LoadAttempt -> LoadOutcome<M, T>,
    generate: (nat, M, T, string) -> Generation,
    now: nat -> string)
    returns (outcome: RunOutcome)
    ensures !requirementsMet ==> outcome == MissingPackages
    ensures requirementsMet && data.None? ==> outcome == NoBenchmarkData
    ensures requirementsMet && data.Some? && (forall a :: a in LoadPlan ==> load(a).LoadFailed?) ==>
              outcome == NoModel
    ensures outcome.Completed? ==>
              && requirementsMet
              && data.Some?
              && (exists a :: a in LoadPlan && load(a).Loaded?)
    ensures outcome.Completed? ==>
              && |outcome.results| == |data.value|
              && (forall i :: 0 <= i < |data.value| ==> Carries(outcome.results[i], data.value[i]))
              && (forall i :: 0 <= i < |data.value| ==>
                    outcome.results[i].response ==
                      GenerateResponse(generate, i, SetupModel(load).0.value, SetupModel(load).1.value, data.value[i].text))
    ensures requirementsMet && data.Some? && (exists a :: a in LoadPlan && load(a).Loaded?) ==> outcome.Completed?
    ensures outcome.Completed? ==> outcome.notices == Cadence(|outcome.results|)
  {
    if !requirementsMet {
      return MissingPackages;
    }
    if data.None? {
      return NoBenchmarkData;
    }
    var handles := SetupModel(load);
    if handles.0.None? || handles.1.None? {
      return NoModel;
    }
    var results, notices := RunBenchmark(generate, handles.0.value, handles.1.value, data.value, now);
    return Completed(results, notices);
  }
}
