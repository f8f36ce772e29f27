# Gemma-3 Saudi benchmark runner: a Dafny model of its core rules

The benchmark runner feeds the questions of the Pico Saudi LLMs benchmark to a
Gemma model and writes one result row per question. Most of it is I/O glue. A
few rules around the model calls are pure and sequential, and this project
models them and proves what they guarantee:

- **Chat handling** (`generate_response`). The question is wrapped in Gemma's
  chat template. The decoded output is cut to the text after the last
  `<start_of_turn>model` marker and then stripped. A failure becomes an
  `"Error: "` string. Modules `Chat` and `Text`.
- **Model loading** (`setup_gemma3_model`). There are three ordered load
  attempts, and the first success wins. If all three fail, the result is
  `(None, None)`. Module `ModelSetup`.
- **The drivers**:
  - the real `run_benchmark` and the abort logic of `main` (module `Benchmark`);
  - the demo `run_benchmark` (module `Demo`);
  - `simulate_model_responses` of the test script (module `Simulate`).

  All three share one loop (module `Driver`). It gives one result per row, in
  row order, with the row's fields copied. The two `run_benchmark` loops also
  give a trace of "Completed" progress notices.
- **The demo generator** (`generate_realistic_arabic_response`). It does a
  table lookup, falls back to the `history` list, and picks an entry by a
  hash index. Module `Demo`. The same module holds the demo CSV loader and
  the per-category statistics.

The Python string operations the code uses are written out in `Text`:
- `in`
- `str.split(sep)` and `[-1]`
- `strip()` with Python's whitespace set
- `str(int)`

`Text.FindFirst` is the left-to-right scan inside `split`. `Text.Join` is not
used by the code; it is there only to state the round trip `Text.JoinSplit`.

Python's `%` appears as `Demo.PyMod`, which uses floor division.

External effects are parameters:
- The model backend is `generate: (call, M, T, prompt) -> Generation`.
  `Generation` is either decoded text or a raised exception's message. The
  backend samples afresh on every call, so it also receives the number of the
  call within the run, the row's position. Two rows with the same question
  may therefore get different responses, or fail differently.
- Each load attempt is `load: LoadAttempt -> LoadOutcome`.
- The clock is `now: nat -> string`, giving the timestamp of row `i`.
- Python's `hash` is `hash: string -> int`.
- Model and tokenizer handles are type parameters.

Data rows are the `Records.Question` datatype. Result rows are
`Records.ResultRecord`; its optional `Tags` hold the demo's constant `model`
and `mode` columns.

Three behaviours of the code are worth stating plainly, and the model keeps them:
- **Fallback model.** When both GGUF loads fail, setup falls back to
  `google/gemma-2-270m-it`. It prints that it does so, but the handles it
  returns do not record which checkpoint was loaded. `main` then announces
  the GGUF model whichever one it was. `SetupModel` models that fallback.
- **All loads fail.** The result is `(None, None)`, not a raised error.
  `main` prints an error message and returns normally. `RunMain` models
  that.
- **Demo selection.** Python's built-in `hash` is salted per process. The
  model therefore takes the hash as a parameter and claims equal outputs only
  for one fixed hash function.

## Model

| member | source | states |
|---|---|---|
| `Chat.FormatPrompt` | gemma3_saudi_benchmark.py:107-110 | The prompt has three parts in order: `<bos><start_of_turn>user\n`, the question verbatim, and `<end_of_turn>\n<start_of_turn>model\n`. Its length is the sum of the three. |
| `Chat.QuestionOf` | gemma3_saudi_benchmark.py:107-110 | Inverse of the template. Any question it recovers re-formats to exactly the given prompt. |
| `Chat.PromptRoundTrip` | gemma3_saudi_benchmark.py:107-110 | The template is injective: every formatted prompt gives back its own question. |
| `Chat.ExtractResponse` | gemma3_saudi_benchmark.py:137-140 | Text without the model-turn marker is returned unchanged. The extracted response never contains the marker. |
| `Chat.ExtractAfterLastMarker` | gemma3_saudi_benchmark.py:137-138 | When the marker occurs, the response is the text after its last occurrence, stripped. |
| `Chat.ExtractAtLastMarker` | gemma3_saudi_benchmark.py:137-138 | The last occurrence is unique, so the response is the stripped text after whichever position is the marker's last occurrence. |
| `Chat.EchoedPromptYieldsContinuation` | gemma3_saudi_benchmark.py:107-138 | Take output that echoes the formatted prompt and then a continuation without the marker. For any question, the extracted response is that continuation, stripped. |
| `Chat.GenerateResponse` | gemma3_saudi_benchmark.py:103-144 | For one call of the backend: a raised failure becomes `"Error: " + message` and is not propagated. A decoded text never yields the marker. A decoded text without the marker is returned as is. |
| `Text.Contains` | gemma3_saudi_benchmark.py:137 | Python's substring test: true exactly when the separator occurs at some position. |
| `Text.FindFirst` | gemma3_saudi_benchmark.py:138 | The position where `split` cuts: an occurrence, with none before it. None only if there is no occurrence. |
| `Text.Split` | gemma3_saudi_benchmark.py:138 | `str.split(sep)` gives at least one piece, and no piece contains the separator. |
| `Text.JoinSplit` | gemma3_saudi_benchmark.py:138 | Splitting on a separator and joining with it gives back the original text. |
| `Text.LastPiece` | gemma3_saudi_benchmark.py:138 | `split(sep)[-1]` never contains the separator. When the separator does not occur, it is the whole text. |
| `Text.LastPieceStart` | gemma3_saudi_benchmark.py:138 | `split(sep)[-1]` is a suffix of the text. When the separator occurs, that suffix starts right after an occurrence. |
| `Text.Strip` | gemma3_saudi_benchmark.py:138 | `strip()` gives the slice between the first and the last non-whitespace character, using Python's whitespace set. |
| `Text.StripIdempotent` | gemma3_saudi_benchmark.py:138 | Stripping twice is the same as stripping once. |
| `Text.StripSkipsLeadingSpace` | gemma3_saudi_benchmark.py:138 | A leading whitespace character does not change the stripped text. |
| `Text.Decimal` | test_demo.py:48 | `str(n)` of a natural number is a non-empty run of decimal digits, with no leading zero unless `n` is 0. |
| `Text.DecimalRoundTrip` | test_demo.py:48 | `str(n)` for a natural number reads back as `n`. |
| `ModelSetup.FirstLoaded` | gemma3_saudi_benchmark.py:38-101 | Folding over the attempts returns both handles or neither. It returns neither exactly when every attempt fails. Otherwise the handles come from the first attempt that succeeds. |
| `ModelSetup.LaterAttemptsIrrelevant` | gemma3_saudi_benchmark.py:38-101 | The chain stops at the first success. Attempts after it cannot change the outcome. |
| `ModelSetup.FirstLoadedAt` | gemma3_saudi_benchmark.py:38-101 | The attempt that is first to succeed supplies exactly the returned handles. |
| `ModelSetup.SetupModel` | gemma3_saudi_benchmark.py:38-101 | The 4-bit GGUF load comes first, then the unquantized GGUF load, then the float16 transformers load of the Gemma-2 checkpoint. The first success supplies both handles. `(None, None)` means all three failed. |
| `Driver.Cadence` | gemma3_saudi_benchmark.py:171-173 | A run of `n` rows prints `n / 10` notices, in increasing order. |
| `Driver.CadenceMembers` | gemma3_saudi_benchmark.py:172-173 | A count is announced exactly when it is a positive multiple of ten not above the row count. |
| `Driver.CadenceStep` | gemma3_saudi_benchmark.py:172-173 | Row `i` adds a notice `i + 1` exactly when `(i + 1) % 10 == 0`. |
| `Driver.Drive` | gemma3_saudi_benchmark.py:152-173 | The shared loop gives one result per row, in order. Each result copies the row's fields, takes the response for its position and row, and takes the clock reading for its position. The notice trace is the cadence, or empty when the loop prints none. |
| `Benchmark.RunBenchmark` | gemma3_saudi_benchmark.py:146-173 | `run_benchmark` gives one result per row, in row order, with id, category and question copied. Each response is `generate_response` of that question, as the row's own call of the backend. A failed generation records `"Error: "` plus the message. The notices are 10, 20, ... in that order: `n / 10` of them, exactly at the multiples of ten. |
| `Benchmark.SamplesPerRow` | gemma3_saudi_benchmark.py:121-144 | The model does not tie rows with the same question together. One backend can decode text for the first row's call and fail for the second row's call on the same prompt, and the two responses then differ. |
| `Benchmark.RunMain` | gemma3_saudi_benchmark.py:182-210 | `main` stops before the benchmark when the package check fails, when the data is missing, or when every load attempt fails. In the model, where the rows arrive as typed questions, it completes exactly when all three steps succeed, with one result per question answered by the loaded handles, and its notices are the cadence in order. |
| `Demo.PyMod` | run_benchmark_demo.py:84 | Python's `%`: for a positive divisor the remainder lies in `[0, b)`. The sign follows the divisor, and the remainder differs from `a` by a multiple of `b`. |
| `Demo.TableShape` | run_benchmark_demo.py:32-78 | The table has the nine listed categories, `history` among them, with three responses each. |
| `Demo.CategoryResponses` | run_benchmark_demo.py:81 | `responses.get(category, responses['history'])`: a known category gets its own list and an unknown one gets the `history` list. Either way the list is one of the table's three-entry lists. |
| `Demo.DemoResponse` | run_benchmark_demo.py:80-85 | A known category's response is one of that category's entries. An unknown category's response is one of the `history` entries. |
| `Demo.UnknownCategoryActsAsHistory` | run_benchmark_demo.py:81 | An unknown category is answered exactly as a `history` question would be. |
| `Demo.ResponseRevealsCategory` | run_benchmark_demo.py:32-85 | No sentence is shared between two categories' lists. So a known category's response lies in no other category's list. |
| `Demo.MissingColumn` | run_benchmark_demo.py:20-23 | A row lacks no required column exactly when all three are present. Otherwise it names a required column the row lacks, like the `KeyError`. |
| `Demo.LoadQuestions` | run_benchmark_demo.py:12-26 | The load succeeds exactly when every row has the three columns. It then keeps exactly those three fields of each row, in file order. Otherwise it fails with the missing column of the first incomplete row. |
| `Demo.RunDemo` | run_benchmark_demo.py:103-123 | The demo driver gives one result per question, in order. Each result copies the fields, takes the clock reading, and carries the tags `unsloth/gemma-3-270m-it-GGUF` / `demo_simulation`. Its response comes from the category's list, or the `history` list. The notices are 10, 20, ... in that order, exactly at the multiples of ten. |
| `Demo.Bump` | run_benchmark_demo.py:147 | `counts[cat] = counts.get(cat, 0) + 1`: the key set gains `cat`, the count of `cat` is its old value (0 when absent) plus one, and every other count is unchanged. |
| `Demo.TotalIncrement` | run_benchmark_demo.py:147 | `counts.get(cat, 0) + 1` raises the sum of all counts by exactly one. |
| `Demo.TallyStep` | run_benchmark_demo.py:145-147 | One more iteration keeps the counts exact for the longer prefix of results. |
| `Demo.CountCategories` | run_benchmark_demo.py:144-147 | The keys are exactly the categories that occur. Each count is the number of results in that category and is at least 1. The counts sum to the number of results. |
| `Simulate.MockResponse` | test_demo.py:48 | The mock response is longer than its fixed template text plus the category, because the position adds at least one digit. |
| `Simulate.MockRoundTrip` | test_demo.py:48 | The 1-based position and the category can be read back out of a mock response. |
| `Simulate.MockResponsesDistinct` | test_demo.py:48 | Two mock responses are equal only for the same position and the same category. |
| `Simulate.SimulateResponses` | test_demo.py:41-55 | One result per row, in row order, with the row's fields copied and no tags. Each response is the mock for position `i + 1` and the row's category, and reads back as that pair. |

## Left out

- CSV and JSON reading and writing are not modelled: pandas, the `csv` and `json` modules, output file names, `ensure_ascii`. Loaded rows are an input sequence, and result rows are the output sequence.
- `check_requirements` and `load_benchmark_data` are not modelled. They are import and file probes. `RunMain` takes their outcomes as inputs: a boolean, and an optional row sequence.
- Torch, unsloth and transformers calls are not modelled. Tokenization, the 1024-token truncation, GPU placement, sampling and decoding are foreign library calls. They sit behind the `generate` parameter. It is indexed by the call, so each row's sample is its own.
- Whether the `<start_of_turn>model` marker survives decoding with `skip_special_tokens=True` depends on the tokenizer. The model covers both the marker-present and the marker-absent case.
- The sampling settings are left out: temperature, top-k, top-p, repetition penalty and max new tokens. They are floating-point knobs the code passes through.
- `datetime.now()` and `pd.Timestamp.now()` are left out. They are nondeterministic, so the timestamp is the opaque string `now(i)`.
- Python's salted string `hash` is not modelled. It is the parameter `hash`.
- The Arabic sentences of the demo table are left out. Each is replaced by a distinct label that names its category and slot. Only the table's shape, its lookup and the distinctness of its sentences matter.
- Console output is left out, except the "Completed" notice trace. That covers the "Processing question" lines, the banners, the sorted statistics printout and the three sample results.
- The `.value_counts()` summary and the sample display of `test_benchmark_loading` are left out. They are printing only.
- `Demo.LoadQuestions` does not model `csv.DictReader` details. Short rows get `None` values, extra columns are ignored, and quoting is not covered. A row is a map from column name to text.
- The `question_id` column is kept as text, not as the integer pandas would infer. The drivers only copy it.
- `Benchmark.RunBenchmark` and `Simulate.SimulateResponses` take a row's position as its data-frame index. This matches the default 0..n-1 index that `pd.read_csv` produces. A frame with another index would shift the notices and the mock positions.
- `Text.LastPieceStart`: when the separator does not occur, it states only that the last piece is a suffix, not that it is the whole text. That case is stated by `Text.LastPiece` and by `Chat.ExtractResponse`, which returns marker-free text unchanged.
- `Demo.DemoResponse`: equal question and category give equal responses only for one fixed hash function, that is within one Python process. Nothing is claimed across runs.
- `Benchmark.RunMain`: a data file that lacks a `question_id`, `question_category` or `question` column passes `pd.read_csv`, then raises an uncaught `KeyError` in `run_benchmark` after all three steps succeeded. Writing the results with `to_csv` can also raise. The model's rows are already typed questions and file output is not modelled, so neither crash is expressed. `Completed` means the loop ran to its end.
