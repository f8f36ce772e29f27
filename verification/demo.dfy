/**
 * run_benchmark_demo.py: the row loader, the table-driven mock response
 * generator, the demo driver and the per-category statistics.
 */
module Demo {
  import opened Common
  import opened Text
  import opened Records
  import opened Driver
  import ModelSetup

  /** The categories the response table knows, in the order the source lists them. */
  const Categories: seq<string> := [
    "history", "culture", "literature", "localDialects", "reasoning",
    "footballSport", "music&art", "media", "coding"
  ]

  /** The category whose responses stand in for any unknown category. */
  const DefaultCategory: string := "history"

  /** Every category has this many canned responses. */
  const SlotsPerCategory: nat := 3

  /**
   * Stand-in for the canned Arabic sentence in position `slot` of a
   * category's list: a label that names its category and slot.
   */
  function Entry(category: string, slot: nat): (entry: string)
    requires slot < SlotsPerCategory
    ensures |entry| == |category| + 2
    ensures entry[..|category|] == category
  {
    category + "#" + [DigitChar(slot)]
  }

  /** The three canned responses of `category`, in table order. */
  function Slots(category: string): (entries: seq<string>)
    ensures |entries| == SlotsPerCategory
    ensures forall k :: 0 <= k < |entries| ==> |entries[k]| == |category| + 2 && entries[k][..|category|] == category
  {
    [Entry(category, 0), Entry(category, 1), Entry(category, 2)]
  }

  /** The `responses` dictionary of `generate_realistic_arabic_response`. */
  const ResponseTable: map<string, seq<string>> := map[
    "history" := Slots("history"),
    "culture" := Slots("culture"),
    "literature" := Slots("literature"),
    "localDialects" := Slots("localDialects"),
    "reasoning" := Slots("reasoning"),
    "footballSport" := Slots("footballSport"),
    "music&art" := Slots("music&art"),
    "media" := Slots("media"),
    "coding" := Slots("coding")
  ]

  /** The table has one list of three responses per listed category, and nothing else. */
  lemma TableShape()
    ensures ResponseTable.Keys == set c | c in Categories
    ensures DefaultCategory in ResponseTable
    ensures forall c :: c in ResponseTable ==> |ResponseTable[c]| == SlotsPerCategory
  {
  }

  /** Python's `a % b`: the remainder takes the sign of the divisor (floor division). */
  function PyMod(a: int, b: int): (r: int)
    requires b != 0
    ensures b > 0 ==> 0 <= r < b
    ensures b < 0 ==> b < r <= 0
    ensures exists q :: a == q * b + r
  {
    var m := a % (if b > 0 then b else -b);
    var q := a / (if b > 0 then b else -b);
    if b > 0 || m == 0 then
      assert a == (if b > 0 then q else -q) * b + m;
      m
    else
      assert a == (-q - 1) * b + (m + b);
      m + b
  }

  /** `responses.get(category, responses['history'])`. */
  function CategoryResponses(category: string): (responses: seq<string>)
    ensures category in ResponseTable ==> responses == ResponseTable[category]
    ensures category !in ResponseTable ==> responses == ResponseTable[DefaultCategory]
    ensures |responses| == SlotsPerCategory
    ensures responses in ResponseTable.Values
  {
    if category in ResponseTable then ResponseTable[category] else ResponseTable[DefaultCategory]
  }

  /**
   * `generate_realistic_arabic_response`: pick the category's list (or the
   * history list for an unknown category) and index it with
   * `hash(question) % len(list)`. Python's string hash is salted per
   * process, so it is a parameter here.
   */
  function DemoResponse(hash: string -> int, question: string, category: string): (response: string)
    ensures category in ResponseTable ==> response in ResponseTable[category]
    ensures category !in ResponseTable ==> response in ResponseTable[DefaultCategory]
  {
    var responses := CategoryResponses(category);
    responses[PyMod(hash(question), |responses|)]
  }

  /** An unknown category is answered exactly as a history question would be. */
  lemma UnknownCategoryActsAsHistory(hash: string -> int, question: string, category: string)
    requires category !in ResponseTable
    ensures DemoResponse(hash, question, category) == DemoResponse(hash, question, DefaultCategory)
  {
  }

  /** The list of a known category holds the entries labelled with that category. */
  lemma TableLookup(category: string)
    requires category in ResponseTable
    ensures ResponseTable[category] == Slots(category)
  {
  }

  /** Entries of two categories' lists coincide only when the categories do. */
  lemma EntriesDisjoint(entry: string, category: string, other: string)
    requires entry in Slots(category)
    requires entry in Slots(other)
    ensures other == category
  {
    assert |entry| == |category| + 2 && entry[..|category|] == category;
    assert |entry| == |other| + 2 && entry[..|other|] == other;
  }

  /** A response drawn from a known category's list belongs to that list only. */
  lemma ResponseRevealsCategory(hash: string -> int, question: string, category: string, other: string)
    requires category in ResponseTable && other in ResponseTable
    requires DemoResponse(hash, question, category) in ResponseTable[other]
    ensures other == category
  {
    var r := DemoResponse(hash, question, category);
    TableLookup(category);
    TableLookup(other);
    EntriesDisjoint(r, category, other);
  }

  /** The three columns `load_benchmark_questions` keeps, in the order it reads them. */
  const RequiredColumns: seq<string> := ["question_id", "question_category", "question"]

  /** The first required column a CSV row lacks, if any (the key of the `KeyError`). */
  function MissingColumn(row: map<string, string>): (missing: Option<string>)
    ensures missing.None? <==> forall c :: c in RequiredColumns ==> c in row
    ensures missing.Some? ==> missing.value in RequiredColumns && missing.value !in row
  {
    if "question_id" !in row then Some("question_id")
    else if "question_category" !in row then Some("question_category")
    else if "question" !in row then Some("question")
    else None
  }

  /** A row has every required column. */
  predicate Complete(row: map<string, string>) {
    forall c :: c in RequiredColumns ==> c in row
  }

  /**
   * `load_benchmark_questions` after the CSV has been read into one
   * dictionary per row: keep the three columns of every row, in file order;
   * a missing column stops the load with that column's name.
   */
  function LoadQuestions(rows: seq<map<string, string>>): (loaded: Result<seq<Question>, string>)
    ensures loaded.Success? <==> forall k :: 0 <= k < |rows| ==> Complete(rows[k])
    ensures loaded.Success? ==> |loaded.value| == |rows|
    ensures loaded.Success? ==>
              forall k :: 0 <= k < |rows| ==>
                Complete(rows[k]) &&
                loaded.value[k] == Question(rows[k]["question_id"], rows[k]["question_category"], rows[k]["question"])
    ensures loaded.Failure? ==>
              exists k :: 0 <= k < |rows|
                          && (forall j :: 0 <= j < k ==> Complete(rows[j]))
                          && MissingColumn(rows[k]) == Some(loaded.error)
    decreases |rows|
  {
    if |rows| == 0 then Success([])
    else
      match MissingColumn(rows[0])
      case Some(column) =>
        Failure(column)
      case None =>
        var row := rows[0];
        var question := Question(row["question_id"], row["question_category"], row["question"]);
        match LoadQuestions(rows[1..])
        case Failure(column) =>
          FailureShifts(rows, column);
          Failure(column)
        case Success(rest) =>
          assert forall k :: 1 <= k < |rows| ==> rows[k] == rows[1..][k - 1];
          Success([question] + rest)
  }

  /** A failure of the load of the later rows is a failure of the load of all rows. */
  lemma FailureShifts(rows: seq<map<string, string>>, column: string)
    requires |rows| > 0 && Complete(rows[0])
    requires exists k :: 0 <= k < |rows[1..]|
                         && (forall j :: 0 <= j < k ==> Complete(rows[1..][j]))
                         && MissingColumn(rows[1..][k]) == Some(column)
    ensures exists k :: 0 <= k < |rows|
                        && (forall j :: 0 <= j < k ==> Complete(rows[j]))
                        && MissingColumn(rows[k]) == Some(column)
  {
    var k :| 0 <= k < |rows[1..]|
             && (forall j :: 0 <= j < k ==> Complete(rows[1..][j]))
             && MissingColumn(rows[1..][k]) == Some(column);
    assert forall j :: 1 <= j < k + 1 ==> rows[j] == rows[1..][j - 1];
    assert rows[k + 1] == rows[1..][k];
  }

  /** The constant tags of every demo result. */
  const DemoTags: Tags := Tags(ModelSetup.GgufModel, "demo_simulation")

  /**
   * The loop of the demo `run_benchmark`: one tagged result per question,
   * in order, answered from the response table; a "Completed" notice after
   * every tenth question.
   */
  method RunDemo(hash: string -> int, questions: seq<Question>, now: nat -> string)
    returns (results: seq<ResultRecord>, notices: seq<nat>)
    ensures |results| == |questions|
    ensures forall i :: 0 <= i < |questions| ==> Carries(results[i], questions[i])
    ensures forall i :: 0 <= i < |questions| ==> results[i].timestamp == now(i)
    ensures forall i :: 0 <= i < |questions| ==>
              results[i].tags == Some(Tags("unsloth/gemma-3-270m-it-GGUF", "demo_simulation"))
    ensures forall i :: 0 <= i < |questions| ==>
              results[i].response == DemoResponse(hash, questions[i].text, questions[i].category)
    ensures forall i :: 0 <= i < |questions| && questions[i].category in ResponseTable ==>
              results[i].response in ResponseTable[questions[i].category]
    ensures forall i :: 0 <= i < |questions| && questions[i].category !in ResponseTable ==>
              results[i].response in ResponseTable[DefaultCategory]
    ensures notices == Cadence(|questions|)
    ensures |notices| == |questions| / NoticeEvery
    ensures forall count :: count in notices <==> 1 <= count <= |questions| && count % NoticeEvery == 0
  {
    results, notices := Drive(questions, (i: nat, q: Question) => DemoResponse(hash, q.text, q.category), now, Some(DemoTags), true);
    forall count
      ensures count in notices <==> 1 <= count <= |questions| && count % NoticeEvery == 0
    {
      CadenceMembers(|questions|, count);
    }
  }

  /** How many results fall in `category`. */
  function Occurrences(results: seq<ResultRecord>, category: string): nat
    decreases |results|
  {
    if |results| == 0 then 0
    else Occurrences(results[..|results| - 1], category) + (if results[|results| - 1].category == category then 1 else 0)
  }

  /** The categories that occur among the results. */
  function CategoriesOf(results: seq<ResultRecord>): set<string> {
    set i | 0 <= i < |results| :: results[i].category
  }

  /** The sum of all counts in a count table. */
  ghost function Total(counts: map<string, nat>): nat
    decreases |counts.Keys|
  {
    if counts.Keys == {} then 0
    else
      var c :| c in counts.Keys;
      counts[c] + Total(counts - {c})
  }

  /** Taking one key out of a map leaves one key fewer. */
  lemma RemoveSize(counts: map<string, nat>, c: string)
    requires c in counts
    ensures |(counts - {c}).Keys| == |counts.Keys| - 1
  {
    assert (counts - {c}).Keys == counts.Keys - {c};
  }

  /** The sum does not depend on which key is taken out first. */
  lemma {:induction false} TotalRemove(counts: map<string, nat>, c: string)
    requires c in counts
    ensures Total(counts) == counts[c] + Total(counts - {c})
    decreases |counts.Keys|
  {
    var d :| d in counts.Keys && Total(counts) == counts[d] + Total(counts - {d});
    if d != c {
      var withoutD := counts - {d};
      var withoutC := counts - {c};
      RemoveSize(counts, d);
      RemoveSize(counts, c);
      TotalRemove(withoutD, c);
      TotalRemove(withoutC, d);
      assert withoutD - {c} == withoutC - {d};
    }
  }

  /** `counts.get(category, 0) + 1` stored back under `category`. */
  function Bump(counts: map<string, nat>, category: string): (bumped: map<string, nat>)
    ensures bumped.Keys == counts.Keys + {category}
    ensures bumped[category] == (if category in counts then counts[category] else 0) + 1
    ensures forall c :: c in counts && c != category ==> bumped[c] == counts[c]
  {
    counts[category := (if category in counts then counts[category] else 0) + 1]
  }

  /** Incrementing one count (from 0 when absent) adds one to the sum. */
  lemma TotalIncrement(counts: map<string, nat>, c: string)
    ensures Total(Bump(counts, c)) == Total(counts) + 1
  {
    var updated := Bump(counts, c);
    TotalRemove(updated, c);
    assert updated - {c} == counts - {c};
    if c in counts {
      TotalRemove(counts, c);
    } else {
      assert counts - {c} == counts;
    }
  }

  /** `counts` holds, for each category occurring in `results`, how often it occurs, and no other key. */
  ghost predicate Tallies(counts: map<string, nat>, results: seq<ResultRecord>) {
    && counts.Keys == CategoriesOf(results)
    && forall c :: c in counts ==> counts[c] == Occurrences(results, c) && counts[c] >= 1
  }

  /** Bumping the category of the next result keeps the tally of the prefix exact. */
  lemma TallyStep(counts: map<string, nat>, results: seq<ResultRecord>, i: nat)
    requires i < |results|
    requires Tallies(counts, results[..i])
    ensures Tallies(Bump(counts, results[i].category), results[..i + 1])
  {
    var shorter, longer, category := results[..i], results[..i + 1], results[i].category;
    assert longer[..i] == shorter;
    assert CategoriesOf(longer) == CategoriesOf(shorter) + {category} by {
      assert forall k :: 0 <= k < i ==> longer[k] == shorter[k];
      assert longer[i] == results[i];
    }
    if category !in counts {
      OccurrencesAbsent(shorter, category);
    }
    var bumped := Bump(counts, category);
    forall c | c in bumped
      ensures bumped[c] == Occurrences(longer, c) && bumped[c] >= 1
    {
      assert Occurrences(longer, c) == Occurrences(shorter, c) + (if c == category then 1 else 0);
    }
  }

  /** One iteration of the counting loop keeps both the tally and the total exact. */
  lemma CountStep(counts: map<string, nat>, results: seq<ResultRecord>, i: nat)
    requires i < |results|
    requires Tallies(counts, results[..i]) && Total(counts) == i
    ensures Tallies(Bump(counts, results[i].category), results[..i + 1])
    ensures Total(Bump(counts, results[i].category)) == i + 1
  {
    TotalIncrement(counts, results[i].category);
    TallyStep(counts, results, i);
  }

  /**
   * The statistics loop of the demo `run_benchmark`:
   * `category_counts[cat] = category_counts.get(cat, 0) + 1` over all
   * results.
   */
  method CountCategories(results: seq<ResultRecord>) returns (counts: map<string, nat>)
    ensures Tallies(counts, results)
    ensures Total(counts) == |results|
  {
    counts := map[];
    var i := 0;
    while i < |results|
      invariant 0 <= i <= |results|
      invariant Tallies(counts, results[..i])
      invariant Total(counts) == i
    {
      CountStep(counts, results, i);
      counts := Bump(counts, results[i].category);
      i := i + 1;
    }
    assert results[..i] == results;
  }

  /** A category that never occurs is counted zero times. */
  lemma {:induction false} OccurrencesAbsent(results: seq<ResultRecord>, category: string)
    requires category !in CategoriesOf(results)
    ensures Occurrences(results, category) == 0
    decreases |results|
  {
    if |results| > 0 {
      var shorter := results[..|results| - 1];
      assert CategoriesOf(shorter) <= CategoriesOf(results) by {
        forall c | c in CategoriesOf(shorter)
          ensures c in CategoriesOf(results)
        {
          var k :| 0 <= k < |shorter| && shorter[k].category == c;
          assert results[k] == shorter[k];
        }
      }
      OccurrencesAbsent(shorter, category);
      assert results[|results| - 1].category in CategoriesOf(results);
    }
  }
}
