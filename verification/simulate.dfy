/**
 * `simulate_model_responses` in test_demo.py: a mock response per row
 * that names the row's 1-based position and its category.
 */
module Simulate {
  import opened Common
  import opened Text
  import opened Records
  import opened Driver

  /** Text of the mock template before the position ("this is a test reply to question number "). */
  const MockLead: string := "هذا رد تجريبي للسؤال رقم "

  /** Text of the mock template between the position and the category (" in category "). */
  const MockMiddle: string := " في فئة "

  /** The mock response for the row at 1-based `position` in `category`. */
  function MockResponse(position: nat, category: string): (response: string)
    ensures |response| > |MockLead| + |MockMiddle| + |category|
  {
    MockLead + Decimal(position) + MockMiddle + category
  }

  /** Reads the position and the category back out of a mock response. */
  function ParseMock(response: string): (parsed: Option<(nat, string)>)
  {
    if |response| < |MockLead| || response[..|MockLead|] != MockLead then None
    else
      var rest := response[|MockLead|..];
      var digits := DigitRun(rest);
      var after := rest[|digits|..];
      if |digits| == 0 || |after| < |MockMiddle| || after[..|MockMiddle|] != MockMiddle then None
      else Some((ParseDecimal(digits), after[|MockMiddle|..]))
  }

  /** A mock response carries its position and category recoverably. */
  lemma MockRoundTrip(position: nat, category: string)
    ensures ParseMock(MockResponse(position, category)) == Some((position, category))
  {
    var digits := Decimal(position);
    var tail := MockMiddle + category;
    var response := MockResponse(position, category);
    assert response == MockLead + (digits + tail);
    assert response[..|MockLead|] == MockLead;
    var rest := response[|MockLead|..];
    assert rest == digits + tail;
    assert tail[0] == ' ';
    DigitRunStopsAt(digits, tail);
    assert rest[|digits|..] == tail;
    assert tail[..|MockMiddle|] == MockMiddle;
    assert tail[|MockMiddle|..] == category;
    DecimalRoundTrip(position);
  }

  /** Rows at different positions, or in different categories, get different mock responses. */
  lemma MockResponsesDistinct(position: nat, category: string, position': nat, category': string)
    requires MockResponse(position, category) == MockResponse(position', category')
    ensures position == position' && category == category'
  {
    MockRoundTrip(position, category);
    MockRoundTrip(position', category');
  }

  /**
   * `simulate_model_responses`: one result per row, in row order, with the
   * row's fields copied and the mock response for position `idx + 1`;
   * no progress notices. Rows are positioned 0..n-1, as in a freshly read
   * data frame; `now` stands for `pd.Timestamp.now()`.
   */
  method SimulateResponses(rows: seq<Question>, now: nat -> string) returns (results: seq<ResultRecord>)
    ensures |results| == |rows|
    ensures forall i :: 0 <= i < |rows| ==> Carries(results[i], rows[i]) && results[i].tags.None?
    ensures forall i :: 0 <= i < |rows| ==> results[i].response == MockResponse(i + 1, rows[i].category)
    ensures forall i :: 0 <= i < |rows| ==> results[i].timestamp == now(i)
    ensures forall i :: 0 <= i < |rows| ==> ParseMock(results[i].response) == Some((i + 1, rows[i].category))
  {
    var notices;
    results, notices := Drive(rows, (i: nat, q: Question) => MockResponse(i + 1, q.category), now, None, false);
    forall i | 0 <= i < |rows|
      ensures ParseMock(results[i].response) == Some((i + 1, rows[i].category))
    {
      MockRoundTrip(i + 1, rows[i].category);
    }
  }
}
