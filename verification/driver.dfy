/**
 * The loop shared by the three benchmark drivers: walk the rows in order,
 * build one result per row from the row's own fields, and (for the two
 * `run_benchmark` loops) emit a "Completed" notice after every tenth row.
 */
module Driver {
  import opened Common
  import opened Records

  /** How often a "Completed" notice is printed. */
  const NoticeEvery: nat := 10

  /** The counts reported by "Completed" notices over a run of `n` rows: 10, 20, ... */
  function Cadence(n: nat): (counts: seq<nat>)
    ensures |counts| == n / NoticeEvery
    ensures forall a, b :: 0 <= a < b < |counts| ==> counts[a] < counts[b]
  {
    seq(n / NoticeEvery, j requires 0 <= j => NoticeEvery * (j + 1))
  }

  /** A count is announced exactly when it is a positive multiple of ten not above `n`. */
  lemma CadenceMembers(n: nat, count: int)
    ensures count in Cadence(n) <==> 1 <= count <= n && count % NoticeEvery == 0
  {
    var c := Cadence(n);
    if 1 <= count <= n && count % NoticeEvery == 0 {
      var j := count / NoticeEvery - 1;
      assert 0 <= j < |c|;
      assert c[j] == count;
    }
  }

  /** Processing one more row adds a notice exactly when the new row count is a multiple of ten. */
  lemma CadenceStep(n: nat)
    ensures Cadence(n + 1) == Cadence(n) + (if (n + 1) % NoticeEvery == 0 then [n + 1] else [])
  {
    if (n + 1) % NoticeEvery == 0 {
      assert (n + 1) / NoticeEvery == n / NoticeEvery + 1;
    } else {
      assert (n + 1) / NoticeEvery == n / NoticeEvery;
    }
  }

  /**
   * The driver loop. `respond` computes the response of the row at a
   * position, `now` stands for the clock read when that row's result is
   * built, `tags` are the extra columns, and `notify` says whether the loop
   * prints progress notices.
   */
  method Drive(rows: seq<Question>, respond: (nat, Question) -> string, now: nat -> string, tags: Option<Tags>, notify: bool)
    returns (results: seq<ResultRecord>, notices: seq<nat>)
    ensures |results| == |rows|
    ensures forall i :: 0 <= i < |rows| ==> Carries(results[i], rows[i])
    ensures forall i :: 0 <= i < |rows| ==> results[i].response == respond(i, rows[i])
    ensures forall i :: 0 <= i < |rows| ==> results[i].timestamp == now(i) && results[i].tags == tags
    ensures notify ==> notices == Cadence(|rows|)
    ensures !notify ==> notices == []
  {
    results := [];
    notices := [];
    var i := 0;
    while i < |rows|
      invariant 0 <= i <= |rows|
      invariant |results| == i
      invariant forall k :: 0 <= k < i ==> Carries(results[k], rows[k])
      invariant forall k :: 0 <= k < i ==> results[k].response == respond(k, rows[k])
      invariant forall k :: 0 <= k < i ==> results[k].timestamp == now(k) && results[k].tags == tags
      invariant notices == if notify then Cadence(i) else []
    {
      var row := rows[i];
      var result := ResultRecord(row.id, row.category, row.text, respond(i, row), now(i), tags);
      results := results + [result];
      if notify && (i + 1) % NoticeEvery == 0 {
        notices := notices + [i + 1];
      }
      CadenceStep(i);
      i := i + 1;
    }
  }
}
