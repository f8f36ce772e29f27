/** The records that flow through every benchmark driver. */
module Records {
  import opened Common

  /** One benchmark row: the `question_id`, `question_category` and `question` columns. */
  datatype Question = Question(id: string, category: string, text: string)

  /** The constant `model` and `mode` columns the demo driver adds to each result. */
  datatype Tags = Tags(model: string, mode: string)

  /**
   * One output row: the question's fields, the response text, the creation
   * instant (kept opaque) and, for the demo driver, the extra tags.
   */
  datatype ResultRecord = ResultRecord(
    id: string,
    category: string,
    text: string,
    response: string,
    timestamp: string,
    tags: Option<Tags>)

  /** The result copies the identifying fields of the question unchanged. */
  predicate Carries(r: ResultRecord, q: Question) {
    r.id == q.id && r.category == q.category && r.text == q.text
  }
}
