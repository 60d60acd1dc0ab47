/** `run_query`, the `/hackrx/run` handler: chunk the document once, then
    for each question select up to three chunks (`min(3, len(chunks))`), ask the answerer with those
    chunks as context, and record the answer with a justification that
    echoes the chunks. */
module Query {
  import opened Words
  import opened Search

  /** The two `HTTPException`s the handler raises. */
  datatype HttpError = NoContent | MissingKey

  /** The HTTP status code of an error. */
  function Status(e: HttpError): int {
    match e
    case NoContent => 400
    case MissingKey => 500
  }

  /** The `detail` text of an error. */
  function Detail(e: HttpError): string {
    match e
    case NoContent => "Failed to process document or no content found"
    case MissingKey => "GROQ_API_KEY not configured"
  }

  datatype Result<T> = Ok(value: T) | Err(error: HttpError)

  /** One entry of the response's `answers` list. */
  datatype AnswerRecord = AnswerRecord(answer: string, justification: string)

  /** `top_k` as `run_query` passes it. */
  const TopKPerQuestion := 3

  const JustificationHeader := "Based on these document chunks:"

  /** The context handed to the answerer: `"\n".join(matched)`. */
  function Context(matched: seq<string>): string {
    Join(matched, "\n")
  }

  /** `"Based on these document chunks:\n- " + "\n- ".join(matched)`. */
  function Justification(matched: seq<string>): string {
    JustificationHeader + "\n- " + Join(matched, "\n- ")
  }

  /** `get_llama3_answer(question, context)`: fails with the 500 error when
      the API key is unset or empty, and otherwise returns whatever the
      language-model call `llm` gives back (its own failures come back as
      answer text). */
  function GetAnswer(apiKey: string, llm: (string, string) -> string, question: string, context: string)
    : (r: Result<string>)
    ensures r.Err? <==> apiKey == ""
    ensures r.Err? ==> r.error == MissingKey
    ensures r.Ok? ==> r.value == llm(question, context)
  {
    if apiKey == "" then Err(MissingKey) else Ok(llm(question, context))
  }

  /** The record for `question` when the answerer succeeds. */
  function Answered(question: string, chunks: seq<string>, llm: (string, string) -> string): AnswerRecord {
    var matched := TopK(question, chunks, TopKPerQuestion);
    AnswerRecord(llm(question, Context(matched)), Justification(matched))
  }

  /** `run_query(input)`. `process` stands for the document-to-chunks step,
      `apiKey` for the configured key and `llm` for the chat-completion
      call. */
  method RunQuery(documents: string, questions: seq<string>, process: string -> seq<string>,
                  apiKey: string, llm: (string, string) -> string)
    returns (r: Result<seq<AnswerRecord>>)
    ensures process(documents) == [] ==> r == Err(NoContent)
    ensures process(documents) != [] && questions != [] && apiKey == "" ==> r == Err(MissingKey)
    ensures process(documents) != [] && (questions == [] || apiKey != "") ==> r.Ok?
    ensures r.Err? ==> Status(r.error) == if process(documents) == [] then 400 else 500
    ensures r.Ok? ==> |r.value| == |questions|
    ensures r.Ok? ==> forall j :: 0 <= j < |questions| ==>
      r.value[j] == Answered(questions[j], process(documents), llm)
  {
    var chunks := process(documents);
    if chunks == [] {
      assert Status(NoContent) == 400;
      return Err(NoContent);
    }
    r := AnswerAll(questions, chunks, apiKey, llm);
  }

  /** The loop of `run_query` over the questions, for a non-empty chunk list:
      one record per question, in order, unless the answerer fails first. */
  method AnswerAll(questions: seq<string>, chunks: seq<string>, apiKey: string, llm: (string, string) -> string)
    returns (r: Result<seq<AnswerRecord>>)
    ensures r.Err? <==> questions != [] && apiKey == ""
    ensures r.Err? ==> r.error == MissingKey && Status(r.error) == 500
    ensures r.Ok? ==> |r.value| == |questions|
    ensures r.Ok? ==> forall j :: 0 <= j < |questions| ==> r.value[j] == Answered(questions[j], chunks, llm)
  {
    var answers: seq<AnswerRecord> := [];
    for n := 0 to |questions|
      invariant |answers| == n
      invariant n > 0 ==> apiKey != ""
      invariant forall j :: 0 <= j < n ==> answers[j] == Answered(questions[j], chunks, llm)
    {
      var rec := AnswerOne(questions[n], chunks, apiKey, llm);
      if rec.Err? {
        assert Status(MissingKey) == 500;
        return Err(rec.error);
      }
      answers := answers + [rec.value];
    }
    return Ok(answers);
  }

  /** The body of `run_query`'s loop for one question: select the chunks,
      join them into the context, ask, and build the record. */
  method AnswerOne(question: string, chunks: seq<string>, apiKey: string, llm: (string, string) -> string)
    returns (r: Result<AnswerRecord>)
    ensures r.Err? <==> apiKey == ""
    ensures r.Err? ==> r.error == MissingKey
    ensures r.Ok? ==> r.value == Answered(question, chunks, llm)
  {
    var matched := SimpleSimilaritySearch(question, chunks, TopKPerQuestion);
    var context := Context(matched);
    var answer := GetAnswer(apiKey, llm, question, context);
    if answer.Err? {
      return Err(answer.error);
    }
    return Ok(AnswerRecord(answer.value, Justification(matched)));
  }

  // ---------------------------------------------------------------------
  // Properties of the records

  /** The justification is the header line followed by one `"\n- "` bullet
      per matched chunk, in selection order. */
  lemma JustificationBullets(matched: seq<string>)
    requires matched != []
    ensures Justification(matched) == JustificationHeader + Concat(Prefixed("\n- ", matched))
  {
    JoinAsPrefixed(matched, "\n- ");
    assert matched == [matched[0]] + matched[1..];
    assert Prefixed("\n- ", matched) == ["\n- " + matched[0]] + Prefixed("\n- ", matched[1..]);
  }

  /** For a document with chunks, every answer record lists exactly
      `min(3, len(chunks))` chunks of the document, and the same chunks,
      newline-joined, are what the answerer was given. Which chunks, and in
      what order, is stated by `SelectedDistinct`, `SelectedOrder` and
      `SelectedDominates`. */
  lemma AnsweredShape(question: string, chunks: seq<string>, llm: (string, string) -> string)
    requires chunks != []
    ensures
      var matched := TopK(question, chunks, TopKPerQuestion);
      var rec := Answered(question, chunks, llm);
      && |matched| == (if |chunks| < 3 then |chunks| else 3)
      && (forall j :: 0 <= j < |matched| ==> matched[j] in chunks)
      && rec.justification == JustificationHeader + Concat(Prefixed("\n- ", matched))
      && rec.answer == llm(question, Join(matched, "\n"))
  {
    var matched := TopK(question, chunks, TopKPerQuestion);
    TopKLength(question, chunks, TopKPerQuestion);
    JustificationBullets(matched);
  }
}
