/** The response data models: `SourceReference`, whose score field is constrained to [0, 1],
    and the two validators of `Response`. */
module ResponseModel {
  import opened Wrappers
  import PyText

  /** A source used in a response. */
  datatype SourceReference = SourceReference(
    documentId: string,
    relativePath: string,
    score: real,
    contentPreview: string)

  /** The field constraint `ge=0.0, le=1.0` on `score`. */
  predicate InRange(score: real) {
    0.0 <= score <= 1.0
  }

  /** Constructing a `SourceReference`: the model refuses a score outside [0, 1] with a
      validation error, and otherwise holds exactly the given fields. */
  function NewSourceReference(documentId: string, relativePath: string, score: real, contentPreview: string)
    : (r: Result<SourceReference>)
    ensures r.Ok? <==> InRange(score)
    ensures r.Ok? ==> && r.value.documentId == documentId && r.value.relativePath == relativePath
                      && r.value.score == score && r.value.contentPreview == contentPreview
  {
    if InRange(score) then Ok(SourceReference(documentId, relativePath, score, contentPreview))
    else Err("ValidationError: score must be between 0 and 1")
  }

  /** A generated response. The timestamp is an instant in microseconds. */
  datatype Response = Response(
    id: string,
    queryId: string,
    content: string,
    sources: seq<SourceReference>,
    timestamp: int)

  /** `Response.validate_content`: empty or whitespace-only content is refused. */
  function ValidateContent(content: string): (r: Outcome)
    ensures r.Fail? <==> forall i :: 0 <= i < |content| ==> PyText.IsSpace(content[i])
  {
    PyText.BlankIffAllSpace(content);
    if content == [] || |PyText.Strip(content)| == 0 then Fail("Content must not be empty") else Pass
  }

  /** `Response.validate_sources`: a response that is not an error response needs a source,
      and every source needs a score in [0, 1]; the missing source is reported first. */
  function ValidateSources(sources: seq<SourceReference>, isErrorResponse: bool): (r: Outcome)
    ensures r.Fail? <==> || (!isErrorResponse && sources == [])
                         || exists k :: 0 <= k < |sources| && !InRange(sources[k].score)
    ensures !isErrorResponse && sources == [] ==>
      r == Fail("Sources array must contain at least one source for non-error responses")
    ensures isErrorResponse && sources == [] ==> r == Pass
  {
    if !isErrorResponse && |sources| == 0 then
      Fail("Sources array must contain at least one source for non-error responses")
    else ScoresInRange(sources)
  }

  /** The loop over the sources of `validate_sources`: the first out-of-range score fails. */
  function ScoresInRange(sources: seq<SourceReference>): (r: Outcome)
    ensures r.Pass? <==> forall k :: 0 <= k < |sources| ==> InRange(sources[k].score)
  {
    if sources == [] then Pass
    else if sources[0].score < 0.0 || sources[0].score > 1.0 then
      Fail("Each source must have a score between 0 and 1")
    else
      var rest := ScoresInRange(sources[1..]);
      assert forall k :: 1 <= k < |sources| ==> sources[k] == sources[1..][k - 1];
      rest
  }

  /** A list of constructed references never fails the score check of `validate_sources`:
      the field constraint already rules every out-of-range score out. */
  lemma ConstructedPassScoreCheck(sources: seq<SourceReference>,
                                  args: seq<(string, string, real, string)>)
    requires |sources| == |args|
    requires forall k :: 0 <= k < |args| ==>
      NewSourceReference(args[k].0, args[k].1, args[k].2, args[k].3) == Ok(sources[k])
    ensures ScoresInRange(sources) == Pass
    ensures ValidateSources(sources, false) == Pass <==> sources != []
  {
    forall k | 0 <= k < |sources| ensures InRange(sources[k].score) {
      assert NewSourceReference(args[k].0, args[k].1, args[k].2, args[k].3).Ok?;
    }
  }
}
