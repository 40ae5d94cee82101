/** The `DocumentChunk` model: a stored piece of documentation with its metadata and an
    optional embedding, and its three validators. Instants are integers in microseconds; the
    creation time defaults to the `now` the caller passes in. */
module DocumentChunkModel {
  import opened Wrappers
  import opened Records
  import PyText

  /** The length of an embedding of the multilingual Cohere model. */
  const EmbeddingDimensions: nat := 1024

  datatype DocumentChunk = DocumentChunk(
    id: string,
    content: string,
    metadata: Metadata,
    embedding: Option<seq<real>>,
    createdAt: int)

  /** A chunk built from its id and content alone: empty metadata, no embedding, created now. */
  function NewDocumentChunk(id: string, content: string, now: int): (r: DocumentChunk)
    ensures r.id == id && r.content == content && r.createdAt == now
    ensures r.metadata == map[] && r.embedding == None
  {
    DocumentChunk(id, content, map[], None, now)
  }

  /** `validate_content`: empty or whitespace-only content is refused. */
  function ValidateContent(chunk: DocumentChunk): (r: Outcome)
    ensures r.Fail? <==> forall i :: 0 <= i < |chunk.content| ==> PyText.IsSpace(chunk.content[i])
    ensures r.Fail? ==> r.error == "Content must not be empty"
  {
    PyText.BlankIffAllSpace(chunk.content);
    if chunk.content == [] || PyText.IsBlank(chunk.content) then Fail("Content must not be empty") else Pass
  }

  /** `validate_embedding`: a missing or empty embedding is not checked; any other must have
      exactly 1024 components, and the error names the length found. */
  function ValidateEmbedding(chunk: DocumentChunk): (r: Outcome)
    ensures r.Pass? <==> chunk.embedding.None? || chunk.embedding.value == []
                         || |chunk.embedding.value| == EmbeddingDimensions
    ensures r.Fail? ==> r.error == "Embedding must have 1024 dimensions, got "
                                   + PyText.DecimalString(|chunk.embedding.value|)
  {
    match chunk.embedding
    case None => Pass
    case Some(e) =>
      if e == [] then Pass
      else if |e| != EmbeddingDimensions then
        Fail("Embedding must have 1024 dimensions, got " + PyText.DecimalString(|e|))
      else Pass
  }

  /** `validate_metadata`: the metadata must hold a `relative_path` key (of any value). */
  function ValidateMetadata(chunk: DocumentChunk): (r: Outcome)
    ensures r.Pass? <==> "relative_path" in chunk.metadata
    ensures r.Fail? ==> r.error == "metadata.relative_path must be a valid path reference"
  {
    if "relative_path" !in chunk.metadata then Fail("metadata.relative_path must be a valid path reference")
    else Pass
  }

  /** A chunk built with the default fields fails `validate_metadata`, passes
      `validate_embedding`, and passes `validate_content` exactly when its content is not
      blank. */
  lemma DefaultChunkValidation(id: string, content: string, now: int)
    ensures var chunk := NewDocumentChunk(id, content, now);
      && ValidateMetadata(chunk).Fail?
      && ValidateEmbedding(chunk).Pass?
      && (ValidateContent(chunk).Pass? <==> !PyText.IsBlank(content))
  {
    PyText.BlankIffAllSpace(content);
  }
}
