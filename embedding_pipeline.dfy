/** The chunking and embedding stages of the indexing pipeline
    (`backend/embeddings/embedding_pipeline.py`): every documentation file is cut into
    chunks that carry an id and the file's metadata, and the chunks are then embedded ten at
    a time by an embedding service that may fail. */
module EmbeddingPipeline {
  import opened Wrappers
  import opened Records
  import PyText
  import Seqs
  import Chunking

  /** One loaded documentation file: its text and its metadata dictionary. */
  datatype SourceDoc = SourceDoc(content: string, metadata: Metadata)

  /** The number of chunks sent to the embedding service at once. */
  const BatchSize: nat := 10

  /** The text between the relative path and the chunk number in a chunk id. */
  const ChunkInfix: string := "_chunk_"

  /** The message of the `KeyError` raised for a file whose metadata lacks the path. */
  const MissingPath: string := "KeyError: 'relative_path'"

  // ---------------------------------------------------------------- chunk dictionaries

  /** The relative path, when present, is a value whose `str()` the model fixes. */
  predicate PrintablePath(md: Metadata) {
    "relative_path" in md ==> !md["relative_path"].VReal?
  }

  /** Every file can be chunked (see `Chunking.Terminates`) and its path printed. */
  predicate Chunkable(documents: seq<SourceDoc>, chunkSize: int, overlap: int) {
    forall d :: 0 <= d < |documents| ==>
      Chunking.Terminates(documents[d].content, chunkSize, overlap) && PrintablePath(documents[d].metadata)
  }

  /** A file after chunking: its metadata and the chunk texts `chunk_text` gave for it. */
  datatype ChunkedFile = ChunkedFile(metadata: Metadata, pieces: seq<string>)

  /** The files of `documents` after chunking, in order. */
  function ChunkedFiles(documents: seq<SourceDoc>, chunkSize: int, overlap: int): (r: seq<ChunkedFile>)
    requires Chunkable(documents, chunkSize, overlap)
    ensures |r| == |documents|
  {
    seq(|documents|, d requires 0 <= d < |documents| && Chunkable(documents, chunkSize, overlap) =>
      ChunkedFile(documents[d].metadata, Chunking.Chunks(documents[d].content, chunkSize, overlap)))
  }

  /** Every chunked file's path can be printed. */
  predicate Printable(files: seq<ChunkedFile>) {
    forall d :: 0 <= d < |files| ==> PrintablePath(files[d].metadata)
  }

  /** The dictionary built for chunk `i` of the `n` chunks of a file: id
      `f"{relative_path}_chunk_{i}"`, the chunk text, and the file's metadata with
      `chunk_index` and `total_chunks` added. */
  function ChunkDoc(path: string, chunk: string, md: Metadata, i: nat, n: nat): Doc {
    Doc(Some(path + ChunkInfix + PyText.DecimalString(i)), chunk,
        md["chunk_index" := VInt(i)]["total_chunks" := VInt(n)], None, None)
  }

  /** The dictionaries of the first `i` chunks of a file. */
  function ChunkDocs(path: string, pieces: seq<string>, md: Metadata, i: nat): (r: seq<Doc>)
    requires i <= |pieces|
    ensures |r| == i
  {
    seq(i, k requires 0 <= k < i => ChunkDoc(path, pieces[k], md, k, |pieces|))
  }

  /** The chunk dictionaries of one file; a file with chunks but no `relative_path` raises. */
  function FileChunks(file: ChunkedFile): Result<seq<Doc>>
    requires PrintablePath(file.metadata)
  {
    if file.pieces == [] then Ok([])
    else if "relative_path" !in file.metadata then Err(MissingPath)
    else Ok(ChunkDocs(PyStr(file.metadata["relative_path"]), file.pieces, file.metadata, |file.pieces|))
  }

  /** The chunk dictionaries of every file, file after file; the first failing file fails
      the whole list. */
  function Assembled(files: seq<ChunkedFile>): Result<seq<Doc>>
    requires Printable(files)
    decreases |files|
  {
    if files == [] then Ok([])
    else
      var n := |files| - 1;
      match Assembled(files[..n])
      case Err(e) => Err(e)
      case Ok(before) =>
        match FileChunks(files[n])
        case Err(e) => Err(e)
        case Ok(mine) => Ok(before + mine)
  }

  /** `process_documentation_chunks(documents, chunk_size, overlap)` as a function. */
  function Processed(documents: seq<SourceDoc>, chunkSize: int, overlap: int): Result<seq<Doc>>
    requires Chunkable(documents, chunkSize, overlap)
  {
    ChunkedPrintable(documents, chunkSize, overlap);
    Assembled(ChunkedFiles(documents, chunkSize, overlap))
  }

  lemma ChunkedPrintable(documents: seq<SourceDoc>, chunkSize: int, overlap: int)
    requires Chunkable(documents, chunkSize, overlap)
    ensures Printable(ChunkedFiles(documents, chunkSize, overlap))
  {
  }

  /** `process_documentation_chunks`: the loop over the files and, inside it, the loop over
      the chunks of each file. */
  method ProcessDocumentationChunks(documents: seq<SourceDoc>, chunkSize: int, overlap: int)
    returns (r: Result<seq<Doc>>)
    requires Chunkable(documents, chunkSize, overlap)
    ensures r == Processed(documents, chunkSize, overlap)
  {
    ghost var files := ChunkedFiles(documents, chunkSize, overlap);
    ChunkedPrintable(documents, chunkSize, overlap);
    var chunks: seq<Doc> := [];
    var d := 0;
    while d < |documents|
      invariant 0 <= d <= |documents|
      invariant Assembled(files[..d]) == Ok(chunks)
    {
      var doc := documents[d];
      var contentChunks := Chunking.ChunkText(doc.content, chunkSize, overlap);
      ChunkedAt(documents, chunkSize, overlap, d, contentChunks);
      ghost var before := chunks;
      var i := 0;
      while i < |contentChunks|
        invariant 0 <= i <= |contentChunks|
        invariant Partial(before, doc.metadata, contentChunks, i, chunks)
      {
        if "relative_path" !in doc.metadata {
          AssembledErrAt(files, d);
          return Err(MissingPath);
        }
        var path := PyStr(doc.metadata["relative_path"]);
        var chunkDoc := ChunkDoc(path, contentChunks[i], doc.metadata, i, |contentChunks|);
        ChunkDocsStep(before, doc.metadata, contentChunks, i, chunks, path, chunkDoc);
        chunks := chunks + [chunkDoc];
        i := i + 1;
      }
      AssembledStep(files, d, before, chunks);
      d := d + 1;
    }
    Seqs.PrefixAll(files);
    return Ok(chunks);
  }

  /** The inner loop invariant: after `i` chunks of a file, its first `i` dictionaries
      follow what came before. */
  ghost predicate Partial(before: seq<Doc>, md: Metadata, pieces: seq<string>, i: nat, chunks: seq<Doc>)
    requires i <= |pieces|
  {
    && (i == 0 ==> chunks == before)
    && (i > 0 ==> ("relative_path" in md && !md["relative_path"].VReal?
          && chunks == before + ChunkDocs(PyStr(md["relative_path"]), pieces, md, i)))
  }

  /** One pass of the inner loop appends the dictionary of chunk `i`. */
  lemma ChunkDocsStep(before: seq<Doc>, md: Metadata, pieces: seq<string>, i: nat, chunks: seq<Doc>,
                      path: string, next: Doc)
    requires i < |pieces| && Partial(before, md, pieces, i, chunks)
    requires "relative_path" in md && !md["relative_path"].VReal? && path == PyStr(md["relative_path"])
    requires next == ChunkDoc(path, pieces[i], md, i, |pieces|)
    ensures Partial(before, md, pieces, i + 1, chunks + [next])
  {
    assert ChunkDocs(path, pieces, md, i + 1) == ChunkDocs(path, pieces, md, i) + [next];
    if i == 0 {
      assert ChunkDocs(path, pieces, md, 0) == [];
    }
    Seqs.AppendAssoc(before, ChunkDocs(path, pieces, md, i), [next]);
  }

  /** One pass of the outer loop appends the chunk dictionaries of file `d`. */
  lemma AssembledStep(files: seq<ChunkedFile>, d: nat, before: seq<Doc>, chunks: seq<Doc>)
    requires Printable(files) && d < |files|
    requires Assembled(files[..d]) == Ok(before)
    requires Partial(before, files[d].metadata, files[d].pieces, |files[d].pieces|, chunks)
    ensures Assembled(files[..d + 1]) == Ok(chunks)
  {
    var prefix := files[..d + 1];
    assert prefix[..d] == files[..d] && prefix[d] == files[d];
    if files[d].pieces == [] {
      assert before + [] == before;
    }
  }

  /** A file with chunks but no `relative_path` makes the whole list fail. */
  lemma AssembledErrAt(files: seq<ChunkedFile>, d: nat)
    requires Printable(files) && d < |files|
    requires files[d].pieces != [] && "relative_path" !in files[d].metadata
    ensures Assembled(files) == Err(MissingPath)
  {
    AssembledFails(files);
  }

  /** File `d` after chunking holds the chunks `chunk_text` gives for its text. */
  lemma ChunkedAt(documents: seq<SourceDoc>, chunkSize: int, overlap: int, d: nat, pieces: seq<string>)
    requires Chunkable(documents, chunkSize, overlap) && d < |documents|
    requires pieces == Chunking.Chunks(documents[d].content, chunkSize, overlap)
    ensures ChunkedFiles(documents, chunkSize, overlap)[d] == ChunkedFile(documents[d].metadata, pieces)
  {
  }

  // ---------------------------------------------------------------- chunking properties

  /** The texts of a list of chunk dictionaries. */
  function Contents(docs: seq<Doc>): (r: seq<string>)
    ensures |r| == |docs|
  {
    seq(|docs|, k requires 0 <= k < |docs| => docs[k].content)
  }

  /** The chunk texts of every file. */
  function AllPieces(files: seq<ChunkedFile>): (r: seq<seq<string>>)
    ensures |r| == |files| && forall d :: 0 <= d < |files| ==> r[d] == files[d].pieces
  {
    seq(|files|, d requires 0 <= d < |files| => files[d].pieces)
  }

  /** The list fails exactly when some file has chunks but no `relative_path`. */
  lemma {:induction false} AssembledFails(files: seq<ChunkedFile>)
    requires Printable(files)
    ensures Assembled(files).Err? <==>
      exists d :: 0 <= d < |files| && files[d].pieces != [] && "relative_path" !in files[d].metadata
    ensures Assembled(files).Err? ==> Assembled(files).error == MissingPath
    decreases |files|
  {
    if files != [] {
      var n := |files| - 1;
      var prefix := files[..n];
      assert forall d :: 0 <= d < n ==> prefix[d] == files[d];
      AssembledFails(prefix);
    }
  }

  /** The chunk texts of the result are the chunk texts of every file, file after file. */
  lemma {:induction false} AssembledContents(files: seq<ChunkedFile>)
    requires Printable(files) && Assembled(files).Ok?
    ensures Contents(Assembled(files).value) == Seqs.Concat(AllPieces(files))
    decreases |files|
  {
    if files != [] {
      var n := |files| - 1;
      var prefix := files[..n];
      AssembledContents(prefix);
      var before := Assembled(prefix).value;
      var mine := FileChunks(files[n]).value;
      ContentsAppend(before, mine);
      FileChunksContents(files[n]);
      AllPiecesLast(files);
      Seqs.ConcatAppend(AllPieces(prefix), files[n].pieces);
    }
  }

  lemma ContentsAppend(a: seq<Doc>, b: seq<Doc>)
    ensures Contents(a + b) == Contents(a) + Contents(b)
  {
  }

  /** The texts of a file's chunk dictionaries are its chunks. */
  lemma FileChunksContents(file: ChunkedFile)
    requires PrintablePath(file.metadata) && FileChunks(file).Ok?
    ensures Contents(FileChunks(file).value) == file.pieces
  {
  }

  lemma AllPiecesLast(files: seq<ChunkedFile>)
    requires files != []
    ensures AllPieces(files) == AllPieces(files[..|files| - 1]) + [files[|files| - 1].pieces]
  {
  }

  /** `process_documentation_chunks` raises exactly when some file has chunks but no
      `relative_path`; otherwise the texts of its result are `chunk_text` of every file,
      in file order. */
  lemma ProcessedMeaning(documents: seq<SourceDoc>, chunkSize: int, overlap: int)
    requires Chunkable(documents, chunkSize, overlap)
    ensures var r := Processed(documents, chunkSize, overlap);
      && (r.Err? <==>
            exists d :: 0 <= d < |documents| && Chunking.Chunks(documents[d].content, chunkSize, overlap) != []
              && "relative_path" !in documents[d].metadata)
      && (r.Err? ==> r.error == MissingPath)
      && (r.Ok? ==> Contents(r.value) == Seqs.Concat(AllPieces(ChunkedFiles(documents, chunkSize, overlap))))
  {
    var files := ChunkedFiles(documents, chunkSize, overlap);
    AssembledFails(files);
    assert forall d :: 0 <= d < |documents| ==>
      files[d] == ChunkedFile(documents[d].metadata, Chunking.Chunks(documents[d].content, chunkSize, overlap));
    if Assembled(files).Ok? {
      AssembledContents(files);
    }
  }

  /** Chunk `i` of a file with `n` chunks gets the id `f"{relative_path}_chunk_{i}"`, its
      chunk text, and the file's metadata with `chunk_index = i` and `total_chunks = n`
      added and nothing else changed; the ids of one file are all different. */
  lemma FileChunksMeaning(file: ChunkedFile)
    requires PrintablePath(file.metadata) && FileChunks(file).Ok?
    ensures var r := FileChunks(file).value;
      var md := file.metadata;
      && |r| == |file.pieces|
      && (file.pieces != [] ==> "relative_path" in md)
      && (forall i :: 0 <= i < |r| ==>
            && r[i].id == Some(PyStr(md["relative_path"]) + ChunkInfix + PyText.DecimalString(i))
            && r[i].content == file.pieces[i]
            && r[i].metadata.Keys == md.Keys + {"chunk_index", "total_chunks"}
            && r[i].metadata["chunk_index"] == VInt(i)
            && r[i].metadata["total_chunks"] == VInt(|file.pieces|)
            && (forall key :: key in md && key != "chunk_index" && key != "total_chunks" ==>
                  r[i].metadata[key] == md[key])
            && r[i].embedding.None? && r[i].score.None?)
      && (forall i, j :: 0 <= i < j < |r| ==> r[i].id != r[j].id)
  {
    var r := FileChunks(file).value;
    if file.pieces != [] {
      var path := PyStr(file.metadata["relative_path"]);
      forall i, j | 0 <= i < j < |r| ensures r[i].id != r[j].id {
        ChunkIdsDiffer(path, i, j);
      }
    }
  }

  /** Two chunk numbers give two different ids. */
  lemma ChunkIdsDiffer(path: string, i: nat, j: nat)
    requires i != j
    ensures path + ChunkInfix + PyText.DecimalString(i) != path + ChunkInfix + PyText.DecimalString(j)
  {
    var head := path + ChunkInfix;
    if head + PyText.DecimalString(i) == head + PyText.DecimalString(j) {
      assert PyText.DecimalString(i) == (head + PyText.DecimalString(i))[|head|..];
      assert PyText.DecimalString(j) == (head + PyText.DecimalString(j))[|head|..];
      PyText.DecimalInjective(i, j);
    }
  }

  // ---------------------------------------------------------------- embedding

  /** `embedding_service.embed_texts`: one vector per text, or an exception. */
  type Embedder = seq<string> -> Result<seq<seq<real>>>

  /** `chunks[i:i + batch_size]` */
  function Batch(chunks: seq<Doc>, i: int): seq<Doc> {
    PyText.Slice(chunks, i, i + BatchSize)
  }

  /** The dictionaries a batch contributes: nothing when the embedder raises; otherwise the
      first chunks of the batch, each copied with `embedding` set to the vector at its
      position, up to the first position the embedder returned no vector for (the
      `IndexError` there ends the batch). */
  function BatchOutput(batch: seq<Doc>, result: Result<seq<seq<real>>>): (r: seq<Doc>)
    ensures |r| <= |batch|
  {
    if result.Err? then []
    else
      var m := if |result.value| < |batch| then |result.value| else |batch|;
      seq(m, j requires 0 <= j < m => batch[j].(embedding := Some(result.value[j])))
  }

  /** `embed_document_chunks(embedding_service, chunks)` as a function, from batch start `i`. */
  function Embedded(embed: Embedder, chunks: seq<Doc>, i: nat): seq<Doc>
    decreases |chunks| - i
  {
    if i >= |chunks| then []
    else
      var batch := Batch(chunks, i);
      BatchOutput(batch, embed(Contents(batch))) + Embedded(embed, chunks, i + BatchSize)
  }

  /** The loop invariant: what was embedded so far followed by what the batches from `i`
      add is the whole output. */
  ghost predicate EmbeddedSoFar(embed: Embedder, chunks: seq<Doc>, i: nat, done: seq<Doc>) {
    done + Embedded(embed, chunks, i) == Embedded(embed, chunks, 0)
  }

  /** `embed_document_chunks`: the loop over the batches with the `try` around each, and the
      loop over the chunks of a batch. */
  method EmbedDocumentChunks(embed: Embedder, chunks: seq<Doc>) returns (embeddedChunks: seq<Doc>)
    ensures embeddedChunks == Embedded(embed, chunks, 0)
  {
    var chunkContents := Contents(chunks);
    embeddedChunks := [];
    var i := 0;
    Seqs.EmptyPrefix(Embedded(embed, chunks, 0));
    while i < |chunkContents|
      invariant EmbeddedSoFar(embed, chunks, i, embeddedChunks)
      decreases |chunkContents| - i
    {
      var batchContents := PyText.Slice(chunkContents, i, i + BatchSize);
      var batchChunks := PyText.Slice(chunks, i, i + BatchSize);
      BatchContents(chunks, i);
      var embeddings := embed(batchContents);
      ghost var before := embeddedChunks;
      if embeddings.Ok? {
        var j := 0;
        while j < |batchChunks|
          invariant 0 <= j <= |batchChunks| && j <= |embeddings.value|
          invariant embeddedChunks == before + BatchOutput(batchChunks[..j], embeddings)
        {
          if j >= |embeddings.value| {
            break;
          }
          var chunkWithEmbedding := batchChunks[j].(embedding := Some(embeddings.value[j]));
          BatchOutputStep(batchChunks, embeddings.value, j);
          Seqs.AppendAssoc(before, BatchOutput(batchChunks[..j], embeddings), [chunkWithEmbedding]);
          embeddedChunks := embeddedChunks + [chunkWithEmbedding];
          j := j + 1;
        }
        BatchOutputDone(batchChunks, embeddings.value, j);
      } else {
        assert BatchOutput(batchChunks, embeddings) == [];
        assert embeddedChunks == before + [];
      }
      EmbeddedStep(embed, chunks, i, before, embeddedChunks);
      i := i + BatchSize;
    }
    EmbeddedEnd(embed, chunks, i, embeddedChunks);
  }

  /** The texts of a batch are the batch of the texts. */
  lemma BatchContents(chunks: seq<Doc>, i: nat)
    ensures PyText.Slice(Contents(chunks), i, i + BatchSize) == Contents(Batch(chunks, i))
  {
    var a, b := PyText.SliceBound(i, |chunks|), PyText.SliceBound(i + BatchSize, |chunks|);
    if a < b {
      assert PyText.Slice(Contents(chunks), i, i + BatchSize) == Contents(chunks)[a..b];
      assert Batch(chunks, i) == chunks[a..b];
    }
  }

  lemma BatchOutputStep(batch: seq<Doc>, vectors: seq<seq<real>>, j: nat)
    requires j < |batch| && j < |vectors|
    ensures BatchOutput(batch[..j + 1], Ok(vectors))
         == BatchOutput(batch[..j], Ok(vectors)) + [batch[j].(embedding := Some(vectors[j]))]
  {
  }

  /** The inner loop stops at the end of the batch or at the first missing vector, having
      appended the batch's whole contribution. */
  lemma BatchOutputDone(batch: seq<Doc>, vectors: seq<seq<real>>, j: nat)
    requires j <= |batch| && j <= |vectors| && (j == |batch| || j == |vectors|)
    ensures BatchOutput(batch[..j], Ok(vectors)) == BatchOutput(batch, Ok(vectors))
  {
  }

  /** One pass of the outer loop adds the contribution of the batch at `i`. */
  lemma EmbeddedStep(embed: Embedder, chunks: seq<Doc>, i: nat, before: seq<Doc>, after: seq<Doc>)
    requires i < |chunks| && EmbeddedSoFar(embed, chunks, i, before)
    requires after == before + BatchOutput(Batch(chunks, i), embed(Contents(Batch(chunks, i))))
    ensures EmbeddedSoFar(embed, chunks, i + BatchSize, after)
  {
    var batch := Batch(chunks, i);
    Seqs.AppendAssoc(before, BatchOutput(batch, embed(Contents(batch))), Embedded(embed, chunks, i + BatchSize));
  }

  lemma EmbeddedEnd(embed: Embedder, chunks: seq<Doc>, i: nat, done: seq<Doc>)
    requires i >= |chunks| && EmbeddedSoFar(embed, chunks, i, done)
    ensures done == Embedded(embed, chunks, 0)
  {
    assert done + [] == done;
  }

  // ---------------------------------------------------------------- embedding properties

  /** The position of `p` within its batch (`p % 10`). */
  function Offset(p: nat): nat {
    if p < BatchSize then p else Offset(p - BatchSize)
  }

  /** The first position of the batch that holds position `p`. */
  function BatchStart(p: nat): int {
    p - Offset(p)
  }

  /** What the embedder returns for the batch that holds position `p`. */
  function BatchResult(embed: Embedder, chunks: seq<Doc>, p: nat): Result<seq<seq<real>>> {
    embed(Contents(Batch(chunks, BatchStart(p))))
  }

  /** Chunk `p` survives: the embedder did not raise on its batch and returned a vector at
      its position in the batch. */
  predicate Survives(embed: Embedder, chunks: seq<Doc>, p: nat) {
    var r := BatchResult(embed, chunks, p);
    r.Ok? && Offset(p) < |r.value|
  }

  /** Chunk `p` copied with the vector the embedder returned for it. */
  function WithVector(embed: Embedder, chunks: seq<Doc>, p: nat): (r: Doc)
    requires p < |chunks| && Survives(embed, chunks, p)
    ensures r.(embedding := chunks[p].embedding) == chunks[p]
    ensures r.embedding == Some(BatchResult(embed, chunks, p).value[Offset(p)])
  {
    chunks[p].(embedding := Some(BatchResult(embed, chunks, p).value[Offset(p)]))
  }

  /** What position `p` contributes to the output: its copy with its vector when it
      survives, nothing otherwise. */
  function Kept(embed: Embedder, chunks: seq<Doc>, p: nat): seq<Doc> {
    if p < |chunks| && Survives(embed, chunks, p) then [WithVector(embed, chunks, p)] else []
  }

  function KeptAt(embed: Embedder, chunks: seq<Doc>): nat -> seq<Doc> {
    (p: nat) => Kept(embed, chunks, p)
  }

  /** An independent statement of the output, position by position: chunk `p` appears, in
      input order, with `embedding` set to vector `p % 10` of its batch, exactly when it
      survives. */
  function Survivors(embed: Embedder, chunks: seq<Doc>): seq<Doc> {
    Seqs.Gather(KeptAt(embed, chunks), 0, |chunks|)
  }

  /** From batch start `i` on, the batch loop computes exactly the survivors. */
  lemma {:induction false} EmbeddedAreSurvivors(embed: Embedder, chunks: seq<Doc>, i: nat)
    requires Offset(i) == 0
    ensures Embedded(embed, chunks, i) == Seqs.Gather(KeptAt(embed, chunks), i, |chunks|)
    decreases |chunks| - i
  {
    if i < |chunks| {
      assert Offset(i + BatchSize) == Offset(i);
      EmbeddedAreSurvivors(embed, chunks, i + BatchSize);
      BatchContributes(embed, chunks, i);
    } else {
      Seqs.GatherEmpty(KeptAt(embed, chunks), i, |chunks|);
    }
  }

  /** The positions of the batch at `i` contribute what the batch contributes. */
  lemma BatchContributes(embed: Embedder, chunks: seq<Doc>, i: nat)
    requires Offset(i) == 0 && i < |chunks|
    ensures var batch := Batch(chunks, i);
      Seqs.Gather(KeptAt(embed, chunks), i, |chunks|)
      == BatchOutput(batch, embed(Contents(batch))) + Seqs.Gather(KeptAt(embed, chunks), i + BatchSize, |chunks|)
  {
    var kept := KeptAt(embed, chunks);
    var batch := Batch(chunks, i);
    var out := BatchOutput(batch, embed(Contents(batch)));
    forall t | 0 <= t < |batch| ensures kept(i + t) == Seqs.Head(out, t) {
      SurvivorAt(embed, chunks, i, t, batch, out);
    }
    BatchShape(chunks, i);
    Seqs.GatherBlock(kept, |chunks|, i, |batch|, out);
    if i + |batch| == |chunks| {
      Seqs.GatherEmpty(kept, i + BatchSize, |chunks|);
      Seqs.GatherEmpty(kept, i + |batch|, |chunks|);
    }
  }

  /** Position `j` of the batch at `i` contributes item `j` of the batch's contribution,
      if there is one. */
  lemma SurvivorAt(embed: Embedder, chunks: seq<Doc>, i: nat, j: nat, batch: seq<Doc>, out: seq<Doc>)
    requires Offset(i) == 0 && i < |chunks|
    requires batch == Batch(chunks, i) && out == BatchOutput(batch, embed(Contents(batch)))
    requires j < |batch|
    ensures KeptAt(embed, chunks)(i + j) == Seqs.Head(out, j)
  {
    BatchShape(chunks, i);
    BatchPosition(i, j);
    assert batch[j] == chunks[i + j];
    assert BatchResult(embed, chunks, i + j) == embed(Contents(batch));
  }

  /** The batch at `i` holds the chunks from `i` to `i + 10` or to the end. */
  lemma BatchShape(chunks: seq<Doc>, i: nat)
    requires i < |chunks|
    ensures var end := if i + BatchSize < |chunks| then i + BatchSize else |chunks|;
      Batch(chunks, i) == chunks[i..end]
  {
  }

  /** Position `j` of the batch starting at a multiple of ten lies in that batch. */
  lemma {:induction false} BatchPosition(i: nat, j: nat)
    requires Offset(i) == 0 && j < BatchSize
    ensures Offset(i + j) == j && BatchStart(i + j) == i
    decreases i
  {
    if i >= BatchSize {
      BatchPosition(i - BatchSize, j);
    }
  }

  /** `embed_document_chunks` returns the survivors, in input order, so never more
      dictionaries than it was given. */
  lemma EmbeddedMeaning(embed: Embedder, chunks: seq<Doc>)
    ensures Embedded(embed, chunks, 0) == Survivors(embed, chunks)
    ensures |Embedded(embed, chunks, 0)| <= |chunks|
  {
    EmbeddedAreSurvivors(embed, chunks, 0);
    Seqs.GatherBounded(KeptAt(embed, chunks), 0, |chunks|);
  }

  /** When the embedder succeeds on every batch with a vector per text, every chunk comes
      out, in order, with its vector. */
  lemma EmbeddedComplete(embed: Embedder, chunks: seq<Doc>)
    requires forall q :: 0 <= q < |chunks| ==> Survives(embed, chunks, q)
    ensures var r := Embedded(embed, chunks, 0);
      |r| == |chunks| && forall k :: 0 <= k < |r| ==> r[k] == WithVector(embed, chunks, k)
  {
    var kept := KeptAt(embed, chunks);
    EmbeddedAreSurvivors(embed, chunks, 0);
    forall q | 0 <= q < |chunks| ensures kept(q) == [WithVector(embed, chunks, q)] {
      KeptSurvivor(embed, chunks, q);
    }
    Seqs.GatherSingletons(kept, 0, |chunks|);
  }

  lemma KeptSurvivor(embed: Embedder, chunks: seq<Doc>, q: nat)
    requires q < |chunks| && Survives(embed, chunks, q)
    ensures KeptAt(embed, chunks)(q) == [WithVector(embed, chunks, q)]
  {
  }
}
