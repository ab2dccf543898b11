# A Dafny model of the retrieval pipeline's decision logic

This project models the deterministic core of `app/rag_engine.py`, a
retrieval-augmented question-answering service over Portuguese HR documents.
It also proves properties of that core. The service:

- splits an ingested text into chunks with a chat model;
- labels each chunk, using regular-expression heuristics first and the model
  only as a fallback;
- extracts the signer's name from the whole text, with two heuristics and a
  model fallback;
- stores each chunk with its embedding, metadata and a generated id;
- answers a question by optionally filtering the stored chunks by
  description, short-circuiting to a fixed sentence when a signature chunk
  names its signer, and otherwise ranking chunks by similarity and asking a
  generation model with the best ones as context.

## Modelling choices

**Remote calls.** The OpenAI chat, the OpenAI embeddings and the Ollama
generation endpoint are total functions in a `Remote.Oracles` value. Every
operation that may consult one returns `Traced(value, calls)`. The list of
requests it made is therefore part of the result, so "no model call" is
something a contract can state.

**The collection.** The collection is a value: a `seq` of records in scan
order, taken here to be insertion order. The Chroma client is not modelled.
Ingestion returns the extended sequence. Clearing returns the empty sequence
together with the delete request it issued.

**Python string semantics.** These are written out in `Text`:

- `str.strip`, `str.split()`, `str.split(d)`, `d.join(xs)`, `str.lower` and
  `str(int)`;
- `in` on strings and the list comprehensions.

**Regular expressions.**

- The literal patterns of the classifier are substring tests.
- `\beu[, ]`, `declaro.*?recebido` and
  `assinatura do.*(profissional|colaborador|responsável)` are small
  predicates.
- The extractor's two regexes, `eu[\s,:-]+(.*?)(?:,| portador|$)` and
  `([\w\s]{5,})\s+portador do RG`, are modelled twice:
  - declaratively (`NameMatchAt`, `RgMatchAt`: which spans match);
  - operationally (`SearchName`, `SearchRg`), with the leftmost start, the
    greedy run given back one character at a time, and the lazy capture.

  The operational contracts prove that the reported match is the one
  Python's `re.search` reports.

**Similarity.** Cosine similarity is a parameter,
`similarity: (Vector, Vector) -> int`. Ranking is over those integer scores.

**Notes on what the code does**, which the model follows
code:

- **Empty segmentation.** When the reply has no non-blank piece, the code
  returns an empty list of chunks. It does not fall back to a single chunk.
- **Lower-casing in the classifier.** The code lower-cases the chunk instead
  of matching case-insensitively. The `portador do RG` pattern therefore
  never fires (`Classifier.RgPatternNeverFires`).
- **Ties in the ranking.** Python's `sorted(..., reverse=True)` is stable, so
  equal scores keep ascending index order. The ranking is deterministic.
- **Filter with no match.** An active filter that matches nothing in a
  non-empty collection raises an error while unpacking `zip(*[])`. It does
  not yield an empty context.

## Model

| member | source | states |
|---|---|---|
| `Segmenter.Chunks` | app/rag_engine.py:47 | every chunk is non-empty, equals its own trim and contains no `###` |
| `Segmenter.ChunkMembers` | app/rag_engine.py:47 | a string is a chunk exactly when it is a non-empty trimmed piece of the reply split on `###` |
| `Segmenter.ChunksAtFirstDelimiter` | app/rag_engine.py:47 | chunks keep the order of the pieces: the chunks of `a + "###" + b` (cut at the first delimiter) are those of `a` followed by those of `b` |
| `Segmenter.ChunksOfOnePiece` | app/rag_engine.py:47 | a reply without `###` gives its trim as the only chunk, or no chunk when blank |
| `Segmenter.BlankReplyHasNoChunks` | app/rag_engine.py:47 | a blank reply gives no chunk at all (no single-chunk fallback) |
| `Segmenter.Segment` | app/rag_engine.py:34-47 | exactly one chat request, with the segmentation prompt, and the result is the chunks of that request's reply |
| `Text.SplitJoin` | app/rag_engine.py:47 | `d.join(s.split(d)) == s`, and the pieces have the shape every split has |
| `Text.JoinSplit` | app/rag_engine.py:154 | splitting a join gives the pieces back when they have the shape of a split |
| `Text.StripProperties` | app/rag_engine.py:47 | the trim is empty exactly for blank text, and trimming is idempotent |
| `Classifier.AnyMatch` | app/rag_engine.py:54-56 | the pattern loop succeeds exactly when some pattern of the list matches |
| `Classifier.Classify` | app/rag_engine.py:49-76 | a heuristic hit gives the signature label with no request; otherwise one chat request and its reply trimmed and lower-cased; the label is always normalised |
| `Classifier.ModelOnlyAsFallback` | app/rag_engine.py:54-56 | the model is consulted exactly when no heuristic fires, and a label given without it is in the taxonomy |
| `Classifier.NormaliseReply` | app/rag_engine.py:76 | a trimmed, lower-cased reply is its own trim and its own lower case |
| `Classifier.RgPatternNeverFires` | app/rag_engine.py:51-55 | the pattern `portador do RG` never matches a lower-cased chunk |
| `Classifier.SignatureOfImpliesAssinatura` | app/rag_engine.py:51-52 | every hit of the last pattern is a hit of the earlier literal `assinatura`, so the last pattern never decides |
| `Classifier.NoHeuristicWithoutKeyLetters` | app/rag_engine.py:50-56 | a chunk whose lower-cased text has no `e`, `s` or `n` fires no pattern, since every live pattern needs one of those letters |
| `Classifier.RgHolderGoesToModel` | app/rag_engine.py:49-58 | the chunk `Portador do RG` fires no heuristic and is sent to the model |
| `Classifier.LabelIsNotValidated` | app/rag_engine.py:72-76 | a reply outside the taxonomy becomes the label unchanged apart from trim and case |
| `SignatureName.SearchName` | app/rag_engine.py:79 | the operational search returns a match of pattern 1 with the longest separator run and then the shortest capture, at the leftmost start; none when no start matches |
| `SignatureName.FirstNameMatchUnique` | app/rag_engine.py:79 | the match `re.search` reports for pattern 1 is unique |
| `SignatureName.FirstHeuristic` | app/rag_engine.py:79-83 | a name accepted by pattern 1 has at least two words and only letters apart from spaces |
| `SignatureName.FirstHeuristicOfMatch` | app/rag_engine.py:79-83 | pattern 1 yields the trimmed capture of the reported match exactly when it passes the word/letter test |
| `SignatureName.SearchRg` | app/rag_engine.py:85 | the operational search returns the leftmost start of pattern 2 and there its longest capture; none when nothing matches |
| `SignatureName.SecondHeuristic` | app/rag_engine.py:85-87 | pattern 2 yields a name exactly when the pattern matches somewhere |
| `SignatureName.SecondHeuristicOfMatch` | app/rag_engine.py:85-87 | pattern 2 yields the trimmed capture of the reported match, unchecked |
| `SignatureName.ExtractName` | app/rag_engine.py:78-105 | pattern 1 first, then pattern 2, then the chat model; the model is asked exactly when both patterns fail, and its reply is trimmed |
| `SignatureName.ExtractNameOfDeclaration` | app/rag_engine.py:78-83 | `Eu João Silva, portador do RG` gives `João Silva` with no request |
| `SignatureName.ExtractNameOfHolder` | app/rag_engine.py:85-87 | `Maria Souza portador do RG` falls to pattern 2 and gives `Maria Souza` with no request |
| `Store.ChunkMetadata` | app/rag_engine.py:114-121 | `origem` and `arquivo` are copied, `descricao` is the label, and `nome_assinatura` is present exactly when the label is the signature label and the name is non-empty |
| `Store.Ingest` | app/rag_engine.py:107-128 | existing records are untouched and exactly one record per chunk is appended, in chunk order |
| `Store.IngestRecords` | app/rag_engine.py:108-128 | new record `k` has id `id-{base+k+1}-{k}` with base the size before ingestion, the chunk, its embedding, and metadata built from the chunk's label and the one name extracted from the whole text |
| `Store.IngestCalls` | app/rag_engine.py:108-114 | the requests come in order: name extraction, segmentation, then per chunk its embedding and classification |
| `Store.RecordIdInjective` | app/rag_engine.py:126 | an id determines both numbers written into it |
| `Store.BatchIdsDistinct` | app/rag_engine.py:109-126 | ids within one batch are pairwise distinct |
| `Store.IngestPreservesWellFormed` | app/rag_engine.py:107-128 | starting from a collection with distinct, well-stamped ids, ingestion keeps ids distinct |
| `Store.DeleteAll` | app/rag_engine.py:173 | deleting every id present empties the collection |
| `Store.Clear` | app/rag_engine.py:170-173 | the collection ends empty; a delete is issued exactly when it was non-empty, listing exactly the ids read |
| `Ranking.Rank` | app/rag_engine.py:153 | sorting `range(n)` gives every index below `n` once, in descending score order with ties by ascending index |
| `Ranking.RankedUnique` | app/rag_engine.py:153 | two ranked lists of the same indices are equal, so the stable sort's result is determined |
| `Ranking.TopIndices` | app/rag_engine.py:153 | the selection is ranked, has the slice's length, and every index left out comes after every index selected |
| `Ranking.TopIndicesIsPrefix` | app/rag_engine.py:153 | the selection is the prefix of any correct stable descending sort of all indices |
| `Ranking.TopIndicesProperties` | app/rag_engine.py:153 | `min(top_c, n)` indices, distinct and in range, non-increasing scores, ties in index order, none left out scoring higher |
| `Retrieval.ScanFilterAligned` | app/rag_engine.py:138-146 | the rows the filter keeps are the scan of exactly the records whose description mentions it, in order, so each kept document stays with its own embedding and metadata |
| `Retrieval.Candidates` | app/rag_engine.py:141-146 | no active filter keeps everything; with one, the kept rows mention the filter ignoring case, and the result is an unpacking error exactly when the scan is non-empty and no row matches |
| `Retrieval.CandidatesKeepMatchingInOrder` | app/rag_engine.py:141-146 | a row is kept exactly when its description (missing is `""`) mentions the filter, and kept rows stay in scan order |
| `Retrieval.FilterIgnoresCase` | app/rag_engine.py:145 | the filter `plano` keeps a chunk described as `Plano Odontológico` |
| `Retrieval.FirstSigner` | app/rag_engine.py:148-150 | the position found is the first row whose label is the signature label and whose name is non-empty; none when there is no such row |
| `Retrieval.SignerShortCircuit` | app/rag_engine.py:148-150 | with such a row, the answer is `O documento foi assinado por {nome}.` for the first one, and only the question is embedded |
| `Retrieval.AnswerUsesSelection` | app/rag_engine.py:152-157 | otherwise the generation model is asked once, with the selected documents joined by line breaks as context, and its reply is the answer |
| `Retrieval.ContextRoundTrip` | app/rag_engine.py:154 | the context splits back into exactly the selected documents, in ranked order, when no document has a line break |
| `Retrieval.EmptyCollectionStillAsks` | app/rag_engine.py:136-157 | an empty collection is not an error, with or without a filter: the model is asked with an empty context |
| `Retrieval.Answer` | app/rag_engine.py:136-157 | the question is always embedded first; the result is an error exactly when filtering fails; at most one generation request follows |

## Left out

- Cosine similarity and numpy (app/rag_engine.py:131-134): floating point, with NaN for zero vectors. The score of a row is an abstract integer given by a `similarity` parameter.
- The OpenAI and Ollama calls (app/rag_engine.py:21-26, 42-46, 72-76, 101-105, 159-165): remote I/O. Each is an uninterpreted total function. Failures, timeouts and `raise_for_status` errors are not modelled.
- The Chroma client and its persistence (app/rag_engine.py:18-19). The collection is a sequence of records in insertion order. What Chroma does with a duplicate id is not modelled. Only ingestion and clearing change the collection.
- PDF text extraction (app/rag_engine.py:28-32), loading the API key from the environment and the progress prints (app/rag_engine.py:13-16, 129): I/O.
- `listar_dados_salvos` (app/rag_engine.py:167-168): a plain read of the collection, with no logic of its own.
- app/main.py and app/modelos.py: HTTP routes, temporary files and request schemas are not part of this model. The `top_c` bound enforced there is not assumed: any integer is accepted, negative values included.
- The race between reading the id base and adding records when ingestions run concurrently. Ingestion is modelled as one atomic step.
- `Text.IsAlpha`, `Text.IsNumeric`, `Text.IsWordChar`, `Text.LowerChar`: Python's Unicode tables are approximated by their ASCII and Latin-1 part, plus the Latin Extended-A/B letters for `isalpha`. Other code points count as neither letter nor digit and lower-case to themselves. So the `\w` of the patterns `\beu[, ]` and `[\w\s]{5,}` is narrower than Python's, which covers every Unicode letter and digit. `Text.IsSpace` is not approximated: it is Python's complete whitespace table.
- `Store.Ingest`: its contract speaks of the records. The request trace is stated by `Store.IngestCalls`, and the content of each record by `Store.IngestRecords`.
- `Store.IngestPreservesWellFormed`: distinct ids are proved for sequential use starting from a well-formed collection, such as the empty one. A collection written by other means is outside it.
