/** The vector collection and the two operations that write it
    (app/rag_engine.py, `adicionar_texto` and `limpar_base`). The collection
    is a value: a sequence of records in the order the engine returns them,
    which for this model is insertion order. */
module Store {
  import opened Wrappers
  import opened Text
  import opened Remote
  import Segmenter
  import Classifier
  import SignatureName

  /** A chunk's metadata dictionary. */
  type Metadata = map<string, string>

  /** One stored chunk: id, document text, embedding and metadata. */
  datatype Record = Record(id: string, document: string, embedding: Vector, metadata: Metadata)

  type Collection = seq<Record>

  const OriginKey: string := "origem"
  const FileKey: string := "arquivo"
  const DescriptionKey: string := "descricao"
  const SignerKey: string := "nome_assinatura"

  function RecordIdOf(r: Record): string {
    r.id
  }

  /** The ids of all records, in scan order. */
  function Ids(c: Collection): (ids: seq<string>)
    ensures |ids| == |c|
    ensures forall k | 0 <= k < |c| :: ids[k] == c[k].id
  {
    Map(c, RecordIdOf)
  }

  // ---------------------------------------------------------------------
  // Ids

  /** The id of chunk `i` of a batch: `id-`, the base plus `i + 1`, a dash,
      and `i`, both numbers in decimal. */
  function RecordId(base: nat, i: nat): string {
    "id-" + Decimal(base + i + 1) + "-" + Decimal(i)
  }

  predicate AllDigits(x: string) {
    forall k | 0 <= k < |x| :: IsDigit(x[k])
  }

  /** A run of digits ends at the first `"-"`, so `x-y` splits one way only. */
  lemma DashSplitsDigits(x: string, y: string, x': string, y': string)
    requires AllDigits(x) && AllDigits(x')
    requires x + "-" + y == x' + "-" + y'
    ensures x == x' && y == y'
  {
    var s := x + "-" + y;
    assert forall k | 0 <= k < |x| :: s[k] == x[k];
    assert forall k | 0 <= k < |x'| :: s[k] == x'[k];
    assert s[|x|] == '-' && s[|x'|] == '-';
    assert x == s[..|x|] == x';
    assert y == s[|x| + 1..] == y';
  }

  /** The two numbers in an id can be read back: `"-"` is not a digit. */
  lemma RecordIdInjective(b: nat, i: nat, b': nat, i': nat)
    requires RecordId(b, i) == RecordId(b', i')
    ensures b == b' && i == i'
  {
    var x, y := Decimal(b + i + 1), Decimal(i);
    var x', y' := Decimal(b' + i' + 1), Decimal(i');
    assert RecordId(b, i) == "id-" + (x + "-" + y);
    assert RecordId(b', i') == "id-" + (x' + "-" + y');
    assert x + "-" + y == RecordId(b, i)[3..] == x' + "-" + y';
    DashSplitsDigits(x, y, x', y');
    DecimalInjective(b + i + 1, b' + i' + 1);
    DecimalInjective(i, i');
  }

  predicate DistinctIds(c: Collection) {
    forall a, b | 0 <= a < b < |c| :: c[a].id != c[b].id
  }

  /** Every id has the shape `RecordId(base, i)` with `base + i` below the
      collection's size: what ingestion writes, given that the size never
      shrinks except by a full clear. */
  ghost predicate Stamped(c: Collection) {
    forall k | 0 <= k < |c| :: StampedAt(c, k)
  }

  ghost predicate StampedAt(c: Collection, k: nat)
    requires k < |c|
  {
    exists b: nat, i: nat :: b + i < |c| && c[k].id == RecordId(b, i)
  }

  /** The invariant sequential ingestion and clearing maintain. */
  ghost predicate WellFormed(c: Collection) {
    DistinctIds(c) && Stamped(c)
  }

  // ---------------------------------------------------------------------
  // Ingestion

  /** The metadata of one chunk: origin and file copied, the description, and
      the signer's name only on signature chunks when a name was found. */
  function ChunkMetadata(origin: string, file: string, description: string, signer: string): (m: Metadata)
    ensures OriginKey in m && m[OriginKey] == origin
    ensures FileKey in m && m[FileKey] == file
    ensures DescriptionKey in m && m[DescriptionKey] == description
    ensures SignerKey in m <==> description == Classifier.SignatureLabel && signer != ""
    ensures SignerKey in m ==> m[SignerKey] == signer
    ensures m.Keys <= {OriginKey, FileKey, DescriptionKey, SignerKey}
  {
    var m := map[OriginKey := origin, FileKey := file, DescriptionKey := description];
    if description == Classifier.SignatureLabel && signer != "" then m[SignerKey := signer] else m
  }

  /** The record stored for chunk `i` of a batch whose id base is `base`. */
  function ChunkRecord(chunk: string, i: nat, base: nat, origin: string, file: string,
                       signer: string, oracles: Oracles): Record
  {
    Record(RecordId(base, i), chunk, oracles.embed(chunk),
           ChunkMetadata(origin, file, Classifier.Classify(chunk, oracles).value, signer))
  }

  /** The records of one batch, in chunk order. */
  function Batch(chunks: seq<string>, base: nat, origin: string, file: string,
                 signer: string, oracles: Oracles): (rs: seq<Record>)
    ensures |rs| == |chunks|
    ensures forall k | 0 <= k < |chunks| :: rs[k].document == chunks[k]
    ensures forall k | 0 <= k < |chunks| :: rs[k].id == RecordId(base, k)
  {
    seq(|chunks|, k requires 0 <= k < |chunks| =>
          ChunkRecord(chunks[k], k, base, origin, file, signer, oracles))
  }

  /** The requests made for the chunks, in loop order: the embedding of each
      chunk, then its classification. */
  function ChunkCalls(chunks: seq<string>, oracles: Oracles): seq<Call>
  {
    if |chunks| == 0 then []
    else [Embed(chunks[0])] + Classifier.Classify(chunks[0], oracles).calls
         + ChunkCalls(chunks[1..], oracles)
  }

  /** `adicionar_texto`: extract the signer's
      name once from the whole text, read the size as the id base, segment,
      and append one record per chunk. */
  function Ingest(c: Collection, text: string, origin: string, file: string, oracles: Oracles)
    : (r: Traced<Collection>)
    ensures var chunks := Segmenter.Segment(text, oracles).value;
            && |r.value| == |c| + |chunks|
            && r.value[..|c|] == c
            && forall k | 0 <= k < |chunks| :: r.value[|c| + k].document == chunks[k]
  {
    var signer := SignatureName.ExtractName(text, oracles);
    var base := |c|;
    var segmented := Segmenter.Segment(text, oracles);
    var chunks := segmented.value;
    var added := Batch(chunks, base, origin, file, signer.value, oracles);
    AppendDocuments(c, added, chunks);
    Traced(c + added, signer.calls + segmented.calls + ChunkCalls(chunks, oracles))
  }

  lemma AppendDocuments(c: Collection, added: seq<Record>, chunks: seq<string>)
    requires |added| == |chunks|
    requires forall k | 0 <= k < |chunks| :: added[k].document == chunks[k]
    ensures |c + added| == |c| + |chunks| && (c + added)[..|c|] == c
    ensures forall k | 0 <= k < |chunks| :: (c + added)[|c| + k].document == chunks[k]
  {
    assert forall k | 0 <= k < |added| :: (c + added)[|c| + k] == added[k];
  }

  /** What each new record holds: the chunk, its id, its embedding and its
      metadata; the signer's name, the same for the whole batch, is attached
      exactly to the signature chunks when it is non-empty. */
  lemma IngestRecords(c: Collection, text: string, origin: string, file: string, oracles: Oracles, k: nat)
    requires k < |Segmenter.Segment(text, oracles).value|
    ensures var chunk := Segmenter.Segment(text, oracles).value[k];
            var rec := Ingest(c, text, origin, file, oracles).value[|c| + k];
            var description := Classifier.Classify(chunk, oracles).value;
            var signer := SignatureName.ExtractName(text, oracles).value;
            && rec.id == RecordId(|c|, k)
            && rec.document == chunk
            && Segmenter.IsChunk(rec.document)
            && rec.embedding == oracles.embed(chunk)
            && rec.metadata[OriginKey] == origin
            && rec.metadata[FileKey] == file
            && rec.metadata[DescriptionKey] == description
            && (SignerKey in rec.metadata <==> description == Classifier.SignatureLabel && signer != "")
            && (SignerKey in rec.metadata ==> rec.metadata[SignerKey] == signer)
  {
    var chunks := Segmenter.Segment(text, oracles).value;
    assert Segmenter.AllChunks(chunks);
  }

  /** The requests of an ingestion, in order: the name extraction's (none
      when a heuristic finds the name), the segmentation, then per chunk the
      embedding and the classification (none when a heuristic fires). */
  lemma IngestCalls(c: Collection, text: string, origin: string, file: string, oracles: Oracles)
    ensures Ingest(c, text, origin, file, oracles).calls ==
            SignatureName.ExtractName(text, oracles).calls
            + [Chat(Segmenter.SegmentPrompt(text))]
            + ChunkCalls(Segmenter.Segment(text, oracles).value, oracles)
  {
  }

  /** Ids within one batch are pairwise distinct. */
  lemma BatchIdsDistinct(base: nat, i: nat, j: nat)
    requires i != j
    ensures RecordId(base, i) != RecordId(base, j)
  {
    if RecordId(base, i) == RecordId(base, j) {
      RecordIdInjective(base, i, base, j);
    }
  }

  /** Appending a batch stamped with the current size as base keeps the
      invariant. */
  lemma AppendBatchWellFormed(c: Collection, added: seq<Record>)
    requires WellFormed(c)
    requires forall k | 0 <= k < |added| :: added[k].id == RecordId(|c|, k)
    ensures WellFormed(c + added)
  {
    AppendBatchStamped(c, added);
    AppendBatchDistinct(c, added);
  }

  lemma AppendBatchStamped(c: Collection, added: seq<Record>)
    requires Stamped(c)
    requires forall k | 0 <= k < |added| :: added[k].id == RecordId(|c|, k)
    ensures Stamped(c + added)
  {
    var r := c + added;
    var n := |c|;
    forall k | 0 <= k < |r|
      ensures StampedAt(r, k)
    {
      if k < n {
        assert r[k] == c[k] && StampedAt(c, k);
        var b: nat, i: nat :| b + i < |c| && c[k].id == RecordId(b, i);
        assert b + i < |r|;
      } else {
        assert r[k] == added[k - n];
        var i: nat := k - n;
        assert n + i < |r| && r[k].id == RecordId(n, i);
      }
    }
  }

  lemma AppendBatchDistinct(c: Collection, added: seq<Record>)
    requires WellFormed(c)
    requires forall k | 0 <= k < |added| :: added[k].id == RecordId(|c|, k)
    ensures DistinctIds(c + added)
  {
    var r := c + added;
    var n := |c|;
    forall a, b | 0 <= a < b < |r|
      ensures r[a].id != r[b].id
    {
      if b < n {
        assert r[a] == c[a] && r[b] == c[b];
      } else if a < n {
        assert r[a] == c[a] && r[b] == added[b - n];
        OldIdNotInBatch(c, a, b - n);
      } else {
        assert r[a] == added[a - n] && r[b] == added[b - n];
        BatchIdsDistinct(n, a - n, b - n);
      }
    }
  }

  /** An id already present differs from every id of the next batch: its
      numbers sum to less than the size. */
  lemma OldIdNotInBatch(c: Collection, a: nat, i: nat)
    requires Stamped(c) && a < |c|
    ensures c[a].id != RecordId(|c|, i)
  {
    assert StampedAt(c, a);
    var b0: nat, i0: nat :| b0 + i0 < |c| && c[a].id == RecordId(b0, i0);
    if RecordId(b0, i0) == RecordId(|c|, i) {
      RecordIdInjective(b0, i0, |c|, i);
    }
  }

  /** Ingestion preserves the invariant: starting from a well-formed
      collection (the empty one, say), ids stay distinct however many
      batches are added. */
  lemma IngestPreservesWellFormed(c: Collection, text: string, origin: string, file: string,
                                  oracles: Oracles)
    requires WellFormed(c)
    ensures WellFormed(Ingest(c, text, origin, file, oracles).value)
  {
    var chunks := Segmenter.Segment(text, oracles).value;
    var signer := SignatureName.ExtractName(text, oracles).value;
    AppendBatchWellFormed(c, Batch(chunks, |c|, origin, file, signer, oracles));
  }

  // ---------------------------------------------------------------------
  // Clearing

  /** The state after `limpar_base` and the delete request it issued, if any. */
  datatype Cleared = Cleared(store: Collection, deleted: Option<seq<string>>)

  /** Deleting by id: every record whose id is listed goes. */
  function Delete(c: Collection, ids: seq<string>): (r: Collection)
    ensures forall k | 0 <= k < |r| :: r[k] in c && r[k].id !in ids
  {
    Filter(c, (rec: Record) => rec.id !in ids)
  }

  /** Deleting every listed id of a collection whose ids are all listed
      empties it. */
  lemma DeleteAll(c: Collection, ids: seq<string>)
    requires forall k | 0 <= k < |c| :: c[k].id in ids
    ensures Delete(c, ids) == []
  {
    FilterEmpty(c, (rec: Record) => rec.id !in ids);
  }

  /** `limpar_base`: read all ids; delete exactly them if there are any. */
  function Clear(c: Collection): (r: Cleared)
    ensures r.store == []
    ensures r.deleted.None? <==> |c| == 0
    ensures r.deleted.Some? ==> r.deleted.value == Ids(c)
  {
    var ids := Ids(c);
    if |ids| > 0 then
      var rest := Delete(c, ids);
      DeleteAll(c, ids);
      Cleared(rest, Some(ids))
    else Cleared(c, None)
  }

  /** The empty collection satisfies the invariant, so clearing restores it. */
  lemma ClearedIsWellFormed(c: Collection)
    ensures WellFormed(Clear(c).store)
  {
  }
}
