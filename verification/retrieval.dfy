/** Question answering (app/rag_engine.py, `buscar_resposta`): embed the
    question, scan the collection, optionally keep only rows whose
    description mentions the filter, answer directly with the signer's name
    when a kept row carries one, and otherwise rank the kept rows by
    similarity and ask the generation model with the best ones as context. */
module Retrieval {
  import opened Wrappers
  import opened Text
  import opened Remote
  import opened Store
  import Classifier
  import Ranking

  /** One row of the scan: the document, embedding and metadata lists zipped,
      so the three stay aligned by construction. */
  datatype Row = Row(document: string, embedding: Vector, metadata: Metadata)

  function RowOf(rec: Record): Row {
    Row(rec.document, rec.embedding, rec.metadata)
  }

  /** Reading the whole collection: documents, embeddings and metadata of
      every record, in scan order. */
  function Scan(c: Collection): (rows: seq<Row>)
    ensures |rows| == |c|
    ensures forall k | 0 <= k < |c| ::
              rows[k].document == c[k].document && rows[k].embedding == c[k].embedding
              && rows[k].metadata == c[k].metadata
  {
    Map(c, RowOf)
  }

  /** A metadata lookup with a default for a missing key. */
  function Get(m: Metadata, key: string, default: string): (v: string)
    ensures key in m ==> v == m[key]
    ensures key !in m ==> v == default
  {
    if key in m then m[key] else default
  }

  // ---------------------------------------------------------------------
  // Description filter

  /** `if descricao_filtrada:` — present and non-empty. */
  predicate FilterActive(f: Option<string>) {
    f.Some? && f.value != ""
  }

  /** The filter text occurs in the row's description (missing counts as
      empty), both lower-cased. */
  predicate Mentions(f: string, row: Row) {
    Contains(Lower(Get(row.metadata, DescriptionKey, "")), Lower(f))
  }

  function Mentioning(f: string): Row -> bool {
    (row: Row) => Mentions(f, row)
  }

  /** The rows the rest of the search works on. With an active filter and a
      non-empty scan, an empty selection is unpacked by `zip(*[])` into three
      names and fails. */
  function Candidates(rows: seq<Row>, f: Option<string>): (r: Result<seq<Row>>)
    ensures !FilterActive(f) ==> r == Ok(rows)
    ensures FilterActive(f) ==>
              (r.Err? <==> |rows| > 0 && forall k | 0 <= k < |rows| :: !Mentions(f.value, rows[k]))
    ensures FilterActive(f) && r.Ok? ==>
              forall k | 0 <= k < |r.value| :: r.value[k] in rows && Mentions(f.value, r.value[k])
  {
    if FilterActive(f) then
      if |rows| == 0 then Ok([])
      else
        var kept := Filter(rows, Mentioning(f.value));
        FilterEmpty(rows, Mentioning(f.value));
        if |kept| == 0 then Err(NotEnoughValuesToUnpack) else Ok(kept)
    else Ok(rows)
  }

  /** With an active filter, a row is kept exactly when its description
      mentions the filter, and kept rows stay in scan order: filtering a scan
      made of two parts filters each part. */
  lemma {:induction false} CandidatesKeepMatchingInOrder(a: seq<Row>, b: seq<Row>, f: Option<string>, row: Row)
    requires FilterActive(f) && Candidates(a + b, f).Ok?
    ensures row in Candidates(a + b, f).value <==> (row in a || row in b) && Mentions(f.value, row)
    ensures Candidates(a + b, f).value ==
            Filter(a, Mentioning(f.value)) + Filter(b, Mentioning(f.value))
  {
    var p := Mentioning(f.value);
    if |a + b| == 0 {
      assert a == [] && b == [];
    } else {
      FilterMembers(a + b, p, row);
      FilterAppend(a, b, p);
      assert row in a + b <==> row in a || row in b;
    }
  }

  /** The filter's condition on a stored record. */
  function MentionedBy(f: string): Record -> bool {
    Pull(Mentioning(f), RowOf)
  }

  /** The records an active filter lets through, in collection order. */
  function Kept(c: Collection, f: Option<string>): Collection {
    if FilterActive(f) then Filter(c, MentionedBy(f.value)) else c
  }

  /** The filter keeps whole records: the rows it keeps are the scan of the
      records whose description mentions the filter, so a kept document
      always travels with its own embedding and metadata. */
  lemma ScanFilterAligned(c: Collection, f: Option<string>)
    requires Candidates(Scan(c), f).Ok?
    ensures Candidates(Scan(c), f).value == Scan(Kept(c, f))
  {
    if FilterActive(f) {
      FilterMap(c, RowOf, Mentioning(f.value));
      if |c| == 0 {
        assert Filter(c, MentionedBy(f.value)) == [];
      }
    }
  }

  // ---------------------------------------------------------------------
  // Signature short-circuit

  /** The row is labelled as a signature block and carries a non-empty
      signer's name. */
  predicate NamesSigner(m: Metadata) {
    && DescriptionKey in m && m[DescriptionKey] == Classifier.SignatureLabel
    && SignerKey in m && m[SignerKey] != ""
  }

  /** The position of the first row naming a signer. */
  function FirstSigner(rows: seq<Row>): (r: Option<nat>)
    ensures r.Some? ==> r.value < |rows| && NamesSigner(rows[r.value].metadata)
    ensures r.Some? ==> forall k | 0 <= k < r.value :: !NamesSigner(rows[k].metadata)
    ensures r.None? ==> forall k | 0 <= k < |rows| :: !NamesSigner(rows[k].metadata)
    decreases |rows|
  {
    if |rows| == 0 then None
    else if NamesSigner(rows[0].metadata) then Some(0)
    else
      var rest := FirstSigner(rows[1..]);
      assert forall k | 1 <= k < |rows| :: rows[k] == rows[1..][k - 1];
      match rest
      case None => None
      case Some(k) => Some(k + 1)
  }

  function SignedSentence(name: string): string {
    "O documento foi assinado por " + name + "."
  }

  // ---------------------------------------------------------------------
  // Ranking and context

  function Scorer(question: Vector, similarity: (Vector, Vector) -> int): Row -> int {
    (row: Row) => similarity(question, row.embedding)
  }

  /** The documents at the selected indices, in selection order. */
  function Documents(rows: seq<Row>, top: seq<nat>): (docs: seq<string>)
    requires forall k | 0 <= k < |top| :: top[k] < |rows|
    ensures |docs| == |top|
    ensures forall k | 0 <= k < |top| :: docs[k] == rows[top[k]].document
  {
    seq(|top|, k requires 0 <= k < |top| => rows[top[k]].document)
  }

  /** The selected documents joined by line breaks. */
  function Context(rows: seq<Row>, top: seq<nat>): string
    requires forall k | 0 <= k < |top| :: top[k] < |rows|
  {
    Join(Documents(rows, top), "\n")
  }

  const AnswerHeader: string := "Responda com base no seguinte contexto:\n"

  function AnswerPrompt(context: string, question: string): string {
    AnswerHeader + context + "\n\nPergunta: " + question
  }

  /** The context holds exactly the selected documents, in selection order:
      when no document has a line break, splitting it on line breaks gives
      them back. */
  lemma ContextRoundTrip(rows: seq<Row>, top: seq<nat>)
    requires forall k | 0 <= k < |top| :: top[k] < |rows|
    requires |top| > 0
    requires forall k | 0 <= k < |rows| :: !Contains(rows[k].document, "\n")
    ensures Split(Context(rows, top), "\n") == Documents(rows, top)
  {
    var docs := Documents(rows, top);
    forall k | 0 <= k < |docs|
      ensures DelimitedAtEnd(docs[k], "\n") && !Contains(docs[k], "\n")
    {
      var x := docs[k];
      forall j | 0 <= j < |x|
        ensures x[j] != '\n'
      {
        assert x[j..j + 1] == [x[j]];
        assert !OccursAt(x, "\n", j);
      }
      SingleCharDelimited(x, '\n');
    }
    JoinSplit(docs, "\n");
  }

  // ---------------------------------------------------------------------
  // The search

  /** `buscar_resposta`, answering a question. Similarity is
      a parameter standing for the cosine of two embeddings. */
  function Answer(c: Collection, question: string, topC: int, f: Option<string>,
                  oracles: Oracles, similarity: (Vector, Vector) -> int): (r: Traced<Result<string>>)
    ensures |r.calls| >= 1 && r.calls[0] == Embed(question)
    ensures r.value.Err? <==> Candidates(Scan(c), f).Err?
    ensures r.value.Err? ==> r.calls == [Embed(question)]
    ensures |r.calls| <= 2 && (|r.calls| == 2 ==> r.calls[1].Generate?)
  {
    var asked := oracles.embed(question);
    match Candidates(Scan(c), f)
    case Err(e) => Traced(Err(e), [Embed(question)])
    case Ok(rows) =>
      match FirstSigner(rows)
      case Some(k) => Traced(Ok(SignedSentence(rows[k].metadata[SignerKey])), [Embed(question)])
      case None =>
        var scores := Map(rows, Scorer(asked, similarity));
        var top := Ranking.TopIndices(scores, topC);
        var prompt := AnswerPrompt(Context(rows, top), question);
        Traced(Ok(oracles.generate(prompt)), [Embed(question), Generate(prompt)])
  }

  /** When a kept row names a signer, the answer is the fixed sentence with
      the first such name in scan order, whatever the ranking would have been,
      and the generation model is not asked. */
  lemma SignerShortCircuit(c: Collection, question: string, topC: int, f: Option<string>,
                           oracles: Oracles, similarity: (Vector, Vector) -> int, j: nat)
    requires Candidates(Scan(c), f).Ok?
    requires var rows := Candidates(Scan(c), f).value;
             j < |rows| && NamesSigner(rows[j].metadata)
             && forall k | 0 <= k < j :: !NamesSigner(rows[k].metadata)
    ensures var rows := Candidates(Scan(c), f).value;
            Answer(c, question, topC, f, oracles, similarity)
            == Traced(Ok(SignedSentence(rows[j].metadata[SignerKey])), [Embed(question)])
  {
    var rows := Candidates(Scan(c), f).value;
    var first := FirstSigner(rows);
    assert first.Some?;
    assert first.value == j;
  }

  /** Without a signer among the kept rows, the generation model is asked
      once, with the selected documents as context, and its reply is the
      answer. */
  lemma AnswerUsesSelection(c: Collection, question: string, topC: int, f: Option<string>,
                            oracles: Oracles, similarity: (Vector, Vector) -> int)
    requires Candidates(Scan(c), f).Ok?
    requires var rows := Candidates(Scan(c), f).value;
             forall k | 0 <= k < |rows| :: !NamesSigner(rows[k].metadata)
    ensures var rows := Candidates(Scan(c), f).value;
            var scores := Map(rows, Scorer(oracles.embed(question), similarity));
            var top := Ranking.TopIndices(scores, topC);
            var prompt := AnswerPrompt(Context(rows, top), question);
            && |top| == Ranking.SliceLength(|rows|, topC)
            && Answer(c, question, topC, f, oracles, similarity)
               == Traced(Ok(oracles.generate(prompt)), [Embed(question), Generate(prompt)])
  {
    var rows := Candidates(Scan(c), f).value;
    var first := FirstSigner(rows);
    assert first.None?;
  }

  /** An empty collection is not an error, with or without a filter: the
      question is still embedded and the model is asked with an empty context. */
  lemma EmptyCollectionStillAsks(question: string, topC: int, f: Option<string>,
                                 oracles: Oracles, similarity: (Vector, Vector) -> int)
    ensures var prompt := AnswerPrompt("", question);
            Answer([], question, topC, f, oracles, similarity)
            == Traced(Ok(oracles.generate(prompt)), [Embed(question), Generate(prompt)])
  {
    assert Scan([]) == [];
    var top := Ranking.TopIndices([], topC);
    assert |top| == 0;
    assert Context([], top) == "";
  }

  /** The filter ignores case: `plano` keeps a chunk described as
      `Plano Odontológico`. */
  lemma FilterIgnoresCase()
    ensures Mentions("plano", Row("", [], map[DescriptionKey := "Plano Odontológico"]))
  {
    var d := Lower("Plano Odontológico");
    assert d[..5] == "plano";
    assert OccursAt(d, Lower("plano"), 0);
  }
}
