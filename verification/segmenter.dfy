/** Semantic segmentation: the chat model is asked to separate the topics of a
    text with `###`, and its reply is cut at each `###` into trimmed,
    non-empty chunks (app/rag_engine.py, `segmentar_semanticamente`). */
module Segmenter {
  import opened Text
  import opened Remote

  const Delimiter: string := "###"

  /** The fixed instruction that precedes the text to segment. */
  const SegmentHeader: string :=
    "\nDivida o texto abaixo em seções temáticas bem definidas. Cada seção deve conter apenas um tópico coeso.\nSepare com ###.\n\nTexto:\n"

  /** The request sent to the chat model: the instruction and the text. */
  function SegmentPrompt(text: string): string {
    SegmentHeader + text + "\n"
  }

  predicate NonEmpty(s: string) {
    |s| > 0
  }

  function StripFn(s: string): string {
    Strip(s)
  }

  /** A chunk as segmentation produces it: non-empty, already trimmed and
      free of the delimiter. */
  predicate IsChunk(c: string) {
    c != "" && Strip(c) == c && !Contains(c, Delimiter)
  }

  predicate AllChunks(cs: seq<string>) {
    forall k | 0 <= k < |cs| :: IsChunk(cs[k])
  }

  /** Each piece stripped, blank ones dropped. */
  function PieceChunks(pieces: seq<string>): seq<string> {
    Filter(Map(pieces, StripFn), NonEmpty)
  }

  /** Post-processing of the model's reply: cut it at every `###`, trim each
      piece, and keep the non-blank ones in order. */
  function Chunks(raw: string): (r: seq<string>)
    ensures AllChunks(r)
  {
    var pieces := Split(raw, Delimiter);
    SplitJoin(raw, Delimiter);
    PiecesStripToChunks(pieces);
    PieceChunks(pieces)
  }

  lemma PieceChunksAppend(p: seq<string>, q: seq<string>)
    ensures PieceChunks(p + q) == PieceChunks(p) + PieceChunks(q)
  {
    assert Map(p + q, StripFn) == Map(p, StripFn) + Map(q, StripFn);
    FilterAppend(Map(p, StripFn), Map(q, StripFn), NonEmpty);
  }

  /** A text is a chunk of the reply exactly when it is the non-empty strip
      of one of the reply's `###`-separated pieces. */
  lemma ChunkMembers(raw: string, c: string)
    ensures c in Chunks(raw) <==> c != "" && c in Map(Split(raw, Delimiter), StripFn)
  {
    FilterMembers(Map(Split(raw, Delimiter), StripFn), NonEmpty, c);
  }

  lemma PiecesStripToChunks(pieces: seq<string>)
    requires |pieces| >= 1
    requires SplitShape(pieces, Delimiter)
    ensures forall c | c in Map(pieces, StripFn) && c != "" :: IsChunk(c)
  {
    forall k | 0 <= k < |pieces| && Strip(pieces[k]) != ""
      ensures IsChunk(Strip(pieces[k]))
    {
      if k < |pieces| - 1 {
        DelimitedAtEndHasNoDelim(pieces[k], Delimiter);
      }
      StripKeepsAbsence(pieces[k], Delimiter);
      StripProperties(pieces[k]);
    }
  }

  /** Segments a text: one chat request, whose reply is cut into chunks. */
  function Segment(text: string, oracles: Oracles): (r: Traced<seq<string>>)
    ensures r.calls == [Chat(SegmentPrompt(text))]
    ensures r.value == Chunks(oracles.chat(SegmentPrompt(text)))
    ensures AllChunks(r.value)
  {
    var prompt := SegmentPrompt(text);
    Traced(Chunks(oracles.chat(prompt)), [Chat(prompt)])
  }

  /** A reply without delimiter is one chunk, its trimmed self, or none at all
      when it is blank. */
  lemma ChunksOfOnePiece(a: string)
    requires !Contains(a, Delimiter)
    ensures Chunks(a) == if Strip(a) == "" then [] else [Strip(a)]
  {
    FindFromAbsent(a, Delimiter);
    assert Split(a, Delimiter) == [a];
    assert Map([a], StripFn) == [Strip(a)];
  }

  /** Cutting at the first delimiter: the chunks of `a ### b` are the chunks
      of `a` followed by the chunks of `b`, so chunks keep the order of the
      pieces of the reply. */
  lemma ChunksAtFirstDelimiter(a: string, b: string)
    requires DelimitedAtEnd(a, Delimiter)
    ensures Chunks(a + Delimiter + b) == Chunks(a) + Chunks(b)
  {
    SplitAfterPiece(a, Delimiter, b);
    DelimitedAtEndHasNoDelim(a, Delimiter);
    FindFromAbsent(a, Delimiter);
    assert Split(a, Delimiter) == [a];
    PieceChunksAppend([a], Split(b, Delimiter));
  }

  /** An empty or blank reply yields no chunk at all (the caller then stores
      nothing). */
  lemma BlankReplyHasNoChunks(raw: string)
    requires AllSpace(raw)
    ensures Chunks(raw) == []
  {
    assert !Contains(raw, Delimiter) by {
      forall i | 0 <= i <= |raw|
        ensures !OccursAt(raw, Delimiter, i)
      {
        if i + 3 <= |raw| {
          assert raw[i..i + 3][0] == raw[i];
        }
      }
    }
    StripProperties(raw);
    ChunksOfOnePiece(raw);
  }
}
