/** Chunk classification (app/rag_engine.py, `descrever_chunk`): a fixed,
    ordered list of regular expressions is tried on the lower-cased chunk;
    the first hit labels the chunk as a signature/identification block
    without consulting any model, otherwise the chat model is asked to pick
    one of the seven topics and its reply is trimmed and lower-cased. */
module Classifier {
  import opened Text
  import opened Remote

  const SignatureLabel: string := "assinatura, identificação"

  /** The closed set of topics the prompt offers the model. */
  const Taxonomy: seq<string> := [
    SignatureLabel,
    "plano odontológico",
    "plano de saúde",
    "valores, benefícios",
    "vale transporte",
    "dependentes, inclusão",
    "outros"
  ]

  /** The heuristic patterns, in the order they are tried. */
  datatype Pattern =
      /** `\beu[, ]` */
    | EuWord
      /** `declaro.*?recebido` */
    | DeclaroRecebido
      /** A pattern without metacharacters: a plain substring test. */
    | Literal(text: string)
      /** `assinatura do.*(profissional|colaborador|responsável)` */
    | SignatureOf

  const RgLiteral: string := "portador do RG"

  const Patterns: seq<Pattern> := [
    EuWord,
    DeclaroRecebido,
    Literal(RgLiteral),
    Literal("assinatura"),
    Literal("nome do profissional"),
    SignatureOf
  ]

  /** `\b` just before position `i`, where `s[i]` is a word character. */
  predicate BoundaryBefore(s: string, i: nat)
    requires i <= |s|
  {
    i == 0 || !IsWordChar(s[i - 1])
  }

  /** `\beu[, ]` matches at `i`. */
  predicate EuWordAt(s: string, i: nat) {
    i + 3 <= |s| && BoundaryBefore(s, i) && s[i] == 'e' && s[i + 1] == 'u'
    && (s[i + 2] == ',' || s[i + 2] == ' ')
  }

  /** `p.*q` matches with `p` at `i` and `q` at `j` on one line. */
  predicate PairOnLine(s: string, p: string, i: nat, q: string, j: nat) {
    OccursAt(s, p, i) && i + |p| <= j && OccursAt(s, q, j) && NoNewline(s, i + |p|, j)
  }

  /** Whether `re.search(pattern, s)` finds a match. */
  predicate Matches(pat: Pattern, s: string) {
    match pat
    case EuWord => exists i | 0 <= i <= |s| :: EuWordAt(s, i)
    case DeclaroRecebido =>
      exists i, j | 0 <= i <= j <= |s| :: PairOnLine(s, "declaro", i, "recebido", j)
    case Literal(t) => Contains(s, t)
    case SignatureOf =>
      exists i, j | 0 <= i <= j <= |s| ::
        || PairOnLine(s, "assinatura do", i, "profissional", j)
        || PairOnLine(s, "assinatura do", i, "colaborador", j)
        || PairOnLine(s, "assinatura do", i, "responsável", j)
  }

  /** The `for padrao in padroes` loop: does some pattern, tried in order, hit? */
  function AnyMatch(pats: seq<Pattern>, s: string): (r: bool)
    ensures r <==> exists k | 0 <= k < |pats| :: Matches(pats[k], s)
    decreases |pats|
  {
    if |pats| == 0 then false
    else if Matches(pats[0], s) then true
    else
      var rest := AnyMatch(pats[1..], s);
      assert forall k | 1 <= k < |pats| :: pats[k] == pats[1..][k - 1];
      rest
  }

  /** The fixed part of the classification request: the topic list. */
  const ClassifyHeader: string :=
    "\nClassifique o trecho abaixo com um dos temas:\n- assinatura, identificação\n- plano odontológico\n- plano de saúde\n- valores, benefícios\n- vale transporte\n- dependentes, inclusão\n- outros\n\nTrecho:\n"

  /** The classification request: the topic list followed by the chunk. */
  function ClassifyPrompt(chunk: string): string {
    ClassifyHeader + chunk
  }

  /** The heuristics fire on the chunk. */
  predicate Heuristic(chunk: string) {
    AnyMatch(Patterns, Lower(chunk))
  }

  /** Lower-cased with no surrounding whitespace: the shape of a label the
      model's reply is turned into. */
  predicate Normalised(t: string) {
    Strip(t) == t && Lower(t) == t
  }

  /** `descrever_chunk`. */
  function Classify(chunk: string, oracles: Oracles): (r: Traced<string>)
    ensures Heuristic(chunk) ==> r.value == SignatureLabel && r.calls == []
    ensures !Heuristic(chunk) ==> r.calls == [Chat(ClassifyPrompt(chunk))]
    ensures !Heuristic(chunk) ==> r.value == Lower(Strip(oracles.chat(ClassifyPrompt(chunk))))
    ensures Normalised(r.value)
  {
    if Heuristic(chunk) then
      LabelIsNormalised();
      Traced(SignatureLabel, [])
    else
      var prompt := ClassifyPrompt(chunk);
      var reply := oracles.chat(prompt);
      NormaliseReply(reply);
      Traced(Lower(Strip(reply)), [Chat(prompt)])
  }

  lemma LabelIsNormalised()
    ensures Normalised(SignatureLabel)
  {
    LabelIsTrimmed();
    LabelIsLowerCase();
  }

  lemma LabelIsTrimmed()
    ensures Strip(SignatureLabel) == SignatureLabel
  {
    var t := SignatureLabel;
    assert |t| == 25 && t[0] == 'a' && t[24] == 'o';
    StripOfTrimmed(t);
  }

  lemma LabelIsLowerCase()
    ensures Lower(SignatureLabel) == SignatureLabel
  {
    LowerOfLowerCase(SignatureLabel);
  }

  /** A reply trimmed and then lower-cased is normalised. */
  lemma NormaliseReply(reply: string)
    ensures Normalised(Lower(Strip(reply)))
  {
    var t := Strip(reply);
    var l := Lower(t);
    StripOfTrimmed(l);
    assert Lower(l) == l;
  }

  /** The model is consulted exactly when no heuristic fires, and a chunk
      labelled without the model always gets a label of the taxonomy. */
  lemma ModelOnlyAsFallback(chunk: string, oracles: Oracles)
    ensures Classify(chunk, oracles).calls == [] <==> Heuristic(chunk)
    ensures Classify(chunk, oracles).calls == [] ==> Classify(chunk, oracles).value in Taxonomy
  {
  }

  /** The pattern `portador do RG` is matched against a lower-cased chunk
      but contains upper-case letters, so it never matches. */
  lemma RgPatternNeverFires(chunk: string)
    ensures !Matches(Literal(RgLiteral), Lower(chunk))
  {
    var s := Lower(chunk);
    forall i | 0 <= i <= |s|
      ensures !OccursAt(s, RgLiteral, i)
    {
      if i + |RgLiteral| <= |s| {
        assert s[i..i + |RgLiteral|][12] == s[i + 12];
        assert RgLiteral[12] == 'R';
      }
    }
  }

  /** Any hit of the last pattern is also a hit of the literal `assinatura`
      tried before it, so the last pattern never decides anything. */
  lemma SignatureOfImpliesAssinatura(s: string)
    requires Matches(SignatureOf, s)
    ensures Matches(Literal("assinatura"), s)
  {
    var i, j :| 0 <= i <= j <= |s| && (
      || PairOnLine(s, "assinatura do", i, "profissional", j)
      || PairOnLine(s, "assinatura do", i, "colaborador", j)
      || PairOnLine(s, "assinatura do", i, "responsável", j));
    assert OccursAt(s, "assinatura do", i);
    assert s[i..i + 10] == s[i..i + 13][..10];
    assert OccursAt(s, "assinatura", i);
  }

  /** A character of the pattern that the text lacks rules the pattern out. */
  lemma MissingCharBlocks(s: string, p: string, c: char)
    requires c in p && c !in s
    ensures !Contains(s, p)
  {
    var m :| 0 <= m < |p| && p[m] == c;
    forall i | 0 <= i <= |s|
      ensures !OccursAt(s, p, i)
    {
      if i + |p| <= |s| {
        assert s[i..i + |p|][m] == s[i + m];
        assert s[i + m] in s;
        assert s[i..i + |p|][m] != p[m];
      }
    }
  }

  /** Without an `e`, neither `\beu[, ]` nor `declaro.*?recebido` can hit. */
  lemma NoEWithoutE(s: string)
    requires 'e' !in s
    ensures !Matches(EuWord, s) && !Matches(DeclaroRecebido, s)
  {
    forall i | 0 <= i <= |s|
      ensures !EuWordAt(s, i)
    {
      if i + 3 <= |s| {
        assert s[i] in s;
      }
    }
    MissingCharBlocks(s, "declaro", 'e');
  }

  /** Without an `s`, neither `assinatura` nor the last pattern can hit. */
  lemma NoSignatureWithoutS(s: string)
    requires 's' !in s
    ensures !Matches(Literal("assinatura"), s) && !Matches(SignatureOf, s)
  {
    MissingCharBlocks(s, "assinatura", 's');
    if Matches(SignatureOf, s) {
      SignatureOfImpliesAssinatura(s);
    }
  }

  /** A chunk whose lower-cased form has no `e`, `s` or `n` fires no
      heuristic: each pattern needs one of them, except the dead RG one. */
  lemma NoHeuristicWithoutKeyLetters(chunk: string)
    requires var s := Lower(chunk); 'e' !in s && 's' !in s && 'n' !in s
    ensures !Heuristic(chunk)
  {
    var s := Lower(chunk);
    NoEWithoutE(s);
    NoSignatureWithoutS(s);
    MissingCharBlocks(s, "nome do profissional", 'n');
    RgPatternNeverFires(chunk);
    assert forall k | 0 <= k < |Patterns| :: !Matches(Patterns[k], s);
  }

  /** A chunk that names the holder of an RG without any other cue is sent to
      the model, because the RG pattern is dead. */
  lemma RgHolderGoesToModel(oracles: Oracles)
    ensures Classify("Portador do RG", oracles).calls != []
  {
    var s := Lower("Portador do RG");
    assert s == "portador do rg";
    assert 'e' !in s && 's' !in s && 'n' !in s;
    NoHeuristicWithoutKeyLetters("Portador do RG");
  }

  /** The model's label is not checked against the taxonomy: whatever it
      answers, trimmed and lower-cased, becomes the chunk's label. */
  lemma LabelIsNotValidated(oracles: Oracles)
    requires forall p :: oracles.chat(p) == "Férias"
    ensures Classify("x", oracles).value == "férias"
    ensures Classify("x", oracles).value !in Taxonomy
  {
    ChunkXGoesToModel();
    FeriasNormalised();
    FeriasOutsideTaxonomy();
  }

  lemma ChunkXGoesToModel()
    ensures !Heuristic("x")
  {
    var s := Lower("x");
    assert |s| == 1 && s[0] == 'x';
    assert 'e' !in s && 's' !in s && 'n' !in s;
    NoHeuristicWithoutKeyLetters("x");
  }

  lemma FeriasNormalised()
    ensures Lower(Strip("Férias")) == "férias"
  {
    StripOfTrimmed("Férias");
    assert Lower("Férias") == "férias";
  }

  lemma FeriasOutsideTaxonomy()
    ensures "férias" !in Taxonomy
  {
    forall k | 0 <= k < |Taxonomy|
      ensures Taxonomy[k] != "férias"
    {
      assert Taxonomy[k][0] != 'f';
    }
  }
}
