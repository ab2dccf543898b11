/** Extraction of the signer's name from an ingested text
    (app/rag_engine.py, `extrair_nome_assinatura` and
    `fallback_nome_por_llm`). Two regular expressions are tried in order,
    both case-insensitive:

      1. `eu[\s,:-]+(.*?)(?:,| portador|$)` — the capture, trimmed, is
         accepted only if it has at least two words and, spaces aside, only
         letters;
      2. `([\w\s]{5,})\s+portador do RG` — the capture, trimmed, is accepted
         as it is;

    and only when neither yields a name is the chat model asked.

    Each regex is modelled twice: declaratively (`NameMatchAt`, `RgMatchAt`:
    which spans match at all) and operationally (`SearchName`, `SearchRg`:
    Python's leftmost-start search with greedy and lazy backtracking), and
    the contracts of the operational functions pin down which match Python
    reports. */
module SignatureName {
  import opened Wrappers
  import opened Text
  import opened Remote

  // ---------------------------------------------------------------------
  // Pattern 1: eu[\s,:-]+(.*?)(?:,| portador|$)

  /** The class `[\s,:-]`. */
  predicate IsSep(c: char) {
    IsSpace(c) || c == ',' || c == ':' || c == '-'
  }

  /** `eu`, in any case, at `i`. */
  predicate EuAt(s: string, i: nat) {
    i + 2 <= |s| && CiEq(s[i], 'e') && CiEq(s[i + 1], 'u')
  }

  /** The group `(?:,| portador|$)` matches at `e`; without MULTILINE, `$`
      matches at the end or before a final line break. */
  predicate EndsName(s: string, e: nat) {
    || (e < |s| && s[e] == ',')
    || CiOccursAt(s, " portador", e)
    || e == |s|
    || (e + 1 == |s| && s[e] == '\n')
  }

  /** The capture `s[q..e]` can be closed at `e`: `.` does not cross a line
      break and the terminator matches there. */
  ghost predicate HasEnd(s: string, q: nat, e: nat) {
    q <= e <= |s| && NoNewline(s, q, e) && EndsName(s, e)
  }

  /** Pattern 1 matches with `eu` at `i`, separators filling `s[i+2..q]` and
      the capture `s[q..e]`. */
  ghost predicate NameMatchAt(s: string, i: nat, q: nat, e: nat) {
    EuAt(s, i) && i + 2 < q && (forall k | i + 2 <= k < q :: k < |s| && IsSep(s[k]))
    && HasEnd(s, q, e)
  }

  /** The match Python reports at `i`: the separator run as long as
      possible, then the capture as short as possible. */
  ghost predicate PreferredAt(s: string, i: nat, q: nat, e: nat) {
    && NameMatchAt(s, i, q, e)
    && (forall q': nat, e': nat | q < q' :: !NameMatchAt(s, i, q', e'))
    && (forall e': nat | e' < e :: !NameMatchAt(s, i, q, e'))
  }

  /** The least end of a capture starting at `q`. */
  ghost predicate LeastEnd(s: string, q: nat, e: nat) {
    HasEnd(s, q, e) && forall k | q <= k < e :: !EndsName(s, k)
  }

  /** The lazy `(.*?)` from `q`, having already rejected `s[q..e]`. */
  function LazyEnd(s: string, q: nat, e: nat): (r: Option<nat>)
    requires q <= e <= |s|
    requires NoNewline(s, q, e)
    requires forall k | q <= k < e :: !EndsName(s, k)
    ensures r.Some? ==> LeastEnd(s, q, r.value)
    ensures r.None? ==> forall k | q <= k :: !HasEnd(s, q, k)
    decreases |s| - e
  {
    if EndsName(s, e) then Some(e)
    else if s[e] != '\n' then LazyEnd(s, q, e + 1)
    else
      assert forall k | e < k <= |s| :: !NoNewline(s, q, k) by {
        forall k | e < k <= |s|
          ensures !NoNewline(s, q, k)
        {
          assert s[e] == '\n';
        }
      }
      None
  }

  /** The greedy `[\s,:-]+` giving back one character at a time: captures
      starting at `q`, then `q - 1`, ..., down to `p + 1`. */
  function TryCaptures(s: string, p: nat, q: nat): (r: Option<(nat, nat)>)
    requires p <= q <= |s|
    ensures r.Some? ==> p < r.value.0 <= q && LeastEnd(s, r.value.0, r.value.1)
    ensures r.Some? ==> forall q': nat, e': nat | r.value.0 < q' <= q :: !HasEnd(s, q', e')
    ensures r.None? ==> forall q': nat, e': nat | p < q' <= q :: !HasEnd(s, q', e')
    decreases q
  {
    if q == p then None
    else
      match LazyEnd(s, q, q)
      case Some(e) => Some((q, e))
      case None => TryCaptures(s, p, q - 1)
  }

  /** A match of pattern 1 has its separators inside the maximal separator
      run after `eu`. */
  lemma SeparatorsWithinRun(s: string, i: nat, q: nat, e: nat)
    requires NameMatchAt(s, i, q, e)
    ensures q <= RunEnd(s, i + 2, IsSep)
  {
  }

  /** `re.search` for pattern 1 from `from`: the first start with a match,
      and there the match Python prefers. Yields `(start, capture start,
      capture end)`. */
  function SearchName(s: string, from: nat): (r: Option<(nat, nat, nat)>)
    requires from <= |s|
    ensures r.Some? ==> from <= r.value.0 && r.value.1 <= r.value.2 <= |s|
    ensures r.Some? ==> PreferredAt(s, r.value.0, r.value.1, r.value.2)
    ensures r.Some? ==> forall i: nat, q: nat, e: nat | from <= i < r.value.0 :: !NameMatchAt(s, i, q, e)
    ensures r.None? ==> forall i: nat, q: nat, e: nat | from <= i :: !NameMatchAt(s, i, q, e)
    decreases |s| - from
  {
    var here := if EuAt(s, from) then TryCaptures(s, from + 2, RunEnd(s, from + 2, IsSep)) else None;
    NoOtherMatchAt(s, from, here);
    match here
    case Some(c) => Some((from, c.0, c.1))
    case None =>
      if from == |s| then None
      else
        var rest := SearchName(s, from + 1);
        rest
  }

  /** What `TryCaptures` says about the start `i`, in terms of pattern 1. */
  lemma NoOtherMatchAt(s: string, i: nat, here: Option<(nat, nat)>)
    requires i <= |s|
    requires here == if EuAt(s, i) then TryCaptures(s, i + 2, RunEnd(s, i + 2, IsSep)) else None
    ensures here.Some? ==> PreferredAt(s, i, here.value.0, here.value.1)
    ensures here.None? ==> forall q: nat, e: nat :: !NameMatchAt(s, i, q, e)
  {
    if EuAt(s, i) {
      var run := RunEnd(s, i + 2, IsSep);
      forall q: nat, e: nat | NameMatchAt(s, i, q, e)
        ensures here.Some? && q <= here.value.0
        ensures here.Some? && q == here.value.0 ==> here.value.1 <= e
      {
        SeparatorsWithinRun(s, i, q, e);
      }
      if here.Some? {
        var q := here.value.0;
        assert NameMatchAt(s, i, q, here.value.1) by {
          forall k | i + 2 <= k < q
            ensures k < |s| && IsSep(s[k])
          {
          }
        }
      }
    }
  }

  /** The pattern-1 match `re.search` reports for `s`, if any. */
  ghost predicate IsFirstNameMatch(s: string, i: nat, q: nat, e: nat) {
    PreferredAt(s, i, q, e) && forall i': nat, q': nat, e': nat | i' < i :: !NameMatchAt(s, i', q', e')
  }

  /** The reported match is unique. */
  lemma FirstNameMatchUnique(s: string, i: nat, q: nat, e: nat, i': nat, q': nat, e': nat)
    requires IsFirstNameMatch(s, i, q, e) && IsFirstNameMatch(s, i', q', e')
    ensures i == i' && q == q' && e == e'
  {
    assert i < i' ==> !NameMatchAt(s, i, q, e);
    assert i' < i ==> !NameMatchAt(s, i', q', e');
    assert i == i' && q < q' ==> !NameMatchAt(s, i, q', e');
    assert i == i' && q' < q ==> !NameMatchAt(s, i, q, e);
    assert i == i' && q == q' && e < e' ==> !NameMatchAt(s, i, q, e);
    assert i == i' && q == q' && e' < e ==> !NameMatchAt(s, i, q, e');
  }

  lemma OnlyFirstNameMatch(s: string, i: nat, q: nat, e: nat)
    requires IsFirstNameMatch(s, i, q, e)
    ensures forall i': nat, q': nat, e': nat | IsFirstNameMatch(s, i', q', e') :: i' == i && q' == q && e' == e
  {
    forall i': nat, q': nat, e': nat | IsFirstNameMatch(s, i', q', e')
      ensures i' == i && q' == q && e' == e
    {
      FirstNameMatchUnique(s, i, q, e, i', q', e');
    }
  }

  /** The acceptance test on a pattern-1 candidate: at least two
      whitespace-separated words, and every character a letter except plain
      spaces (only the space character is exempt from the letter test). */
  predicate Plausible(name: string) {
    |Words(name)| >= 2 && forall k | 0 <= k < |name| :: name[k] == ' ' || IsAlpha(name[k])
  }

  /** The name given by pattern 1, when its capture passes the test. */
  function FirstHeuristic(s: string): (r: Option<string>)
    ensures r.Some? ==> Plausible(r.value)
  {
    match SearchName(s, 0)
    case Some(m) =>
      var name := Strip(s[m.1..m.2]);
      if Plausible(name) then Some(name) else None
    case None => None
  }

  /** Pattern 1 decides by the match `re.search` reports: its trimmed capture
      is the name when plausible, and nothing otherwise. */
  lemma FirstHeuristicOfMatch(s: string, i: nat, q: nat, e: nat)
    requires q <= e <= |s|
    requires IsFirstNameMatch(s, i, q, e)
    ensures FirstHeuristic(s) == if Plausible(Strip(s[q..e])) then Some(Strip(s[q..e])) else None
  {
    var m := SearchName(s, 0);
    assert m.Some?;
    FirstNameMatchUnique(s, i, q, e, m.value.0, m.value.1, m.value.2);
  }

  /** Without any match of pattern 1 it yields nothing. */
  lemma FirstHeuristicWithoutMatch(s: string)
    requires forall i: nat, q: nat, e: nat :: !NameMatchAt(s, i, q, e)
    ensures FirstHeuristic(s).None?
  {
  }

  // ---------------------------------------------------------------------
  // Pattern 2: ([\w\s]{5,})\s+portador do RG

  /** The class `[\w\s]`. */
  predicate IsCaptureChar(c: char) {
    IsWordChar(c) || IsSpace(c)
  }

  const RgPhrase: string := "portador do RG"

  /** Pattern 2 matches with the capture `s[i..j]`, whitespace `s[j..l]` and
      the phrase, in any case, at `l`. */
  ghost predicate RgMatchAt(s: string, i: nat, j: nat, l: nat) {
    && i + 5 <= j < l <= |s|
    && (forall k | i <= k < j :: k < |s| && IsCaptureChar(s[k]))
    && (forall k | j <= k < l :: k < |s| && IsSpace(s[k]))
    && CiOccursAt(s, RgPhrase, l)
  }

  /** The whitespace before the phrase is always the whole run of
      whitespace after the capture: the phrase starts with a letter. */
  lemma PhraseAfterWholeRun(s: string, i: nat, j: nat, l: nat)
    requires RgMatchAt(s, i, j, l)
    ensures IsSpace(s[j]) && l == RunEnd(s, j, IsSpace)
  {
    var r := RunEnd(s, j, IsSpace);
    assert |RgPhrase| == 14 && RgPhrase[0] == 'p';
    assert CiEq(s[l + 0], RgPhrase[0]);
    assert !IsSpace(s[l]) by {
      assert LowerChar(s[l]) == 'p';
    }
  }

  /** The greedy `[\w\s]{5,}` giving back one character at a time: capture
      ends `j`, `j - 1`, ..., down to `i + 5`. */
  function GreedyCapture(s: string, i: nat, j: nat): (r: Option<nat>)
    requires i <= j <= |s|
    requires forall k | i <= k < j :: IsCaptureChar(s[k])
    ensures r.Some? ==> r.value <= j && RgMatchAt(s, i, r.value, RunEnd(s, r.value, IsSpace))
    ensures r.Some? ==> forall j': nat, l: nat | r.value < j' <= j :: !RgMatchAt(s, i, j', l)
    ensures r.None? ==> forall j': nat, l: nat | j' <= j :: !RgMatchAt(s, i, j', l)
    decreases j
  {
    if j < i + 5 then None
    else if j < |s| && IsSpace(s[j]) && CiOccursAt(s, RgPhrase, RunEnd(s, j, IsSpace)) then
      CaptureBeforeRun(s, i, j);
      Some(j)
    else
      NoCaptureEndingAt(s, i, j);
      GreedyCapture(s, i, j - 1)
  }

  /** A capture followed by whitespace and the phrase is a match. */
  lemma CaptureBeforeRun(s: string, i: nat, j: nat)
    requires i + 5 <= j < |s|
    requires forall k | i <= k < j :: IsCaptureChar(s[k])
    requires IsSpace(s[j]) && CiOccursAt(s, RgPhrase, RunEnd(s, j, IsSpace))
    ensures RgMatchAt(s, i, j, RunEnd(s, j, IsSpace))
  {
  }

  /** A capture ending at `j` not followed by whitespace and the phrase
      matches with no whitespace run at all. */
  lemma NoCaptureEndingAt(s: string, i: nat, j: nat)
    requires j <= |s|
    requires !(j < |s| && IsSpace(s[j]) && CiOccursAt(s, RgPhrase, RunEnd(s, j, IsSpace)))
    ensures forall l: nat :: !RgMatchAt(s, i, j, l)
  {
    forall l: nat | RgMatchAt(s, i, j, l)
      ensures false
    {
      PhraseAfterWholeRun(s, i, j, l);
    }
  }

  /** A match of pattern 2 keeps its capture inside the maximal `[\w\s]`
      run from its start. */
  lemma CaptureWithinRun(s: string, i: nat, j: nat, l: nat)
    requires RgMatchAt(s, i, j, l)
    ensures j <= RunEnd(s, i, IsCaptureChar)
  {
  }

  /** `re.search` for pattern 2 from `from`: the first start with a match,
      and there the longest capture. Yields `(start, capture end)`. */
  function SearchRg(s: string, from: nat): (r: Option<(nat, nat)>)
    requires from <= |s|
    ensures r.Some? ==> from <= r.value.0 && r.value.1 < |s|
    ensures r.Some? ==> RgMatchAt(s, r.value.0, r.value.1, RunEnd(s, r.value.1, IsSpace))
    ensures r.Some? ==> forall j: nat, l: nat | r.value.1 < j :: !RgMatchAt(s, r.value.0, j, l)
    ensures r.Some? ==> forall i: nat, j: nat, l: nat | from <= i < r.value.0 :: !RgMatchAt(s, i, j, l)
    ensures r.None? ==> forall i: nat, j: nat, l: nat | from <= i :: !RgMatchAt(s, i, j, l)
    decreases |s| - from
  {
    var run := RunEnd(s, from, IsCaptureChar);
    var here := GreedyCapture(s, from, run);
    assert forall j: nat, l: nat | RgMatchAt(s, from, j, l) :: j <= run by {
      forall j: nat, l: nat | RgMatchAt(s, from, j, l)
        ensures j <= run
      {
        CaptureWithinRun(s, from, j, l);
      }
    }
    match here
    case Some(j) => Some((from, j))
    case None =>
      if from == |s| then None
      else SearchRg(s, from + 1)
  }

  /** The name given by pattern 2: its capture, trimmed, unchecked. */
  function SecondHeuristic(s: string): (r: Option<string>)
    ensures r.Some? <==> exists i: nat, j: nat, l: nat :: RgMatchAt(s, i, j, l)
  {
    match SearchRg(s, 0)
    case Some(m) => Some(Strip(s[m.0..m.1]))
    case None => None
  }

  // ---------------------------------------------------------------------
  // The extractor

  /** The fixed part of the fallback request. */
  const NameHeader: string :=
    "\nExtraia apenas o nome completo da pessoa, se houver uma frase:\n\"Eu {NOME}, portador do RG\"\n\nTexto:\n"

  /** The fallback request: the instruction, the text and the answer cue. */
  function NamePrompt(text: string): string {
    NameHeader + text + "\n\nNome:\n"
  }

  /** `extrair_nome_assinatura`: pattern 1 if it yields a plausible name,
      else pattern 2 if it matches, else the chat model's trimmed reply. */
  function ExtractName(text: string, oracles: Oracles): (r: Traced<string>)
    ensures FirstHeuristic(text).Some? ==> r == Traced(FirstHeuristic(text).value, [])
    ensures FirstHeuristic(text).None? && SecondHeuristic(text).Some? ==>
              r == Traced(SecondHeuristic(text).value, [])
    ensures r.calls == [] <==> FirstHeuristic(text).Some? || SecondHeuristic(text).Some?
    ensures r.calls != [] ==> r.calls == [Chat(NamePrompt(text))]
                              && r.value == Strip(oracles.chat(NamePrompt(text)))
  {
    match FirstHeuristic(text)
    case Some(name) => Traced(name, [])
    case None =>
      match SecondHeuristic(text)
      case Some(name) => Traced(name, [])
      case None =>
        var prompt := NamePrompt(text);
        Traced(Strip(oracles.chat(prompt)), [Chat(prompt)])
  }

  /** The phrase the extractor's fallback prompt describes. */
  const Declaration: string := "Eu João Silva, portador do RG"

  /** The example of the extractor's prompt is handled by pattern 1 without
      asking the model. */
  lemma ExtractNameOfDeclaration(oracles: Oracles)
    ensures ExtractName(Declaration, oracles) == Traced("João Silva", [])
  {
    DeclarationFirstMatch();
    DeclarationCapture();
    NameIsPlausible();
    FirstHeuristicOfMatch(Declaration, 0, 3, 13);
  }

  lemma DeclarationCapture()
    ensures Strip(Declaration[3..13]) == "João Silva"
  {
    var s := Declaration;
    assert forall k | 0 <= k < 10 :: s[3 + k] == "João Silva"[k];
    assert s[3..13] == "João Silva";
    StripOfTrimmed("João Silva");
  }

  lemma DeclarationFirstMatch()
    ensures IsFirstNameMatch(Declaration, 0, 3, 13)
  {
    var s := Declaration;
    assert NameMatchAt(s, 0, 3, 13) by {
      assert EuAt(s, 0) && IsSep(s[2]);
      assert NoNewline(s, 3, 13);
      assert EndsName(s, 13);
    }
    assert forall q': nat, e': nat | 3 < q' :: !NameMatchAt(s, 0, q', e') by {
      assert !IsSep(s[3]);
    }
    DeclarationNoEarlierEnd();
  }

  lemma DeclarationNoEarlierEnd()
    ensures forall e': nat | 3 <= e' < 13 :: !EndsName(Declaration, e')
  {
    var s := Declaration;
    forall e': nat | 3 <= e' < 13
      ensures !EndsName(s, e')
    {
      assert s[e'] != ',' && s[e'] != '\n';
      assert e' != 7 ==> !CiEq(s[e' + 0], " portador"[0]);
      assert !CiEq(s[7 + 1], " portador"[1]);
    }
  }

  lemma NameIsPlausible()
    ensures Plausible("João Silva")
  {
    var name := "João Silva";
    assert forall k | 0 <= k < |name| :: name[k] == ' ' || IsAlpha(name[k]);
    assert StripStart(name) == 0;
    assert NextSpace(name, 0) == 4 by {
      assert name[4] == ' ';
      assert !IsSpace(name[0]) && !IsSpace(name[1]) && !IsSpace(name[2]) && !IsSpace(name[3]);
    }
    var rest := name[4..];
    assert !AllSpace(rest) by {
      assert !IsSpace(rest[1]);
    }
    assert |Words(rest)| >= 1;
  }

  /** The pattern-2 match `re.search` reports for `s`, if any: the first
      start, and there the longest capture. */
  ghost predicate IsFirstRgMatch(s: string, i: nat, j: nat) {
    && (exists l: nat :: RgMatchAt(s, i, j, l))
    && (forall j': nat, l: nat | j < j' :: !RgMatchAt(s, i, j', l))
    && (forall i': nat, j': nat, l: nat | i' < i :: !RgMatchAt(s, i', j', l))
  }

  /** Pattern 2 yields the trimmed capture of the match `re.search` reports. */
  lemma SecondHeuristicOfMatch(s: string, i: nat, j: nat)
    requires IsFirstRgMatch(s, i, j)
    ensures i <= j <= |s| && SecondHeuristic(s) == Some(Strip(s[i..j]))
  {
    var l: nat :| RgMatchAt(s, i, j, l);
    var m := SearchRg(s, 0);
    assert m.Some?;
    assert m.value.0 == i;
    assert m.value.1 == j;
  }

  /** A statement without `eu` falls to pattern 2. */
  const Holder: string := "Maria Souza portador do RG"

  /** Pattern 2 takes the words before `portador do RG`, with no model call. */
  lemma ExtractNameOfHolder(oracles: Oracles)
    ensures ExtractName(Holder, oracles) == Traced("Maria Souza", [])
  {
    HolderHasNoNameMatch();
    FirstHeuristicWithoutMatch(Holder);
    HolderSecondHeuristic();
  }

  lemma HolderSecondHeuristic()
    ensures SecondHeuristic(Holder) == Some("Maria Souza")
  {
    var name := "Maria Souza";
    assert !IsSpace(name[0]) && !IsSpace(name[10]);
    StripOfTrimmed(name);
    HolderCapture();
    HolderFirstRgMatch();
    SecondHeuristicOfMatch(Holder, 0, 11);
  }

  lemma HolderCapture()
    ensures Holder[0..11] == "Maria Souza"
  {
    var s := Holder;
    assert forall k | 0 <= k < 11 :: s[k] == "Maria Souza"[k];
  }

  lemma HolderHasNoNameMatch()
    ensures forall i: nat, q: nat, e: nat :: !NameMatchAt(Holder, i, q, e)
  {
    var s := Holder;
    forall i: nat | i + 2 <= |s|
      ensures !CiEq(s[i], 'e')
    {
    }
  }

  lemma HolderFirstRgMatch()
    ensures IsFirstRgMatch(Holder, 0, 11)
  {
    HolderMatch();
    assert forall j': nat, l: nat | 11 < j' :: !RgMatchAt(Holder, 0, j', l) by {
      assert |Holder| == 26 && |RgPhrase| == 14;
    }
  }

  lemma HolderMatch()
    ensures RgMatchAt(Holder, 0, 11, 12)
  {
    var s := Holder;
    assert |s| == 26;
    assert forall k | 0 <= k < 11 :: IsCaptureChar(s[k]);
    assert IsSpace(s[11]);
    assert forall k | 0 <= k < 14 :: CiEq(s[12 + k], RgPhrase[k]);
  }
}
