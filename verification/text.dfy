/** Python string primitives the pipeline relies on: character classes,
    `str.lower`, `str.strip`, `str.split`, `str.join`, substring search and
    `str(int)`. Whitespace is Python's complete table. Letters, digits and
    lower-casing follow Python's tables for ASCII and Latin-1 (and Latin
    Extended-A/B letters); other code points are treated as non-letters that
    lower-case to themselves. */
module Text {
  import opened Wrappers

  // ---------------------------------------------------------------------
  // Character classes

  /** `str.isspace` and the regex class `\s`. */
  predicate IsSpace(c: char) {
    c == ' ' || c == '\t' || c == '\n' || c == '\r' || c == '\U{0B}' || c == '\U{0C}'
    || ('\U{1C}' <= c <= '\U{1F}') || c == '\U{85}' || c == '\U{A0}' || c == '\U{1680}'
    || ('\U{2000}' <= c <= '\U{200A}') || c == '\U{2028}' || c == '\U{2029}'
    || c == '\U{202F}' || c == '\U{205F}' || c == '\U{3000}'
  }

  /** `str.isalpha` on one character. */
  predicate IsAlpha(c: char) {
    ('a' <= c <= 'z') || ('A' <= c <= 'Z') || c == '\U{AA}' || c == '\U{B5}' || c == '\U{BA}'
    || ('\U{C0}' <= c <= '\U{D6}') || ('\U{D8}' <= c <= '\U{F6}') || ('\U{F8}' <= c <= '\U{24F}')
  }

  /** Characters that are `isnumeric` without being letters. */
  predicate IsNumeric(c: char) {
    ('0' <= c <= '9') || c == '\U{B2}' || c == '\U{B3}' || c == '\U{B9}'
    || ('\U{BC}' <= c <= '\U{BE}')
  }

  /** The regex class `\w`. */
  predicate IsWordChar(c: char) {
    IsAlpha(c) || IsNumeric(c) || c == '_'
  }

  /** `str.lower` on one character. */
  function LowerChar(c: char): (r: char)
    ensures !('A' <= r <= 'Z')
    ensures IsSpace(c) <==> IsSpace(r)
  {
    if ('A' <= c <= 'Z') || ('\U{C0}' <= c <= '\U{DE}' && c != '\U{D7}') then
      (c as int + 32) as char
    else c
  }

  /** Case-insensitive equality of two characters, as `re.IGNORECASE` uses it. */
  predicate CiEq(a: char, b: char) {
    LowerChar(a) == LowerChar(b)
  }

  /** `str.lower`: character by character, so length and positions are kept. */
  function Lower(s: string): (r: string)
    ensures |r| == |s|
    ensures forall k | 0 <= k < |s| :: r[k] == LowerChar(s[k])
  {
    seq(|s|, k requires 0 <= k < |s| => LowerChar(s[k]))
  }

  /** A text without any upper-case letter is its own lower-case form. */
  lemma LowerOfLowerCase(s: string)
    requires forall k | 0 <= k < |s| :: !('A' <= s[k] <= 'Z') && !('\U{C0}' <= s[k] <= '\U{DE}')
    ensures Lower(s) == s
  {
  }

  /** `str.lower` never yields an ASCII upper-case letter. */
  lemma LowerHasNoUpper(s: string)
    ensures forall k | 0 <= k < |Lower(s)| :: !('A' <= Lower(s)[k] <= 'Z')
  {
  }

  // ---------------------------------------------------------------------
  // Substring search

  /** `d` occurs in `s` starting at position `i`. */
  predicate OccursAt(s: string, d: string, i: nat) {
    i + |d| <= |s| && s[i..i + |d|] == d
  }

  /** `d in s` for strings. */
  predicate Contains(s: string, d: string) {
    exists i | 0 <= i <= |s| :: OccursAt(s, d, i)
  }

  /** `d` occurs at `i` in `s` up to case (as a regex literal under IGNORECASE). */
  predicate CiOccursAt(s: string, d: string, i: nat) {
    i + |d| <= |s| && forall k | 0 <= k < |d| :: CiEq(s[i + k], d[k])
  }

  /** The first position at or after `from` where `d` occurs, as `str.find`. */
  function FindFrom(s: string, d: string, from: nat): (r: Option<nat>)
    requires from <= |s|
    ensures r.Some? ==> from <= r.value && OccursAt(s, d, r.value)
    ensures r.Some? ==> forall j | from <= j < r.value :: !OccursAt(s, d, j)
    ensures r.None? ==> forall j | from <= j :: !OccursAt(s, d, j)
    decreases |s| - from
  {
    if from + |d| > |s| then None
    else if OccursAt(s, d, from) then Some(from)
    else FindFrom(s, d, from + 1)
  }

  /** `FindFrom` returns the first occurrence at or after `from`. */
  lemma {:induction false} FindFromFirst(s: string, d: string, from: nat, i: nat)
    requires from <= i <= |s|
    requires OccursAt(s, d, i)
    requires forall j | from <= j < i :: !OccursAt(s, d, j)
    ensures FindFrom(s, d, from) == Some(i)
    decreases i - from
  {
    if from < i {
      FindFromFirst(s, d, from + 1, i);
    }
  }

  /** `FindFrom` finds nothing in a text free of `d`. */
  lemma FindFromAbsent(s: string, d: string)
    requires !Contains(s, d)
    ensures FindFrom(s, d, 0).None?
  {
    forall j | 0 <= j
      ensures !OccursAt(s, d, j)
    {
      if j <= |s| {
        assert !OccursAt(s, d, j);
      }
    }
  }

  /** A substring of a slice is a substring of the whole. */
  lemma ContainsSlice(s: string, a: nat, b: nat, d: string)
    requires a <= b <= |s|
    requires Contains(s[a..b], d)
    ensures Contains(s, d)
  {
    var t := s[a..b];
    var i :| 0 <= i <= |t| && OccursAt(t, d, i);
    assert i + |d| <= |t| && t[i..i + |d|] == d;
    forall k | 0 <= k < |d|
      ensures s[a + i + k] == d[k]
    {
      assert t[i + k] == t[i..i + |d|][k];
    }
    assert s[a + i..a + i + |d|] == d;
    assert OccursAt(s, d, a + i);
  }

  /** No line break in `s[a..b]`: the span a regex `.*` may cover. */
  predicate NoNewline(s: string, a: nat, b: nat)
    requires a <= b <= |s|
  {
    forall k | a <= k < b :: s[k] != '\n'
  }

  /** The first index at or after `from` whose character is not in the class
      `p`, or `|s|`: the end of a greedy `[...]*` run. */
  function RunEnd(s: string, from: nat, p: char -> bool): (r: nat)
    requires from <= |s|
    ensures from <= r <= |s|
    ensures forall k | from <= k < r :: p(s[k])
    ensures r < |s| ==> !p(s[r])
    decreases |s| - from
  {
    if from == |s| || !p(s[from]) then from else RunEnd(s, from + 1, p)
  }

  // ---------------------------------------------------------------------
  // str.strip

  /** Number of leading whitespace characters. */
  function StripStart(s: string): (r: nat)
    ensures r <= |s|
    ensures forall k | 0 <= k < r :: IsSpace(s[k])
    ensures r < |s| ==> !IsSpace(s[r])
  {
    if |s| == 0 || !IsSpace(s[0]) then 0 else 1 + StripStart(s[1..])
  }

  /** End of the text once trailing whitespace at or after `from` is removed. */
  function StripEnd(s: string, from: nat): (r: nat)
    requires from <= |s|
    ensures from <= r <= |s|
    ensures forall k | r <= k < |s| :: IsSpace(s[k])
    ensures r > from ==> !IsSpace(s[r - 1])
    decreases |s|
  {
    if |s| == from || !IsSpace(s[|s| - 1]) then |s|
    else StripEnd(s[..|s| - 1], from)
  }

  /** `str.strip()` with no argument. */
  function Strip(s: string): (r: string)
    ensures |r| <= |s|
    ensures |r| > 0 ==> !IsSpace(r[0]) && !IsSpace(r[|r| - 1])
    ensures StripStart(s) + |r| <= |s| && r == s[StripStart(s)..StripStart(s) + |r|]
    ensures forall k | 0 <= k < StripStart(s) :: IsSpace(s[k])
    ensures forall k | StripStart(s) + |r| <= k < |s| :: IsSpace(s[k])
  {
    var a := StripStart(s);
    var b := StripEnd(s, a);
    s[a..b]
  }

  predicate AllSpace(s: string) {
    forall k | 0 <= k < |s| :: IsSpace(s[k])
  }

  /** Stripping leaves nothing exactly when the text is all whitespace, and
      stripping twice is stripping once. */
  lemma StripProperties(s: string)
    ensures Strip(s) == "" <==> AllSpace(s)
    ensures Strip(Strip(s)) == Strip(s)
  {
    var r := Strip(s);
    var a := StripStart(s);
    if |r| > 0 {
      assert s[a] == r[0];
    }
    StripOfTrimmed(r);
  }

  /** A text that starts and ends with non-space characters is its own strip. */
  lemma StripOfTrimmed(r: string)
    requires |r| > 0 ==> !IsSpace(r[0]) && !IsSpace(r[|r| - 1])
    ensures Strip(r) == r
  {
    if |r| > 0 {
      assert StripStart(r) == 0;
      assert StripEnd(r, 0) == |r|;
    }
  }

  /** `Strip` of a text free of `d` is free of `d`. */
  lemma StripKeepsAbsence(s: string, d: string)
    requires !Contains(s, d)
    ensures !Contains(Strip(s), d)
  {
    var a := StripStart(s);
    var r := Strip(s);
    if Contains(r, d) {
      ContainsSlice(s, a, a + |r|, d);
    }
  }

  // ---------------------------------------------------------------------
  // str.split() with no argument

  /** Index of the first whitespace character at or after `from`, or `|s|`. */
  function NextSpace(s: string, from: nat): (r: nat)
    requires from <= |s|
    ensures from <= r <= |s|
    ensures forall k | from <= k < r :: !IsSpace(s[k])
    ensures r < |s| ==> IsSpace(s[r])
    decreases |s| - from
  {
    if from == |s| || IsSpace(s[from]) then from else NextSpace(s, from + 1)
  }

  /** `str.split()`: the maximal runs of non-whitespace characters, in order. */
  function Words(s: string): (r: seq<string>)
    ensures forall w | w in r :: |w| > 0 && forall k | 0 <= k < |w| :: !IsSpace(w[k])
    ensures |r| == 0 <==> AllSpace(s)
    decreases |s|
  {
    var a := StripStart(s);
    if a == |s| then []
    else
      var e := NextSpace(s, a);
      [s[a..e]] + Words(s[e..])
  }

  // ---------------------------------------------------------------------
  // str.split(d) and d.join(xs)

  /** `d.join(xs)`. */
  function Join(xs: seq<string>, d: string): (r: string)
    decreases |xs|
  {
    if |xs| == 0 then ""
    else if |xs| == 1 then xs[0]
    else xs[0] + d + Join(xs[1..], d)
  }

  /** `s.split(d)` for a non-empty separator: left to right, non-overlapping. */
  function Split(s: string, d: string): (r: seq<string>)
    requires |d| > 0
    ensures |r| >= 1
    decreases |s|
  {
    match FindFrom(s, d, 0)
    case None => [s]
    case Some(i) => [s[..i]] + Split(s[i + |d|..], d)
  }

  /** No occurrence of `d` in `x + d` starts before the appended `d`: the
      condition under which a piece followed by the separator is split back
      at that separator. */
  predicate DelimitedAtEnd(x: string, d: string) {
    forall j | 0 <= j < |x| :: !OccursAt(x + d, d, j)
  }

  /** The shape `s.split(d)` always has: every piece but the last is cleanly
      followed by the separator, and the last contains no separator. */
  predicate SplitShape(r: seq<string>, d: string) {
    && |r| >= 1
    && (forall k | 0 <= k < |r| - 1 :: DelimitedAtEnd(r[k], d))
    && !Contains(r[|r| - 1], d)
  }

  /** A piece cleanly followed by the separator contains no separator. */
  lemma DelimitedAtEndHasNoDelim(x: string, d: string)
    requires |d| > 0
    requires DelimitedAtEnd(x, d)
    ensures !Contains(x, d)
  {
    if Contains(x, d) {
      var i :| 0 <= i <= |x| && OccursAt(x, d, i);
      assert (x + d)[i..i + |d|] == x[i..i + |d|];
      assert OccursAt(x + d, d, i);
      assert false;
    }
  }

  /** Joining the pieces of a split gives the text back, and the pieces have
      the shape of a left-to-right split. */
  lemma {:induction false} SplitJoin(s: string, d: string)
    requires |d| > 0
    ensures Join(Split(s, d), d) == s
    ensures SplitShape(Split(s, d), d)
    decreases |s|
  {
    match FindFrom(s, d, 0)
    case None =>
      assert !Contains(s, d) by {
        forall j | 0 <= j <= |s|
          ensures !OccursAt(s, d, j)
        {
        }
      }
    case Some(i) =>
      SplitJoin(s[i + |d|..], d);
      SplitJoinStep(s, d, i);
  }

  /** One step of `SplitJoin`: the first separator sits at `i`. */
  lemma SplitJoinStep(s: string, d: string, i: nat)
    requires |d| > 0
    requires FindFrom(s, d, 0) == Some(i)
    requires Join(Split(s[i + |d|..], d), d) == s[i + |d|..]
    requires SplitShape(Split(s[i + |d|..], d), d)
    ensures Join(Split(s, d), d) == s
    ensures SplitShape(Split(s, d), d)
  {
    var rest := s[i + |d|..];
    var tail := Split(rest, d);
    assert Split(s, d) == [s[..i]] + tail;
    FirstPiece(s, d, i);
    JoinCons(s[..i], tail, d);
    SplitShapeCons(s[..i], tail, d);
  }

  /** Around the first separator, at `i`: the text is the piece before it,
      the separator and the rest, and the piece is cleanly delimited. */
  lemma FirstPiece(s: string, d: string, i: nat)
    requires |d| > 0
    requires FindFrom(s, d, 0) == Some(i)
    ensures i + |d| <= |s|
    ensures s == s[..i] + d + s[i + |d|..]
    ensures DelimitedAtEnd(s[..i], d)
  {
    var p := s[..i + |d|];
    assert s[..i] + d == p by {
      assert s[i..i + |d|] == d;
      assert p == s[..i] + s[i..i + |d|];
    }
    assert s == p + s[i + |d|..];
    forall j | 0 <= j < i
      ensures !OccursAt(p, d, j)
    {
      assert !OccursAt(s, d, j);
      assert p[j..j + |d|] == s[j..j + |d|];
    }
  }

  lemma JoinCons(x: string, xs: seq<string>, d: string)
    requires |xs| >= 1
    ensures Join([x] + xs, d) == x + d + Join(xs, d)
  {
    assert ([x] + xs)[1..] == xs;
  }

  lemma SplitShapeCons(x: string, xs: seq<string>, d: string)
    requires DelimitedAtEnd(x, d)
    requires SplitShape(xs, d)
    ensures SplitShape([x] + xs, d)
  {
    var r := [x] + xs;
    assert r[|r| - 1] == xs[|xs| - 1];
    forall k | 0 <= k < |r| - 1
      ensures DelimitedAtEnd(r[k], d)
    {
      if k > 0 {
        assert r[k] == xs[k - 1];
      }
    }
  }

  /** Splitting a join gives the pieces back when they have the shape of a
      split: `split` and `join` are inverse on such piece lists. */
  lemma {:induction false} JoinSplit(xs: seq<string>, d: string)
    requires |d| > 0
    requires SplitShape(xs, d)
    ensures Split(Join(xs, d), d) == xs
    decreases |xs|
  {
    if |xs| == 1 {
      assert Join(xs, d) == xs[0];
      FindFromAbsent(xs[0], d);
    } else {
      var rest := Join(xs[1..], d);
      assert Join(xs, d) == xs[0] + d + rest;
      assert SplitShape(xs[1..], d) by {
        assert xs[1..][|xs[1..]| - 1] == xs[|xs| - 1];
        forall k | 0 <= k < |xs[1..]| - 1
          ensures DelimitedAtEnd(xs[1..][k], d)
        {
          assert xs[1..][k] == xs[k + 1];
        }
      }
      JoinSplit(xs[1..], d);
      SplitAfterPiece(xs[0], d, rest);
      assert xs == [xs[0]] + xs[1..];
    }
  }

  /** A piece cleanly followed by the separator is split off as it is. */
  lemma SplitAfterPiece(x: string, d: string, rest: string)
    requires |d| > 0
    requires DelimitedAtEnd(x, d)
    ensures Split(x + d + rest, d) == [x] + Split(rest, d)
  {
    var s := x + d + rest;
    assert OccursAt(s, d, |x|) by {
      assert s[|x|..|x| + |d|] == d;
    }
    forall j | 0 <= j < |x|
      ensures !OccursAt(s, d, j)
    {
      assert !OccursAt(x + d, d, j);
      assert s[j..j + |d|] == (x + d)[j..j + |d|];
    }
    FindFromFirst(s, d, 0, |x|);
    assert s[|x| + |d|..] == rest;
    assert s[..|x|] == x;
  }

  /** For a one-character separator, a piece is cleanly followed by it
      exactly when the piece does not contain that character. */
  lemma SingleCharDelimited(x: string, c: char)
    requires forall k | 0 <= k < |x| :: x[k] != c
    ensures DelimitedAtEnd(x, [c])
    ensures !Contains(x, [c])
  {
    forall j | 0 <= j < |x|
      ensures !OccursAt(x + [c], [c], j)
    {
      assert (x + [c])[j] == x[j];
    }
    DelimitedAtEndHasNoDelim(x, [c]);
  }

  // ---------------------------------------------------------------------
  // List comprehensions with a condition

  /** `[x for x in s if p(x)]`. */
  function Filter<T>(s: seq<T>, p: T -> bool): (r: seq<T>)
    ensures |r| <= |s|
    ensures forall k | 0 <= k < |r| :: p(r[k]) && r[k] in s
    decreases |s|
  {
    if |s| == 0 then []
    else (if p(s[0]) then [s[0]] else []) + Filter(s[1..], p)
  }

  /** Filtering keeps exactly the elements satisfying the condition. */
  lemma {:induction false} FilterMembers<T>(s: seq<T>, p: T -> bool, x: T)
    ensures x in Filter(s, p) <==> x in s && p(x)
    decreases |s|
  {
    if |s| > 0 {
      FilterMembers(s[1..], p, x);
      assert s == [s[0]] + s[1..];
    }
  }

  /** Nothing is kept exactly when no element satisfies the condition. */
  lemma {:induction false} FilterEmpty<T>(s: seq<T>, p: T -> bool)
    ensures Filter(s, p) == [] <==> forall k | 0 <= k < |s| :: !p(s[k])
    decreases |s|
  {
    if |s| > 0 {
      FilterEmpty(s[1..], p);
      assert forall k | 1 <= k < |s| :: s[k] == s[1..][k - 1];
    }
  }

  /** Filtering distributes over concatenation, so relative order is kept. */
  lemma {:induction false} FilterAppend<T>(a: seq<T>, b: seq<T>, p: T -> bool)
    ensures Filter(a + b, p) == Filter(a, p) + Filter(b, p)
    decreases |a|
  {
    if |a| > 0 {
      FilterAppend(a[1..], b, p);
      assert (a + b)[1..] == a[1..] + b;
    } else {
      assert a + b == b;
    }
  }

  /** `[f(x) for x in s]`. */
  function Map<T, U>(s: seq<T>, f: T -> U): (r: seq<U>)
    ensures |r| == |s|
    ensures forall k | 0 <= k < |s| :: r[k] == f(s[k])
  {
    seq(|s|, k requires 0 <= k < |s| => f(s[k]))
  }

  /** The condition `p` read through `g`. */
  function Pull<T, U>(p: U -> bool, g: T -> U): T -> bool {
    (x: T) => p(g(x))
  }

  /** Filtering the images is mapping the filtered elements: the kept images
      are the images of exactly the kept elements, in the same order. */
  lemma {:induction false} FilterMap<T, U>(s: seq<T>, g: T -> U, p: U -> bool)
    ensures Filter(Map(s, g), p) == Map(Filter(s, Pull(p, g)), g)
    decreases |s|
  {
    if |s| > 0 {
      var head := if p(g(s[0])) then [s[0]] else [];
      var tail := Filter(s[1..], Pull(p, g));
      MapCons(s, g);
      FilterCons([g(s[0])] + Map(s[1..], g), p);
      FilterMap(s[1..], g, p);
      FilterCons(s, Pull(p, g));
      MapAppend(head, tail, g);
    }
  }

  lemma MapCons<T, U>(s: seq<T>, g: T -> U)
    requires |s| > 0
    ensures Map(s, g) == [g(s[0])] + Map(s[1..], g)
  {
  }

  lemma MapAppend<T, U>(a: seq<T>, b: seq<T>, g: T -> U)
    ensures Map(a + b, g) == Map(a, g) + Map(b, g)
  {
  }

  lemma FilterCons<T>(s: seq<T>, p: T -> bool)
    requires |s| > 0
    ensures Filter(s, p) == (if p(s[0]) then [s[0]] else []) + Filter(s[1..], p)
  {
  }

  // ---------------------------------------------------------------------
  // str(n) for a natural number

  function DigitChar(d: nat): (c: char)
    requires d < 10
  {
    (48 + d) as char
  }

  predicate IsDigit(c: char) {
    '0' <= c <= '9'
  }

  /** `str(n)`: decimal digits, most significant first, no leading zero. */
  function Decimal(n: nat): (r: string)
    ensures |r| > 0
    ensures forall k | 0 <= k < |r| :: IsDigit(r[k])
    ensures |r| > 1 ==> r[0] != '0'
  {
    if n < 10 then [DigitChar(n)] else Decimal(n / 10) + [DigitChar(n % 10)]
  }

  function DigitValue(c: char): (d: nat)
    requires IsDigit(c)
    ensures d < 10
  {
    c as int - 48
  }

  /** `int(s)` for a string of decimal digits. */
  function ParseDecimal(s: string): nat
    requires forall k | 0 <= k < |s| :: IsDigit(s[k])
  {
    if |s| == 0 then 0
    else ParseDecimal(s[..|s| - 1]) * 10 + DigitValue(s[|s| - 1])
  }

  /** `int(str(n)) == n`. */
  lemma {:induction false} DecimalRoundTrip(n: nat)
    ensures ParseDecimal(Decimal(n)) == n
  {
    if n >= 10 {
      DecimalRoundTrip(n / 10);
      var r := Decimal(n);
      assert r[..|r| - 1] == Decimal(n / 10);
    }
  }

  /** Distinct numbers print differently. */
  lemma DecimalInjective(m: nat, n: nat)
    requires Decimal(m) == Decimal(n)
    ensures m == n
  {
    DecimalRoundTrip(m);
    DecimalRoundTrip(n);
  }
}
