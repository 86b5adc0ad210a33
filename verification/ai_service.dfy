/**
 * The search helpers of the AI service: the text clean-up applied before
 * embedding, the hash-seeded mock embedding, the three-tier embedding
 * fallback, cosine similarity, the threshold-and-rank step of semantic
 * search, and keyword expansion of a query.
 *
 * The remote and local embedding models are oracles passed in as
 * parameters; so are `Math.sin` and `Math.sqrt`, which the model leaves
 * uninterpreted.
 */
module AiService {
  import opened Text
  import opened Types
  import opened Ranking

  // ---------------------------------------------------------------------
  // preprocessText
  // ---------------------------------------------------------------------

  /** The characters `/[^\w\s.,!?-]/g` does not remove. */
  predicate IsKeptChar(c: char) {
    IsWordChar(c) || IsSpace(c) || c in ".,!?-"
  }

  const MaxModelInput: nat := 512

  /** What a preprocessed text may contain: `\w`, the space and `. , ! ? -`. */
  predicate IsModelChar(c: char) {
    IsWordChar(c) || c == ' ' || c in ".,!?-"
  }

  /** `preprocessText` before the cut: whitespace runs become one space,
      characters outside the kept class are deleted and the ends are trimmed.
      The words are those left once the deleted characters are gone. */
  function Squeezed(text: string): (t: string)
    ensures forall c :: c in t ==> IsModelChar(c)
    ensures t == [] || (!IsSpace(t[0]) && !IsSpace(t[|t| - 1]))
  {
    var collapsed := CollapseSpaces(text);
    var kept := KeepWhere(collapsed, IsKeptChar);
    forall c | c in kept ensures IsModelChar(c) {
      var i :| 0 <= i < |kept| && kept[i] == c;
      assert IsKeptChar(c);
      var j :| 0 <= j < |collapsed| && collapsed[j] == c;
    }
    Trim(kept)
  }

  /** The squeezed text holds the words left once the deleted characters
      are gone, in order. */
  lemma SqueezedWords(text: string)
    ensures Words(Squeezed(text)) == Words(KeepWhere(text, IsKeptChar))
  {
    var kept := KeepWhere(CollapseSpaces(text), IsKeptChar);
    assert Squeezed(text) == Trim(kept);
    KeptWordsAfterCollapse(text);
    TrimIsSlice(kept);
  }

  /** Once the unkept characters are deleted, `x` and `y` hold the same
      words, and both or neither start with one. */
  predicate SameKeptWords(x: string, y: string) {
    && Words(KeepWhere(x, IsKeptChar)) == Words(KeepWhere(y, IsKeptChar))
    && StartsWord(KeepWhere(x, IsKeptChar)) == StartsWord(KeepWhere(y, IsKeptChar))
  }

  /** Deleting the unkept characters finds the same words whether or not
      the whitespace runs were collapsed first. */
  lemma {:induction false} KeptWordsAfterCollapse(s: string)
    ensures Words(KeepWhere(CollapseSpaces(s), IsKeptChar)) == Words(KeepWhere(s, IsKeptChar))
    ensures StartsWord(KeepWhere(CollapseSpaces(s), IsKeptChar)) == StartsWord(KeepWhere(s, IsKeptChar))
  {
    if |s| > 0 {
      var tail := s[1..];
      var rest := CollapseSpaces(tail);
      KeptWordsAfterCollapse(tail);
      assert SameKeptWords(rest, tail);
      if IsSpace(s[0]) && |s| > 1 && IsSpace(s[1]) {
        assert SameKeptWords(CollapseSpaces(s), s) by {
          assert CollapseSpaces(s) == rest;
          assert s == [s[0]] + tail;
          KeptWordsSpaceHead(s[0], tail);
        }
      } else {
        assert SameKeptWords(CollapseSpaces(s), s) by {
          var c := if IsSpace(s[0]) then ' ' else s[0];
          assert CollapseSpaces(s) == [c] + rest;
          assert s == [s[0]] + tail;
          KeptWordsCons(c, s[0], rest, tail);
        }
      }
    }
  }

  /** Two characters that are equal or both spaces, put in front of texts
      with the same kept words, give texts with the same kept words. */
  lemma KeptWordsCons(c: char, d: char, x: string, y: string)
    requires IsSpace(c) <==> IsSpace(d)
    requires !IsSpace(c) ==> c == d
    requires SameKeptWords(x, y)
    ensures SameKeptWords([c] + x, [d] + y)
  {
    KeepWhereCons(c, x, IsKeptChar);
    KeepWhereCons(d, y, IsKeptChar);
    if IsKeptChar(c) {
      RunsStep(c, d, KeepWhere(x, IsKeptChar), KeepWhere(y, IsKeptChar), IsSpace);
    }
  }

  /** A space in front of text that already starts with one changes no
      kept word. */
  lemma KeptWordsSpaceHead(c: char, x: string)
    requires IsSpace(c) && |x| > 0 && IsSpace(x[0])
    ensures SameKeptWords([c] + x, x)
  {
    KeepWhereCons(c, x, IsKeptChar);
    var k := KeepWhere([c] + x, IsKeptChar);
    assert k[1..] == KeepWhere(x, IsKeptChar);
    RunsSepHead(k, IsSpace);
    assert x == [x[0]] + x[1..];
    KeepWhereCons(x[0], x[1..], IsKeptChar);
  }

  /** `preprocessText`: the squeezed text cut to 512 characters. */
  function PreprocessText(text: string): (r: string)
    ensures |r| <= MaxModelInput
    ensures forall i :: 0 <= i < |r| ==> IsModelChar(r[i])
    ensures r == [] || !IsSpace(r[0])
    ensures |r| < MaxModelInput ==> r == [] || !IsSpace(r[|r| - 1])
  {
    var t := Squeezed(text);
    var r := Take(t, MaxModelInput);
    forall i | 0 <= i < |r| ensures IsModelChar(r[i]) {
      assert r[i] == t[i] && t[i] in t;
    }
    assert |r| < MaxModelInput ==> r == t;
    r
  }

  /** The result starts the squeezed text; when nothing was cut, its words
      are those of the input once the deleted characters are gone, so no
      two words are glued together and none is split. */
  lemma PreprocessKeepsWords(text: string)
    ensures PreprocessText(text) <= Squeezed(text)
    ensures |PreprocessText(text)| < MaxModelInput ==>
      Words(PreprocessText(text)) == Words(KeepWhere(text, IsKeptChar))
  {
    var t := Squeezed(text);
    var r := PreprocessText(text);
    assert r == Take(t, MaxModelInput);
    SqueezedWords(text);
  }

  /** Preprocessing loses no visible character other than the deleted ones
      and those past the cut: the non-space characters of the result start
      the kept non-space characters of the input, and are all of them when
      nothing was cut. */
  lemma PreprocessKeepsContent(text: string)
    ensures NonSpace(PreprocessText(text)) <= KeepWhere(NonSpace(text), IsKeptChar)
    ensures |PreprocessText(text)| < MaxModelInput ==>
      NonSpace(PreprocessText(text)) == KeepWhere(NonSpace(text), IsKeptChar)
  {
    var t := Squeezed(text);
    var r := PreprocessText(text);
    SqueezedKeepsContent(text);
    PreprocessKeepsWords(text);
    NonSpaceOfPrefix(r, t);
  }

  /** Before the cut, the non-space characters are exactly the kept
      non-space characters of the input. */
  lemma SqueezedKeepsContent(text: string)
    ensures NonSpace(Squeezed(text)) == KeepWhere(NonSpace(text), IsKeptChar)
  {
    var collapsed := CollapseSpaces(text);
    NonSpaceKeepWhere(collapsed, IsKeptChar);
    assert Squeezed(text) == Trim(KeepWhere(collapsed, IsKeptChar));
  }

  /** A prefix's non-space characters start the whole's. */
  lemma NonSpaceOfPrefix(r: string, t: string)
    requires r <= t
    ensures NonSpace(r) <= NonSpace(t)
    ensures r == t ==> NonSpace(r) == NonSpace(t)
  {
    assert t == r + t[|r|..];
    NonSpaceAppend(r, t[|r|..]);
  }

  /** Text that is already single-spaced, trimmed, short and made of kept
      characters passes through unchanged. */
  lemma PreprocessFixesCleanText(text: string)
    requires SingleSpaced(text)
    requires text == [] || (!IsSpace(text[0]) && !IsSpace(text[|text| - 1]))
    requires forall i :: 0 <= i < |text| ==> IsKeptChar(text[i])
    requires |text| <= MaxModelInput
    ensures PreprocessText(text) == text
  {
    CollapseSingleSpaced(text);
    KeepWhereAll(text, IsKeptChar);
  }

  // ---------------------------------------------------------------------
  // generateMockEmbedding: the 32-bit rolling hash
  // ---------------------------------------------------------------------

  const Two32: int := 0x1_0000_0000

  /** ECMAScript ToInt32: the signed 32-bit integer congruent to `x`
      modulo 2^32. */
  function ToInt32(x: int): (r: int)
    ensures -0x8000_0000 <= r < 0x8000_0000
    ensures (x - r) % Two32 == 0
  {
    var m := x % Two32;
    if m >= 0x8000_0000 then m - Two32 else m
  }

  /** ToInt32 only sees the residue modulo 2^32. */
  lemma ToInt32Congruent(a: int, b: int)
    requires (a - b) % Two32 == 0
    ensures ToInt32(a) == ToInt32(b)
  {
    var k := (a - b) / Two32;
    assert a == b + k * Two32;
    assert a % Two32 == b % Two32;
  }

  /** One step of the loop: `hash = ((hash << 5) - hash) + char; hash = hash & hash`.
      The shift wraps to 32 bits, the subtraction and addition are exact,
      and `& hash` wraps the sum. */
  function HashStep(h: int, c: char): int {
    ToInt32(ToInt32(h * 32) - h + c as int)
  }

  /** The hash of `text`, folding the step over its characters from the left. */
  function Hash(text: string): int {
    if |text| == 0 then 0 else HashStep(Hash(text[..|text| - 1]), text[|text| - 1])
  }

  /** Reference: the polynomial sum of c_i * 31^(n-1-i), without any wrapping. */
  function Poly(text: string): int {
    if |text| == 0 then 0 else 31 * Poly(text[..|text| - 1]) + text[|text| - 1] as int
  }

  /** A multiple of 2^32 leaves no residue. */
  lemma MultipleOfTwo32(k: int)
    ensures (k * Two32) % Two32 == 0
  {
  }

  /** A number with no residue modulo 2^32 is a multiple of it. */
  lemma NoResidue(x: int)
    requires x % Two32 == 0
    ensures x == (x / Two32) * Two32
  {
  }

  /** The step of the loop is the polynomial step wrapped to 32 bits. */
  lemma HashStepWraps(h: int, p: int, c: char)
    requires h == ToInt32(p)
    ensures HashStep(h, c) == ToInt32(31 * p + c as int)
  {
    var s := ToInt32(h * 32);
    NoResidue(h * 32 - s);
    NoResidue(p - h);
    var q1, q2 := (h * 32 - s) / Two32, (p - h) / Two32;
    var k := q1 + 31 * q2;
    assert (31 * p + c as int) - (s - h + c as int) == (h * 32 - s) + 31 * (p - h);
    assert (31 * p + c as int) - (s - h + c as int) == k * Two32;
    MultipleOfTwo32(k);
    ToInt32Congruent(31 * p + c as int, s - h + c as int);
  }

  /** The shift-and-subtract loop computes the 31-polynomial hash wrapped
      to a signed 32-bit integer. */
  lemma {:induction false} HashIsWrappedPoly(text: string)
    ensures Hash(text) == ToInt32(Poly(text))
  {
    if |text| > 0 {
      var front := text[..|text| - 1];
      HashIsWrappedPoly(front);
      HashStepWraps(Hash(front), Poly(front), text[|text| - 1]);
    }
  }

  /** The hash loop of `generateMockEmbedding`, as written. */
  method HashText(text: string) returns (hash: int)
    ensures hash == ToInt32(Poly(text))
    ensures -0x8000_0000 <= hash < 0x8000_0000
  {
    hash := 0;
    var i := 0;
    while i < |text|
      invariant 0 <= i <= |text|
      invariant hash == ToInt32(Poly(text[..i]))
    {
      HashStepWraps(hash, Poly(text[..i]), text[i]);
      assert text[..i + 1][..i] == text[..i];
      hash := ToInt32(ToInt32(hash * 32) - hash + text[i] as int);
      i := i + 1;
    }
    assert text[..i] == text;
  }

  const EmbeddingSize: nat := 384

  /** `generateMockEmbedding(text)`: entry `i` is `sin(hash + i) * 0.5`. */
  function MockEmbedding(text: string, sin: int -> real): (r: seq<real>)
    ensures |r| == EmbeddingSize
    ensures forall i :: 0 <= i < EmbeddingSize ==> r[i] == sin(ToInt32(Poly(text)) + i) * 0.5
  {
    HashIsWrappedPoly(text);
    seq(EmbeddingSize, i => sin(Hash(text) + i) * 0.5)
  }

  /** Texts with the same hash get the same mock vector, and with a sine
      bounded by 1 every entry lies within [-0.5, 0.5]. */
  lemma MockEmbeddingFromHash(a: string, b: string, sin: int -> real)
    requires Hash(a) == Hash(b)
    requires forall x :: -1.0 <= sin(x) <= 1.0
    ensures MockEmbedding(a, sin) == MockEmbedding(b, sin)
    ensures forall i :: 0 <= i < EmbeddingSize ==> -0.5 <= MockEmbedding(a, sin)[i] <= 0.5
  {
    HashIsWrappedPoly(a);
    HashIsWrappedPoly(b);
  }

  // ---------------------------------------------------------------------
  // generateEmbedding: the fallback chain
  // ---------------------------------------------------------------------

  /** An embedding model: a vector, or `None` when the call throws. */
  type Embedder = string -> Option<seq<real>>

  /** `generateEmbedding(text)`: the remote model when one is configured and
      answers, else the local model, else the mock vector. Both models see
      the preprocessed text; the mock hashes the raw text. */
  function GenerateEmbedding(text: string, remote: Option<Embedder>, local: Embedder, sin: int -> real): (r: seq<real>)
    ensures remote.Some? && remote.value(PreprocessText(text)).Some? ==>
      r == remote.value(PreprocessText(text)).value
    ensures (remote.None? || remote.value(PreprocessText(text)).None?) && local(PreprocessText(text)).Some? ==>
      r == local(PreprocessText(text)).value
    ensures (remote.None? || remote.value(PreprocessText(text)).None?) && local(PreprocessText(text)).None? ==>
      |r| == EmbeddingSize && r == MockEmbedding(text, sin)
  {
    var clean := PreprocessText(text);
    if remote.Some? && remote.value(clean).Some? then remote.value(clean).value
    else if local(clean).Some? then local(clean).value
    else MockEmbedding(text, sin)
  }

  // ---------------------------------------------------------------------
  // calculateSimilarity
  // ---------------------------------------------------------------------

  /** The running sum of a[i] * b[i] over the first |a| positions. */
  function Dot(a: seq<real>, b: seq<real>): real
    requires |a| == |b|
  {
    if |a| == 0 then 0.0 else Dot(a[..|a| - 1], b[..|b| - 1]) + a[|a| - 1] * b[|b| - 1]
  }

  /** The dot product is symmetric. */
  lemma {:induction false} DotSymmetric(a: seq<real>, b: seq<real>)
    requires |a| == |b|
    ensures Dot(a, b) == Dot(b, a)
  {
    if |a| > 0 {
      DotSymmetric(a[..|a| - 1], b[..|b| - 1]);
    }
  }

  function Negate(a: seq<real>): (r: seq<real>)
    ensures |r| == |a|
    ensures forall i :: 0 <= i < |a| ==> r[i] == -a[i]
  {
    seq(|a|, i requires 0 <= i < |a| => -a[i])
  }

  /** Negating one vector negates the dot product; negating both keeps it. */
  lemma DotNegate(a: seq<real>, b: seq<real>)
    requires |a| == |b|
    ensures Dot(a, Negate(b)) == -Dot(a, b)
    ensures Dot(Negate(a), Negate(b)) == Dot(a, b)
  {
    DotNegateRight(a, b);
    DotNegateRight(Negate(b), a);
    DotSymmetric(a, Negate(b));
    DotNegateRight(b, a);
    DotSymmetric(Negate(a), Negate(b));
    DotSymmetric(a, b);
  }

  /** Negating the second vector negates the dot product. */
  lemma {:induction false} DotNegateRight(a: seq<real>, b: seq<real>)
    requires |a| == |b|
    ensures Dot(a, Negate(b)) == -Dot(a, b)
  {
    if |a| > 0 {
      var n := |a| - 1;
      var nb := Negate(b);
      assert Dot(a[..n], nb[..n]) == -Dot(a[..n], b[..n]) by {
        assert nb[..n] == Negate(b[..n]);
        DotNegateRight(a[..n], b[..n]);
      }
      assert a[n] * nb[n] == -(a[n] * b[n]) by {
        ProductNegate(a[n], b[n], nb[n]);
      }
    }
  }

  lemma ProductNegate(x: real, y: real, z: real)
    requires z == -y
    ensures x * z == -(x * y)
  {
  }

  /** The cosine from a dot product and two norms: 0 when a norm is 0. */
  function Cosine(dot: real, norm1: real, norm2: real): (r: real)
    ensures norm1 * norm2 == 0.0 ==> r == 0.0
    ensures norm1 * norm2 != 0.0 ==> r * (norm1 * norm2) == dot
  {
    var magnitude := norm1 * norm2;
    if magnitude == 0.0 then 0.0 else dot / magnitude
  }

  /** `calculateSimilarity(e1, e2)`: cosine similarity, 0 when a vector is
      missing, the lengths differ, or a norm is 0. */
  function Similarity(e1: Option<seq<real>>, e2: Option<seq<real>>, sqrt: real -> real): (r: real)
    ensures e1.None? || e2.None? ==> r == 0.0
    ensures e1.Some? && e2.Some? && |e1.value| != |e2.value| ==> r == 0.0
    ensures e1.Some? && e2.Some? && |e1.value| == |e2.value| ==>
      r == Cosine(Dot(e1.value, e2.value), sqrt(Dot(e1.value, e1.value)), sqrt(Dot(e2.value, e2.value)))
  {
    if e1.None? || e2.None? || |e1.value| != |e2.value| then 0.0
    else
      var a, b := e1.value, e2.value;
      Cosine(Dot(a, b), sqrt(Dot(a, a)), sqrt(Dot(b, b)))
  }

  /** Similarity does not depend on the order of its arguments. */
  lemma SimilaritySymmetric(e1: Option<seq<real>>, e2: Option<seq<real>>, sqrt: real -> real)
    ensures Similarity(e1, e2, sqrt) == Similarity(e2, e1, sqrt)
  {
    if e1.Some? && e2.Some? && |e1.value| == |e2.value| {
      DotSymmetric(e1.value, e2.value);
    }
  }

  /** With a square root that squares back, a non-zero vector is fully
      similar to itself and fully dissimilar to its negation. */
  lemma SimilaritySelfAndOpposite(v: seq<real>, sqrt: real -> real)
    requires sqrt(Dot(v, v)) * sqrt(Dot(v, v)) == Dot(v, v)
    requires Dot(v, v) != 0.0
    ensures Similarity(Some(v), Some(v), sqrt) == 1.0
    ensures Similarity(Some(v), Some(Negate(v)), sqrt) == -1.0
  {
    var n := Dot(v, v);
    DotNegate(v, v);
    var w := Negate(v);
    SimilarityOfNorms(v, v, sqrt, n, n);
    SimilarityOfNorms(v, w, sqrt, n, -n);
    RatiosOfSelf(n);
  }

  /** `n / n` is 1 and `-n / n` is -1. */
  lemma RatiosOfSelf(n: real)
    requires n != 0.0
    ensures n / n == 1.0 && (-n) / n == -1.0
  {
  }

  /** Cosine similarity of two vectors with the same norm `sqrt(n)`. */
  lemma SimilarityOfNorms(a: seq<real>, b: seq<real>, sqrt: real -> real, n: real, d: real)
    requires |a| == |b| && Dot(a, a) == n && Dot(b, b) == n && Dot(a, b) == d
    requires sqrt(n) * sqrt(n) == n && n != 0.0
    ensures Similarity(Some(a), Some(b), sqrt) == d / n
  {
    CosineOfNorms(d, sqrt(n), n);
  }

  /** Two equal norms whose product is `n` give the cosine `d / n`. */
  lemma CosineOfNorms(d: real, x: real, n: real)
    requires x * x == n && n != 0.0
    ensures Cosine(d, x, x) == d / n
  {
    var r := Cosine(d, x, x);
    assert r * n == d;
  }

  // ---------------------------------------------------------------------
  // findSimilarDocuments
  // ---------------------------------------------------------------------

  const DefaultThreshold: real := 0.3

  function SimilarityOf(x: ScoredDoc): real { x.similarity }

  /** Each document paired with its similarity to the query, in input order. */
  function ScoreAll(query: Option<seq<real>>, docs: seq<Document>, sqrt: real -> real): (r: seq<ScoredDoc>)
    ensures |r| == |docs|
    ensures forall i :: 0 <= i < |docs| ==>
      r[i] == ScoredDoc(docs[i], Similarity(query, Some(docs[i].embedding), sqrt))
  {
    seq(|docs|, i requires 0 <= i < |docs| => ScoredDoc(docs[i], Similarity(query, Some(docs[i].embedding), sqrt)))
  }

  /** The entries at or above the threshold, in their order. */
  function AtLeast(s: seq<ScoredDoc>, threshold: real): (r: seq<ScoredDoc>)
    ensures forall x :: x in r <==> x in s && x.similarity >= threshold
    ensures forall x :: multiset(r)[x] == if x.similarity >= threshold then multiset(s)[x] else 0
  {
    if |s| == 0 then []
    else
      var rest := AtLeast(s[1..], threshold);
      assert s == [s[0]] + s[1..];
      if s[0].similarity >= threshold then [s[0]] + rest else rest
  }

  /** `findSimilarDocuments`: exactly the documents whose similarity reaches
      the threshold, once each, best first; ties keep input order. */
  function FindSimilarDocuments(query: Option<seq<real>>, docs: seq<Document>, threshold: real, sqrt: real -> real)
    : (r: seq<ScoredDoc>)
    ensures forall x :: x in r <==>
      x.doc in docs && x.similarity == Similarity(query, Some(x.doc.embedding), sqrt) && x.similarity >= threshold
    ensures multiset(r) == multiset(AtLeast(ScoreAll(query, docs, sqrt), threshold))
    ensures NonIncreasing(r, SimilarityOf)
    ensures forall k :: WithKey(r, SimilarityOf, k) == WithKey(AtLeast(ScoreAll(query, docs, sqrt), threshold), SimilarityOf, k)
  {
    var scored := ScoreAll(query, docs, sqrt);
    var kept := AtLeast(scored, threshold);
    var r := SortDesc(kept, SimilarityOf);
    assert forall x :: x in r <==> x in kept by {
      forall x ensures x in r <==> x in kept {
        assert x in r <==> x in multiset(r);
      }
    }
    assert forall x :: x in scored <==> x.doc in docs && x.similarity == Similarity(query, Some(x.doc.embedding), sqrt) by {
      forall x ensures x in scored <==> x.doc in docs && x.similarity == Similarity(query, Some(x.doc.embedding), sqrt) {
        if x.doc in docs && x.similarity == Similarity(query, Some(x.doc.embedding), sqrt) {
          var i :| 0 <= i < |docs| && docs[i] == x.doc;
          assert scored[i] == x;
        }
      }
    }
    r
  }

  // ---------------------------------------------------------------------
  // enhanceSearchQuery
  // ---------------------------------------------------------------------

  /** The expansion table, in its key order. */
  const Expansions: seq<(string, string)> := [
    ("marketing", "marketing campaign advertising promotion"),
    ("brand", "brand branding identity logo"),
    ("social", "social media facebook twitter instagram"),
    ("email", "email newsletter mailchimp campaign"),
    ("content", "content blog article copy writing"),
    ("analytics", "analytics metrics data performance"),
    ("strategy", "strategy plan roadmap objectives"),
    ("creative", "creative design visual artwork")
  ]

  /** What one table entry adds: a space and its expansion when `lowered`
      includes its key, nothing otherwise. */
  function ExpansionOf(lowered: string, entry: (string, string)): string {
    if Contains(lowered, entry.0) then " " + entry.1 else []
  }

  /** What every entry of `table` adds, in table order. */
  function EntryExpansions(lowered: string, table: seq<(string, string)>): seq<string> {
    seq(|table|, k requires 0 <= k < |table| => ExpansionOf(lowered, table[k]))
  }

  /** The entries' additions: the first entry's, then the rest's. */
  lemma EntryExpansionsCons(lowered: string, table: seq<(string, string)>)
    requires |table| > 0
    ensures Flatten(EntryExpansions(lowered, table))
      == ExpansionOf(lowered, table[0]) + Flatten(EntryExpansions(lowered, table[1..]))
  {
    var all := EntryExpansions(lowered, table);
    assert all[1..] == EntryExpansions(lowered, table[1..]);
  }

  /** Expansions, each preceded by a space, of the table keys found in
      `lowered`, in table order. */
  function ExpansionsFor(lowered: string, table: seq<(string, string)>): (r: string)
    ensures r == Flatten(EntryExpansions(lowered, table))
    ensures r == [] <==> forall k :: 0 <= k < |table| ==> !Contains(lowered, table[k].0)
    ensures r == [] || r[0] == ' '
    ensures forall k :: 0 <= k < |table| && Contains(lowered, table[k].0) ==> Contains(r, " " + table[k].1)
  {
    if |table| == 0 then []
    else
      var rest := ExpansionsFor(lowered, table[1..]);
      ExpansionsStep(lowered, table, rest);
      ExpansionOf(lowered, table[0]) + rest
  }

  /** The first entry's addition in front of the rest's keeps every promise
      of `ExpansionsFor`. */
  lemma ExpansionsStep(lowered: string, table: seq<(string, string)>, rest: string)
    requires |table| > 0
    requires rest == Flatten(EntryExpansions(lowered, table[1..]))
    requires rest == [] <==> forall k :: 0 <= k < |table| - 1 ==> !Contains(lowered, table[1..][k].0)
    requires rest == [] || rest[0] == ' '
    requires forall k :: 0 <= k < |table| - 1 && Contains(lowered, table[1..][k].0) ==> Contains(rest, " " + table[1..][k].1)
    ensures ExpansionOf(lowered, table[0]) + rest == Flatten(EntryExpansions(lowered, table))
    ensures ExpansionOf(lowered, table[0]) + rest == [] <==> forall k :: 0 <= k < |table| ==> !Contains(lowered, table[k].0)
    ensures ExpansionOf(lowered, table[0]) + rest == [] || (ExpansionOf(lowered, table[0]) + rest)[0] == ' '
    ensures forall k :: 0 <= k < |table| && Contains(lowered, table[k].0) ==>
      Contains(ExpansionOf(lowered, table[0]) + rest, " " + table[k].1)
  {
    EntryExpansionsCons(lowered, table);
    var piece := ExpansionOf(lowered, table[0]);
    assert forall k :: 1 <= k < |table| ==> table[k] == table[1..][k - 1];
    forall k | 1 <= k < |table| && Contains(lowered, table[k].0)
      ensures Contains(piece + rest, " " + table[k].1)
    {
      assert table[k] == table[1..][k - 1];
      ContainsAfter(piece, rest, " " + table[k].1);
    }
    if piece != [] {
      ContainsPrefix(piece, rest);
    }
  }

  /** `enhanceSearchQuery(query)`: the query, then `' ' + expansion` for every
      key the lowercased query includes. */
  function EnhanceSearchQuery(query: string): (r: string)
    ensures r == query + Flatten(EntryExpansions(Lower(query), Expansions))
    ensures |r| >= |query| && r[..|query|] == query
    ensures r == query <==> forall k :: 0 <= k < |Expansions| ==> !Contains(Lower(query), Expansions[k].0)
    ensures forall k :: 0 <= k < |Expansions| && Contains(Lower(query), Expansions[k].0) ==>
      Contains(r[|query|..], " " + Expansions[k].1)
  {
    var added := ExpansionsFor(Lower(query), Expansions);
    assert (query + added)[|query|..] == added;
    query + added
  }
}
