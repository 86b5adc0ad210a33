/**
 * The text side of ingestion: normalising extracted text, guessing a
 * category from keyword scores, collecting tags, and guessing the owning
 * team from the upload path. Every keyword table is the backend's own,
 * in its own order.
 */
module DocumentProcessor {
  import opened Text
  import opened Types
  import NodePath

  // ---------------------------------------------------------------------
  // cleanText
  // ---------------------------------------------------------------------

  /** `.replace(/\r\n/g, '\n')` */
  function CrLfToLf(s: string): (r: string)
    ensures NonSpace(r) == NonSpace(s)
    ensures Words(r) == Words(s) && StartsWord(r) == StartsWord(s)
    ensures '\r' !in s ==> r == s
  {
    if |s| == 0 then []
    else if |s| >= 2 && s[0] == '\r' && s[1] == '\n' then
      var rest := CrLfToLf(s[2..]);
      assert NonSpace(s) == NonSpace(s[2..]) by {
        assert s[1..][1..] == s[2..];
      }
      assert Words(s) == Words(s[2..]) by {
        RunsSepHead(s, IsSpace);
        RunsSepHead(s[1..], IsSpace);
        assert s[1..][1..] == s[2..];
      }
      assert (['\n'] + rest)[1..] == rest;
      ['\n'] + rest
    else
      var rest := CrLfToLf(s[1..]);
      assert ([s[0]] + rest)[1..] == rest;
      assert s == [s[0]] + s[1..];
      RunsStep(s[0], s[0], s[1..], rest, IsSpace);
      [s[0]] + rest
  }

  /** `.replace(/\r/g, '\n')` */
  function CrToLf(s: string): (r: string)
    ensures NonSpace(r) == NonSpace(s)
    ensures Words(r) == Words(s) && StartsWord(r) == StartsWord(s)
    ensures '\r' !in s ==> r == s
  {
    if |s| == 0 then []
    else
      var rest := CrToLf(s[1..]);
      var c := if s[0] == '\r' then '\n' else s[0];
      var r := [c] + rest;
      assert r[1..] == rest;
      assert s == [s[0]] + s[1..];
      RunsStep(s[0], c, s[1..], rest, IsSpace);
      r
  }

  /** `.replace(/\n+/g, '\n')` */
  function SqueezeNewlines(s: string): (r: string)
    ensures NonSpace(r) == NonSpace(s)
    ensures Words(r) == Words(s) && StartsWord(r) == StartsWord(s)
    ensures '\n' !in s ==> r == s
  {
    if |s| == 0 then []
    else if s[0] == '\n' && |s| > 1 && s[1] == '\n' then
      RunsSepHead(s, IsSpace);
      SqueezeNewlines(s[1..])
    else
      var rest := SqueezeNewlines(s[1..]);
      assert ([s[0]] + rest)[1..] == rest;
      assert s == [s[0]] + s[1..];
      RunsStep(s[0], s[0], s[1..], rest, IsSpace);
      [s[0]] + rest
  }

  /** `cleanText`: the four rewrites then `trim`. The result is clean, and
      it is the words of the input joined by single spaces. */
  function CleanText(text: string): (r: string)
    ensures r == Join(Words(text), " ")
    ensures Clean(r)
    ensures NonSpace(r) == NonSpace(text)
  {
    var collapsed := CollapseSpaces(SqueezeNewlines(CrToLf(CrLfToLf(text))));
    var r := Trim(collapsed);
    TrimIsSlice(collapsed);
    JoinWordsOfClean(r);
    r
  }

  /** Cleaning a cleaned text changes nothing. */
  lemma CleanTextIdempotent(text: string)
    ensures CleanText(CleanText(text)) == CleanText(text)
  {
    var t := CleanText(text);
    assert '\r' !in t && '\n' !in t by {
      forall i | 0 <= i < |t| ensures t[i] != '\r' && t[i] != '\n' {
        if IsSpace(t[i]) {
          assert t[i] == ' ';
        }
      }
    }
    var a := CrLfToLf(t);
    assert a == t;
    var b := CrToLf(a);
    assert b == t;
    var c := SqueezeNewlines(b);
    assert c == t;
    CollapseSingleSpaced(t);
    var d := CollapseSpaces(c);
    assert d == t;
    assert TrimStart(t) == t;
    assert TrimEnd(t) == t;
  }

  // ---------------------------------------------------------------------
  // categorizeDocument
  // ---------------------------------------------------------------------

  /** The keywords that vote for each category. */
  function Keywords(c: Category): seq<string> {
    match c
    case Campaign => ["campaign", "advertising", "promotion", "launch", "marketing campaign"]
    case Brand => ["brand", "branding", "identity", "logo", "brand guide"]
    case SocialMedia => ["social", "facebook", "twitter", "instagram", "linkedin", "tiktok"]
    case Email => ["email", "newsletter", "mailchimp", "campaign monitor", "subject line"]
    case Content => ["content", "blog", "article", "copy", "copywriting", "editorial"]
    case Analytics => ["analytics", "metrics", "kpi", "performance", "data", "report"]
    case Strategy => ["strategy", "plan", "roadmap", "objectives", "goals"]
    case Creative => ["creative", "design", "visual", "artwork", "graphics"]
  }

  /** The positions of the keywords that `text` includes. */
  function KeywordHits(keywords: seq<string>, text: string): set<int> {
    set j | 0 <= j < |keywords| && Contains(text, keywords[j])
  }

  /** Adding a keyword at the end adds its position exactly when it is found. */
  lemma KeywordHitsSnoc(keywords: seq<string>, text: string)
    requires |keywords| > 0
    ensures var front := keywords[..|keywords| - 1];
      |KeywordHits(keywords, text)| ==
        |KeywordHits(front, text)| + (if Contains(text, keywords[|keywords| - 1]) then 1 else 0)
  {
    var last := |keywords| - 1;
    var front := keywords[..last];
    var added: set<int> := if Contains(text, keywords[last]) then {last} else {};
    assert KeywordHits(keywords, text) == KeywordHits(front, text) + added;
    assert last !in KeywordHits(front, text);
  }

  /** 2 for every keyword found in the file name, 1 for every keyword found
      in the content. */
  function KeywordScore(keywords: seq<string>, lowerName: string, lowerContent: string): (n: nat)
    ensures n == 0 <==> forall j :: 0 <= j < |keywords| ==>
      !Contains(lowerName, keywords[j]) && !Contains(lowerContent, keywords[j])
    ensures n <= 3 * |keywords|
  {
    if |keywords| == 0 then 0
    else
      var front := keywords[..|keywords| - 1];
      var last := keywords[|keywords| - 1];
      assert forall j :: 0 <= j < |front| ==> front[j] == keywords[j];
      KeywordScore(front, lowerName, lowerContent)
      + (if Contains(lowerName, last) then 2 else 0)
      + (if Contains(lowerContent, last) then 1 else 0)
  }

  /** The score counts the keywords found: twice those in the name, once
      those in the content. */
  lemma {:induction false} KeywordScoreCountsHits(keywords: seq<string>, lowerName: string, lowerContent: string)
    ensures KeywordScore(keywords, lowerName, lowerContent)
      == 2 * |KeywordHits(keywords, lowerName)| + |KeywordHits(keywords, lowerContent)|
  {
    if |keywords| == 0 {
      assert KeywordHits(keywords, lowerName) == {};
      assert KeywordHits(keywords, lowerContent) == {};
    } else {
      KeywordScoreCountsHits(keywords[..|keywords| - 1], lowerName, lowerContent);
      KeywordHitsSnoc(keywords, lowerName);
      KeywordHitsSnoc(keywords, lowerContent);
    }
  }

  function Score(c: Category, filename: string, content: string): nat {
    KeywordScore(Keywords(c), Lower(filename), Lower(content))
  }

  /** `Object.keys(scores).reduce((a, b) => scores[a] > scores[b] ? a : b)`
      over positions: `acc` is the running winner, `i` the next challenger.
      A challenger that ties the winner replaces it, so the result is the
      last position holding the maximum. */
  function LastArgMax(xs: seq<int>, acc: nat, i: nat): (r: nat)
    requires acc < i <= |xs|
    requires forall j :: 0 <= j < i ==> xs[j] <= xs[acc]
    requires forall j :: acc < j < i ==> xs[j] < xs[acc]
    ensures r < |xs|
    ensures forall j :: 0 <= j < |xs| ==> xs[j] <= xs[r]
    ensures forall j :: r < j < |xs| ==> xs[j] < xs[r]
    decreases |xs| - i
  {
    if i == |xs| then acc
    else LastArgMax(xs, if xs[acc] > xs[i] then acc else i, i + 1)
  }

  function CategoryScores(filename: string, content: string): (s: seq<int>)
    ensures |s| == |Categories|
    ensures forall i :: 0 <= i < |Categories| ==> s[i] == Score(Categories[i], filename, content)
  {
    seq(|Categories|, i requires 0 <= i < |Categories| => Score(Categories[i], filename, content))
  }

  /** Every category has a row in the keyword table. */
  lemma EveryCategoryListed(c: Category)
    ensures exists i :: 0 <= i < |Categories| && Categories[i] == c
  {
    match c
    case Campaign => assert Categories[0] == c;
    case Brand => assert Categories[1] == c;
    case SocialMedia => assert Categories[2] == c;
    case Email => assert Categories[3] == c;
    case Content => assert Categories[4] == c;
    case Analytics => assert Categories[5] == c;
    case Strategy => assert Categories[6] == c;
    case Creative => assert Categories[7] == c;
  }

  /** The keyword table lists each category once. */
  lemma CategoriesDistinct(i: nat, j: nat)
    requires i < |Categories| && j < |Categories|
    requires Categories[i] == Categories[j]
    ensures i == j
  {
  }

  /** `categorizeDocument(filename, content)`: the category with the highest
      keyword score, the later one on a tie, and `content` when nothing scores. */
  function Categorize(filename: string, content: string): (r: Category)
    ensures (forall c :: Score(c, filename, content) == 0) ==> r == Content
    ensures (exists c :: Score(c, filename, content) > 0) ==>
      && (forall c :: Score(c, filename, content) <= Score(r, filename, content))
      && (forall i, j :: 0 <= i < j < |Categories| && Categories[i] == r ==>
            Score(Categories[j], filename, content) < Score(r, filename, content))
  {
    var scores := CategoryScores(filename, content);
    var best := LastArgMax(scores, 0, 1);
    CategorizeChoosesBest(filename, content, scores, best);
    if scores[best] > 0 then Categories[best] else Content
  }

  /** The chosen category is the last one of maximal score, or content when every score is zero. */
  lemma CategorizeChoosesBest(filename: string, content: string, scores: seq<int>, best: nat)
    requires scores == CategoryScores(filename, content)
    requires best < |scores|
    requires forall j :: 0 <= j < |scores| ==> scores[j] <= scores[best]
    requires forall j :: best < j < |scores| ==> scores[j] < scores[best]
    ensures var r := if scores[best] > 0 then Categories[best] else Content;
      && ((forall c :: Score(c, filename, content) == 0) ==> r == Content)
      && ((exists c :: Score(c, filename, content) > 0) ==>
          && (forall c :: Score(c, filename, content) <= Score(r, filename, content))
          && (forall i, j :: 0 <= i < j < |Categories| && Categories[i] == r ==>
                Score(Categories[j], filename, content) < Score(r, filename, content)))
  {
    forall c ensures Score(c, filename, content) <= scores[best] {
      EveryCategoryListed(c);
    }
    if exists c :: Score(c, filename, content) > 0 {
      var c :| Score(c, filename, content) > 0;
      assert scores[best] > 0;
      var r := Categories[best];
      assert Score(r, filename, content) == scores[best];
      forall i, j | 0 <= i < j < |Categories| && Categories[i] == r
        ensures Score(Categories[j], filename, content) < Score(r, filename, content)
      {
        CategoriesDistinct(i, best);
        assert scores[j] == Score(Categories[j], filename, content);
      }
    }
  }

  // ---------------------------------------------------------------------
  // extractTags
  // ---------------------------------------------------------------------

  /** Separators of `split(/[-_\s]+/)`. */
  predicate IsPartSeparator(c: char) {
    c == '-' || c == '_' || IsSpace(c)
  }

  /** A character that belongs to a name part. */
  predicate IsPartChar(c: char) {
    !IsPartSeparator(c)
  }

  /** `split(/[-_\s]+/)` with the empty pieces dropped: the maximal runs of
      non-separator characters, which together hold every such character of
      `s` in order. `split` also yields empty strings at a leading or
      trailing separator; those never pass the length filter that follows,
      so they are not listed. */
  function Parts(s: string): (r: seq<string>)
    ensures r == Runs(s, IsPartSeparator)
    ensures Flatten(r) == KeepWhere(s, IsPartChar)
    ensures forall k :: 0 <= k < |r| ==> |r[k]| > 0
    ensures forall k, i :: 0 <= k < |r| && 0 <= i < |r[k]| ==> !IsPartSeparator(r[k][i])
    decreases |s|
  {
    RunsFlatten(s, IsPartSeparator, IsPartChar);
    if |s| == 0 then []
    else if IsPartSeparator(s[0]) then
      RunsSepHead(s, IsPartSeparator);
      Parts(s[1..])
    else
      var n := Span(s, IsPartChar);
      RunsChunk(s, IsPartSeparator, n);
      [s[..n]] + Parts(s[n..])
  }

  /** The lowercased parts longer than two characters. */
  function LongPartsLowered(parts: seq<string>): (r: seq<string>)
    ensures forall t :: t in r <==> exists p :: p in parts && |p| > 2 && Lower(p) == t
  {
    if |parts| == 0 then []
    else
      var rest := LongPartsLowered(parts[1..]);
      assert forall p :: p in parts <==> p == parts[0] || p in parts[1..];
      (if |parts[0]| > 2 then [Lower(parts[0])] else []) + rest
  }

  /** Tags taken from the file name: the lowercased long parts of its stem. */
  function NameTags(filename: string): seq<string> {
    LongPartsLowered(Parts(NodePath.Name(filename)))
  }

  const MarketingTerms: seq<string> := [
    "roi", "ctr", "conversion", "engagement", "reach", "impressions",
    "leads", "funnel", "acquisition", "retention", "churn", "ltv",
    "seo", "sem", "ppc", "cpc", "cpm", "organic", "paid",
    "a/b test", "landing page", "call to action", "cta"]

  /** The terms of `terms` that occur in `lowerContent`, in list order. */
  function TermsIn(terms: seq<string>, lowerContent: string): (r: seq<string>)
    ensures forall t :: t in r <==> t in terms && Contains(lowerContent, t)
  {
    if |terms| == 0 then []
    else (if Contains(lowerContent, terms[0]) then [terms[0]] else []) + TermsIn(terms[1..], lowerContent)
  }

  /** Tags taken from the content: the marketing terms it mentions. */
  function TermTags(content: string): seq<string> {
    TermsIn(MarketingTerms, Lower(content))
  }

  ghost predicate Distinct<T>(s: seq<T>) {
    forall i, j :: 0 <= i < j < |s| ==> s[i] != s[j]
  }

  /** `xs.forEach(x => set.add(x))` on an insertion-ordered set held as a
      duplicate-free sequence. */
  function AddAll(acc: seq<string>, xs: seq<string>): (r: seq<string>)
    requires Distinct(acc)
    ensures Distinct(r)
    ensures |r| >= |acc| && r[..|acc|] == acc
    ensures forall y :: y in r <==> y in acc || y in xs
    decreases |xs|
  {
    if |xs| == 0 then acc
    else
      var next := if xs[0] in acc then acc else acc + [xs[0]];
      var r := AddAll(next, xs[1..]);
      assert r[..|acc|] == next[..|acc|];
      r
  }

  /** Adding `a` then `b` to an empty insertion-ordered set lists every
      element of `a` before every element that only `b` contributes. */
  lemma {:induction false} AddAllBlocks(a: seq<string>, b: seq<string>)
    ensures var fromA := AddAll([], a);
      var all := AddAll(fromA, b);
      && (forall i :: 0 <= i < |fromA| ==> all[i] in a)
      && (forall i :: |fromA| <= i < |all| ==> all[i] !in a)
  {
    var fromA := AddAll([], a);
    var all := AddAll(fromA, b);
    forall i | |fromA| <= i < |all| ensures all[i] !in a {
      assert all[..|fromA|] == fromA;
    }
    forall i | 0 <= i < |fromA| ensures all[i] in a {
      assert all[i] == fromA[i];
      assert fromA[i] in fromA;
    }
  }

  /** The first ten of `a` then `b`, each listed once: every tag from one
      of the lists, the tags of `a` first, and none dropped unless the cap
      was reached. */
  function MergeTags(a: seq<string>, b: seq<string>): (r: seq<string>)
    ensures |r| <= 10
    ensures Distinct(r)
    ensures forall t :: t in r ==> t in a || t in b
    ensures forall i, j :: 0 <= i < j < |r| && r[i] !in a ==> r[j] !in a
    ensures |r| < 10 ==> forall t :: t in a || t in b ==> t in r
  {
    var fromA := AddAll([], a);
    var all := AddAll(fromA, b);
    AddAllBlocks(a, b);
    var r := if |all| <= 10 then all else all[..10];
    assert forall i :: 0 <= i < |r| ==> r[i] == all[i];
    r
  }

  /** `extractTags(content, filename)`: at most ten distinct tags, every
      one from the file name or a mentioned marketing term, file-name tags
      first, and none dropped unless the cap was reached. */
  function ExtractTags(content: string, filename: string): (r: seq<string>)
    ensures |r| <= 10
    ensures Distinct(r)
    ensures forall t :: t in r ==> t in NameTags(filename) || t in TermTags(content)
    ensures forall i, j :: 0 <= i < j < |r| && r[i] !in NameTags(filename) ==> r[j] !in NameTags(filename)
    ensures |r| < 10 ==> forall t :: t in NameTags(filename) || t in TermTags(content) ==> t in r
  {
    MergeTags(NameTags(filename), TermTags(content))
  }

  // ---------------------------------------------------------------------
  // extractTeamFromPath
  // ---------------------------------------------------------------------

  datatype Team = CreativeTeam | ContentTeam | SocialTeam | EmailTeam | AnalyticsTeam | StrategyTeam | GeneralTeam
  {
    function Name(): (r: string)
      ensures |r| >= 5
    {
      match this
      case CreativeTeam => "creative"
      case ContentTeam => "content"
      case SocialTeam => "social"
      case EmailTeam => "email"
      case AnalyticsTeam => "analytics"
      case StrategyTeam => "strategy"
      case GeneralTeam => "general"
    }
  }

  /** The teams a path can name, in table order. */
  const TeamOrder: seq<Team> := [CreativeTeam, ContentTeam, SocialTeam, EmailTeam, AnalyticsTeam, StrategyTeam]

  function TeamKeywords(t: Team): seq<string> {
    match t
    case CreativeTeam => ["creative", "design", "graphics"]
    case ContentTeam => ["content", "editorial", "blog"]
    case SocialTeam => ["social", "community"]
    case EmailTeam => ["email", "newsletter"]
    case AnalyticsTeam => ["analytics", "data", "reporting"]
    case StrategyTeam => ["strategy", "planning"]
    case GeneralTeam => []
  }

  /** Some keyword of team `t` occurs in the lowercased path segment. */
  predicate SegmentNames(segment: string, t: Team) {
    exists j | 0 <= j < |TeamKeywords(t)| :: Contains(Lower(segment), TeamKeywords(t)[j])
  }

  predicate IsPathSeparator(c: char) {
    c == '/' || c == '\\'
  }

  /** The segments, with the `i`-th separator between segments `i` and `i + 1`. */
  function Interleave(segments: seq<string>, seps: string): string
    requires |segments| == |seps| + 1
  {
    if |seps| == 0 then segments[0]
    else segments[0] + [seps[0]] + Interleave(segments[1..], seps[1..])
  }

  /** `s.split(/[/\\]/)`: the segments between separators, empty ones
      included. There is one segment more than there are separators, and
      putting the separators back between the segments gives `s`. */
  function SplitPath(s: string): (r: seq<string>)
    ensures |r| == |KeepWhere(s, IsPathSeparator)| + 1
    ensures Interleave(r, KeepWhere(s, IsPathSeparator)) == s
    ensures forall k, i :: 0 <= k < |r| && 0 <= i < |r[k]| ==> !IsPathSeparator(r[k][i])
    decreases |s|
  {
    var n := Span(s, IsSegmentChar);
    if n == |s| then
      KeepWhereNone(s, IsPathSeparator);
      [s]
    else
      var rest := SplitPath(s[n + 1..]);
      SplitPathStep(s, n, rest);
      [s[..n]] + rest
  }

  predicate IsSegmentChar(c: char) {
    !IsPathSeparator(c)
  }

  /** A first segment ending at the separator at `n`, in front of the split of the rest. */
  lemma SplitPathStep(s: string, n: nat, rest: seq<string>)
    requires n < |s| && IsPathSeparator(s[n])
    requires forall i :: 0 <= i < n ==> IsSegmentChar(s[i])
    requires |rest| == |KeepWhere(s[n + 1..], IsPathSeparator)| + 1
    requires Interleave(rest, KeepWhere(s[n + 1..], IsPathSeparator)) == s[n + 1..]
    requires forall k, i :: 0 <= k < |rest| && 0 <= i < |rest[k]| ==> !IsPathSeparator(rest[k][i])
    ensures |[s[..n]] + rest| == |KeepWhere(s, IsPathSeparator)| + 1
    ensures Interleave([s[..n]] + rest, KeepWhere(s, IsPathSeparator)) == s
    ensures forall k, i :: 0 <= k < |[s[..n]] + rest| && 0 <= i < |([s[..n]] + rest)[k]| ==> !IsPathSeparator(([s[..n]] + rest)[k][i])
  {
    SeparatorAt(s, n);
    InterleaveCons(s[..n], rest, s[n], KeepWhere(s[n + 1..], IsPathSeparator));
    assert s == s[..n] + [s[n]] + s[n + 1..];
    var r := [s[..n]] + rest;
    forall k, i | 0 <= k < |r| && 0 <= i < |r[k]|
      ensures !IsPathSeparator(r[k][i])
    {
      if k > 0 { assert r[k] == rest[k - 1]; }
    }
  }

  /** The separators of a path whose first separator is at `n`. */
  lemma {:induction false} SeparatorAt(s: string, n: nat)
    requires n < |s| && IsPathSeparator(s[n])
    requires forall i :: 0 <= i < n ==> !IsPathSeparator(s[i])
    ensures KeepWhere(s, IsPathSeparator) == [s[n]] + KeepWhere(s[n + 1..], IsPathSeparator)
  {
    var tail := s[1..];
    assert s == [s[0]] + tail;
    KeepWhereCons(s[0], tail, IsPathSeparator);
    if n > 0 {
      SeparatorAt(tail, n - 1);
      assert tail[n - 1] == s[n] && tail[n..] == s[n + 1..];
    } else {
      assert tail == s[n + 1..];
    }
  }

  /** Putting a segment and a separator in front of an interleaving. */
  lemma InterleaveCons(segment: string, segments: seq<string>, sep: char, seps: string)
    requires |segments| == |seps| + 1
    ensures Interleave([segment] + segments, [sep] + seps) == segment + [sep] + Interleave(segments, seps)
  {
    assert ([segment] + segments)[1..] == segments;
    assert ([sep] + seps)[1..] == seps;
  }

  /** The first team, from position `from` of the table on, that the segment names. */
  function TeamInSegment(segment: string, from: nat): (r: Option<nat>)
    requires from <= |TeamOrder|
    ensures r.None? <==> forall m :: from <= m < |TeamOrder| ==> !SegmentNames(segment, TeamOrder[m])
    ensures r.Some? ==> from <= r.value < |TeamOrder| && SegmentNames(segment, TeamOrder[r.value])
    ensures r.Some? ==> forall m :: from <= m < r.value ==> !SegmentNames(segment, TeamOrder[m])
    decreases |TeamOrder| - from
  {
    if from == |TeamOrder| then None
    else if SegmentNames(segment, TeamOrder[from]) then Some(from)
    else TeamInSegment(segment, from + 1)
  }

  /** The segment names none of the six teams. */
  predicate NamesNoTeam(segment: string) {
    forall m :: 0 <= m < |TeamOrder| ==> !SegmentNames(segment, TeamOrder[m])
  }

  /** No segment names any of the six teams. */
  predicate NoSegmentNamesTeam(segments: seq<string>) {
    forall i :: 0 <= i < |segments| ==> NamesNoTeam(segments[i])
  }

  /** Segment `i` is the first segment that names a team, and `TeamOrder[m]`
      is the first team in table order that it names. */
  ghost predicate Decides(segments: seq<string>, i: int, m: int) {
    && 0 <= i < |segments| && 0 <= m < |TeamOrder|
    && SegmentNames(segments[i], TeamOrder[m])
    && (forall i' :: 0 <= i' < i ==> NamesNoTeam(segments[i']))
    && (forall m' :: 0 <= m' < m ==> !SegmentNames(segments[i], TeamOrder[m']))
  }

  /** A segment that names no team moves the deciding position one place on. */
  lemma DecidesShift(segments: seq<string>, i: int, m: int)
    requires |segments| > 0 && NamesNoTeam(segments[0])
    requires Decides(segments[1..], i, m)
    ensures Decides(segments, i + 1, m)
  {
    assert segments[1..][i] == segments[i + 1];
    forall i' | 0 <= i' < i + 1 ensures NamesNoTeam(segments[i']) {
      if i' > 0 {
        assert segments[i'] == segments[1..][i' - 1];
      }
    }
  }

  /** The team named by the first segment that names any, or `general`.
      Within that segment the table order decides. */
  function TeamFromSegments(segments: seq<string>): (r: Team)
    ensures r == GeneralTeam <==> NoSegmentNamesTeam(segments)
    ensures r != GeneralTeam ==> exists i, m :: Decides(segments, i, m) && TeamOrder[m] == r
  {
    if |segments| == 0 then GeneralTeam
    else
      match TeamInSegment(segments[0], 0)
      case Some(m) =>
        HeadDecides(segments, m);
        TeamOrder[m]
      case None =>
        var r := TeamFromSegments(segments[1..]);
        TailDecides(segments, r);
        r
  }

  /** A first segment that names a team decides the team. */
  lemma HeadDecides(segments: seq<string>, m: nat)
    requires |segments| > 0 && TeamInSegment(segments[0], 0) == Some(m)
    ensures Decides(segments, 0, m) && TeamOrder[m] != GeneralTeam
    ensures !NoSegmentNamesTeam(segments)
  {
    assert !NamesNoTeam(segments[0]);
  }

  /** Past a first segment that names no team, the rest of the path decides. */
  lemma TailDecides(segments: seq<string>, r: Team)
    requires |segments| > 0 && NamesNoTeam(segments[0])
    requires r == GeneralTeam <==> NoSegmentNamesTeam(segments[1..])
    requires r != GeneralTeam ==> exists i, m :: Decides(segments[1..], i, m) && TeamOrder[m] == r
    ensures r == GeneralTeam <==> NoSegmentNamesTeam(segments)
    ensures r != GeneralTeam ==> exists i, m :: Decides(segments, i, m) && TeamOrder[m] == r
  {
    if r != GeneralTeam {
      var i, m :| Decides(segments[1..], i, m) && TeamOrder[m] == r;
      DecidesShift(segments, i, m);
    }
    assert forall i :: 0 <= i < |segments[1..]| ==> segments[1..][i] == segments[i + 1];
  }

  /** `extractTeamFromPath(filePath)`: `general` exactly when no segment of
      the path between `/` or `\\` separators names a team; otherwise the
      first team, in table order, named by the first segment that names any. */
  function ExtractTeamFromPath(filePath: string): (r: Team)
    ensures r == GeneralTeam <==> NoSegmentNamesTeam(SplitPath(filePath))
    ensures r != GeneralTeam ==> exists i, m :: Decides(SplitPath(filePath), i, m) && TeamOrder[m] == r
  {
    TeamFromSegments(SplitPath(filePath))
  }
}
